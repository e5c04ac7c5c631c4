/** What the package creator is given: the parsed JSON metadata, with text already encoded as ASCII,
    hexadecimal already decoded, and the release date already a `datetime`. */
module PldmMetadata {
  import opened Bytes

  type Microsecond = n: int | 0 <= n < 1_000_000
  type Year = n: int | 1 <= n <= 9999 witness 1

  datatype Timestamp = Timestamp(
    microsecond: Microsecond, second: byte, minute: byte, hour: byte, day: byte, month: byte, year: Year)

  datatype Descriptor =
    | Standard(kind: int, data: Data)
    | Vendor(title: Data, data: Data)

  datatype Device = Device(
    options: seq<int>, version: Data, manifest: Option<Data>, applicable: seq<int>, descriptors: seq<Descriptor>)

  datatype Downstream = Downstream(
    options: seq<int>, minVersion: Data, minStamp: int, manifest: Option<Data>, applicable: seq<int>,
    descriptors: seq<Descriptor>)

  datatype Component = Component(
    classification: int, identifier: int, options: seq<int>, stamp: Option<int>, activation: seq<int>, version: Data)

  datatype Metadata = Metadata(
    identifier: Data, revision: int, released: Timestamp, version: Data,
    devices: seq<Device>, downstream: Option<seq<Downstream>>, components: seq<Component>)

  // ---------------------------------------------------------------- what the script accepts

  const ASCII_STRING: byte := 1
  const VENDOR_DEFINED := 0xFFFF

  /** The data length the script demands for each descriptor type it knows. */
  function DescriptorLength(kind: int): (length: Option<nat>)
    ensures length.Some? ==> 0 <= kind < VENDOR_DEFINED
  {
    if kind == 0x0000 then Some(2)
    else if kind == 0x0001 then Some(4)
    else if kind == 0x0002 then Some(16)
    else if kind == 0x0003 then Some(3)
    else if kind == 0x0004 then Some(4)
    else if kind == 0x0005 then Some(3)
    else if kind == 0x0006 then Some(8)
    else if kind == 0x0100 then Some(2)
    else if kind == 0x0101 then Some(2)
    else if kind == 0x0102 then Some(2)
    else if kind == 0x0103 then Some(1)
    else if kind == 0x0104 then Some(4)
    else if kind == 0x0105 then Some(4)
    else if kind == 0x0106 then Some(40)
    else if kind == 0x0107 then Some(10)
    else if kind == 0x0108 then Some(16)
    else if kind == 0x0109 then Some(4)
    else if kind == 0x010A then Some(8)
    else if kind == 0x010B then Some(2)
    else None
  }

  predicate InitialKind(kind: int) {
    0x0000 <= kind <= 0x0004
  }

  predicate Text(s: Data) {
    |s| <= 255
  }

  predicate DescriptorOk(d: Descriptor, first: bool) {
    match d
    case Standard(kind, data) => (first ==> InitialKind(kind)) && DescriptorLength(kind) == Some(|data|)
    case Vendor(title, data) => !first && Text(title) && 2 + |title| + |data| <= 0xFFFF
  }

  predicate DescriptorsOk(ds: seq<Descriptor>) {
    forall i :: 0 <= i < |ds| ==> DescriptorOk(ds[i], i == 0)
  }

  predicate AllIn(members: seq<int>, n: nat) {
    forall i :: 0 <= i < |members| ==> 0 <= members[i] < n
  }

  predicate ComponentOk(c: Component) {
    && 0 <= c.classification <= 0xFFFF
    && 0 <= c.identifier <= 0xFFFF
    && (1 in c.options ==> c.stamp.Some? && 0 < c.stamp.value < 0xFFFF_FFFF)
    && AllIn(c.options, 3)
    && AllIn(c.activation, 6)
    && Text(c.version)
  }

  /** The comparison stamp written for a component: the given one only under option bit 1. */
  function Stamp(c: Component): (s: nat)
    requires ComponentOk(c)
    ensures s <= 0xFFFF_FFFF
  {
    if 1 in c.options then c.stamp.value else 0xFFFF_FFFF
  }

  function BitmapBits(md: Metadata): (n: nat)
    ensures n % 8 == 0 && |md.components| <= n < |md.components| + 8
  {
    8 * ((|md.components| + 7) / 8)
  }

  /** Reference manifests exist from format revision 4 on; before that the metadata entry is ignored. */
  function Manifest(revision: int, manifest: Option<Data>): Data {
    if revision >= 4 then manifest.GetOr([]) else []
  }
}
