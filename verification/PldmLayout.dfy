/** The package, field by field, with every count, length, offset and size already in place. */
module PldmLayout {
  import opened Bytes
  import opened PldmMetadata
  import Crc32

  // ---------------------------------------------------------------- package header information

  function Date(t: Timestamp): Data {
    Le(0, 2) + Le(t.microsecond, 3) + [t.second, t.minute, t.hour, t.day, t.month] + Le(t.year, 2) + [0]
  }

  function InfoFront(md: Metadata): Data
    requires 0 <= md.revision < 256
  {
    md.identifier + [md.revision]
  }

  function InfoTail(md: Metadata): Data
    requires Text(md.version)
  {
    Date(md.released) + (Le(BitmapBits(md), 2) + ([ASCII_STRING] + ([|md.version|] + md.version)))
  }

  function HeaderInfo(md: Metadata, headerSize: nat): Data
    requires 0 <= md.revision < 256 && Text(md.version)
  {
    InfoFront(md) + (Le(headerSize, 2) + InfoTail(md))
  }

  // ---------------------------------------------------------------- identification areas

  function PrintDescriptor(d: Descriptor): Data
    requires DescriptorOk(d, false)
  {
    match d
    case Standard(kind, data) => Le(kind, 2) + (Le(|data|, 2) + data)
    case Vendor(title, data) =>
      Le(VENDOR_DEFINED, 2) +
      (Le(2 + |title| + |data|, 2) + ([ASCII_STRING] + ([|title|] + (title + data))))
  }

  /** Each descriptor is fit to follow another one. */
  predicate Printable(ds: seq<Descriptor>) {
    forall i :: 0 <= i < |ds| ==> DescriptorOk(ds[i], false)
  }

  function DescriptorRecords(ds: seq<Descriptor>): (parts: seq<Data>)
    requires Printable(ds)
    ensures |parts| == |ds|
  {
    seq(|ds|, i requires 0 <= i < |ds| => PrintDescriptor(ds[i]))
  }

  function PrintDescriptors(ds: seq<Descriptor>): Data
    requires Printable(ds)
  {
    Flat(DescriptorRecords(ds))
  }

  function ManifestLength(revision: int, manifest: Data): Data {
    if revision >= 4 then Le(|manifest|, 4) else []
  }

  /** The fixed fields at the front of every identification record, after its length. */
  function Counts(revision: int, descriptors: byte, options: seq<int>, textType: byte, textLength: byte,
                  manifest: Data): Data
  {
    [descriptors] + (Le(BitsToNat(Bits(options, 32)), 4) + ([textType] + ([textLength] + (Le(0, 2) +
    ManifestLength(revision, manifest)))))
  }

  /** A record is its own length, then everything that length covers. */
  function Record(body: Data): Data {
    Le(2 + |body|, 2) + body
  }

  predicate RecordFits(body: Data) {
    2 + |body| <= 0xFFFF
  }

  function Records(bodies: seq<Data>): (parts: seq<Data>)
    ensures |parts| == |bodies|
  {
    seq(|bodies|, i requires 0 <= i < |bodies| => Record(bodies[i]))
  }

  function DeviceBody(revision: int, bitmapBits: nat, d: Device): Data
    requires bitmapBits % 8 == 0 && Text(d.version) && Printable(d.descriptors) && |d.descriptors| <= 255
  {
    var manifest := Manifest(revision, d.manifest);
    Counts(revision, |d.descriptors|, d.options, ASCII_STRING, |d.version|, manifest) +
    (PackBits(Bits(d.applicable, bitmapBits)) + (d.version + (PrintDescriptors(d.descriptors) + manifest)))
  }

  predicate DeviceOk(md: Metadata, d: Device) {
    && AllIn(d.options, 1)
    && Text(d.version)
    && AllIn(d.applicable, |md.components|)
    && DescriptorsOk(d.descriptors)
    && |d.descriptors| <= 255
    && RecordFits(DeviceBody(md.revision, BitmapBits(md), d))
  }

  function DeviceBodyOf(md: Metadata, d: Device): (body: Data)
    requires DeviceOk(md, d)
    ensures RecordFits(body)
  {
    DeviceBody(md.revision, BitmapBits(md), d)
  }

  /** The version string of a downstream device is written only under option bit 0. */
  function MinVersion(d: Downstream): Data {
    if 0 in d.options then d.minVersion else []
  }

  function MinStamp(d: Downstream): Data
    requires 0 in d.options ==> 0 <= d.minStamp
  {
    if 0 in d.options then Le(d.minStamp, 4) else []
  }

  function MinVersionType(d: Downstream): byte {
    if 0 in d.options then ASCII_STRING else 0
  }

  function DownstreamBody(revision: int, bitmapBits: nat, d: Downstream): Data
    requires 0 in d.options ==> Text(d.minVersion) && 0 <= d.minStamp
    requires bitmapBits % 8 == 0 && Printable(d.descriptors) && |d.descriptors| <= 255
  {
    var manifest := Manifest(revision, d.manifest);
    Counts(revision, |d.descriptors|, d.options, MinVersionType(d), |MinVersion(d)|, manifest) +
    (PackBits(Bits(d.applicable, bitmapBits)) +
    (MinVersion(d) + (MinStamp(d) + (PrintDescriptors(d.descriptors) + manifest))))
  }

  predicate DownstreamOk(md: Metadata, d: Downstream) {
    && AllIn(d.options, 1)
    && (0 in d.options ==> Text(d.minVersion) && 0 <= d.minStamp <= 0xFFFF_FFFF)
    && AllIn(d.applicable, |md.components|)
    && DescriptorsOk(d.descriptors)
    && |d.descriptors| <= 255
    && RecordFits(DownstreamBody(md.revision, BitmapBits(md), d))
  }

  function DownstreamBodyOf(md: Metadata, d: Downstream): (body: Data)
    requires DownstreamOk(md, d)
    ensures RecordFits(body)
  {
    DownstreamBody(md.revision, BitmapBits(md), d)
  }

  function DownstreamList(md: Metadata): seq<Downstream> {
    if md.revision >= 2 then md.downstream.GetOr([]) else []
  }

  predicate DevicesOk(md: Metadata) {
    |md.devices| <= 255 && forall i :: 0 <= i < |md.devices| ==> DeviceOk(md, md.devices[i])
  }

  predicate DownstreamsOk(md: Metadata) {
    |DownstreamList(md)| <= 255 && forall i :: 0 <= i < |DownstreamList(md)| ==> DownstreamOk(md, DownstreamList(md)[i])
  }

  function DeviceBodies(md: Metadata, ds: seq<Device>): (bodies: seq<Data>)
    requires forall i :: 0 <= i < |ds| ==> DeviceOk(md, ds[i])
    ensures |bodies| == |ds| && forall i :: 0 <= i < |ds| ==> RecordFits(bodies[i])
  {
    seq(|ds|, i requires 0 <= i < |ds| => DeviceBodyOf(md, ds[i]))
  }

  function DownstreamBodies(md: Metadata, ds: seq<Downstream>): (bodies: seq<Data>)
    requires forall i :: 0 <= i < |ds| ==> DownstreamOk(md, ds[i])
    ensures |bodies| == |ds| && forall i :: 0 <= i < |ds| ==> RecordFits(bodies[i])
  {
    seq(|ds|, i requires 0 <= i < |ds| => DownstreamBodyOf(md, ds[i]))
  }

  function DeviceArea(md: Metadata): Data
    requires DevicesOk(md)
  {
    [|md.devices|] + Flat(Records(DeviceBodies(md, md.devices)))
  }

  function DownstreamArea(md: Metadata): Data
    requires DownstreamsOk(md)
  {
    if md.revision >= 2 then [|DownstreamList(md)|] + Flat(Records(DownstreamBodies(md, DownstreamList(md)))) else []
  }

  // ---------------------------------------------------------------- component image information

  /** Where a component image lies in the package. */
  datatype Place = Place(offset: nat, size: nat)

  const BLANK := Place(0, 0)

  const PLACE_POSITION := 12

  function OpaqueData(revision: int): Data {
    if revision >= 3 then Le(0, 4) else []
  }

  /** The fields in front of the location offset. */
  function ComponentFields(c: Component): (b: Data)
    requires ComponentOk(c)
    ensures |b| == PLACE_POSITION
  {
    Le(c.classification, 2) + (Le(c.identifier, 2) + (Le(Stamp(c), 4) + (Le(BitsToNat(Bits(c.options, 16)), 2) +
    Le(BitsToNat(Bits(c.activation, 16)), 2))))
  }

  function PlaceFields(p: Place): (b: Data)
    ensures |b| == 8
  {
    Le(p.offset, 4) + Le(p.size, 4)
  }

  function VersionFields(revision: int, version: Data): Data
    requires Text(version)
  {
    [ASCII_STRING] + ([|version|] + (version + OpaqueData(revision)))
  }

  function PrintComponent(revision: int, c: Component, p: Place): Data
    requires ComponentOk(c)
  {
    ComponentFields(c) + (PlaceFields(p) + VersionFields(revision, c.version))
  }

  predicate ComponentsOk(cs: seq<Component>) {
    |cs| <= 32 && forall i :: 0 <= i < |cs| ==> ComponentOk(cs[i])
  }

  function ComponentRecords(revision: int, cs: seq<Component>, places: seq<Place>): seq<Data>
    requires |places| == |cs| && forall i :: 0 <= i < |cs| ==> ComponentOk(cs[i])
  {
    seq(|cs|, i requires 0 <= i < |cs| => PrintComponent(revision, cs[i], places[i]))
  }

  function ComponentArea(md: Metadata, places: seq<Place>): Data
    requires ComponentsOk(md.components) && |places| == |md.components|
  {
    Le(|md.components|, 2) + Flat(ComponentRecords(md.revision, md.components, places))
  }

  /** The images one after the other, the first at `start`. */
  function Places(start: nat, images: seq<Data>): (ps: seq<Place>)
    ensures |ps| == |images|
    ensures forall i :: 0 <= i < |images| ==> ps[i] == Place(start + |Flat(images[..i])|, |images[i]|)
    decreases |images|
  {
    if images == [] then []
    else
      var rest := Places(start + |images[0]|, images[1..]);
      assert forall i :: 0 < i <= |images| ==> images[..i][1..] == images[1..][..i - 1];
      [Place(start, |images[0]|)] + rest
  }

  // ---------------------------------------------------------------- the whole package

  predicate MetadataOk(md: Metadata) {
    && 1 <= md.revision <= 4
    && Text(md.version)
    && DevicesOk(md)
    && DownstreamsOk(md)
    && ComponentsOk(md.components)
  }

  function Checksums(revision: int): nat {
    if revision >= 4 then 8 else 4
  }

  function Areas(md: Metadata, places: seq<Place>): Data
    requires MetadataOk(md) && |places| == |md.components|
  {
    DeviceArea(md) + (DownstreamArea(md) + ComponentArea(md, places))
  }

  /** Everything before the checksums. */
  function Fields(md: Metadata, headerSize: nat, places: seq<Place>): Data
    requires MetadataOk(md) && |places| == |md.components|
  {
    HeaderInfo(md, headerSize) + Areas(md, places)
  }

  function Blanks(n: nat): (ps: seq<Place>)
    ensures |ps| == n
  {
    seq(n, _ => BLANK)
  }

  /** The header length, checksums included; what is written into the place fields does not change it. */
  function HeaderLength(md: Metadata): nat
    requires MetadataOk(md)
  {
    |Fields(md, 0, Blanks(|md.components|))| + Checksums(md.revision)
  }

  predicate PlacesFit(ps: seq<Place>) {
    forall i :: 0 <= i < |ps| ==> ps[i].offset <= 0xFFFF_FFFF && ps[i].size <= 0xFFFF_FFFF
  }

  /** Exactly the inputs for which the script leaves a package behind. */
  predicate Accepted(md: Metadata, images: seq<Data>) {
    && images != []
    && |images| == |md.components|
    && MetadataOk(md)
    && HeaderLength(md) <= 0xFFFF
    && PlacesFit(Places(HeaderLength(md), images))
  }

  function PatchedFields(md: Metadata, images: seq<Data>): Data
    requires Accepted(md, images)
  {
    Overwrite(Fields(md, 0, Places(HeaderLength(md), images)), 17, Le(HeaderLength(md), 2))
  }

  /** The file the script leaves behind. */
  function Package(md: Metadata, images: seq<Data>): Data
    requires Accepted(md, images)
  {
    Seal(md.revision, PatchedFields(md, images), images)
  }

  /** Checksums and payload behind the header fields. */
  function Seal(revision: int, fields: Data, images: seq<Data>): Data {
    fields + (Le(Crc32.Checksum(fields, 0), 4) + (PayloadChecksum(revision, images) + Flat(images)))
  }

  function PayloadChecksum(revision: int, images: seq<Data>): Data {
    if revision >= 4 then Le(Crc32.Checksum(Flat(images), 0), 4) else []
  }

  /** What a write of `b` at position `p` leaves in a file; a gap before `p` reads as zeros. */
  function Overwrite(data: Data, p: nat, b: Data): Data {
    (if p <= |data| then data[..p] else data + Zeros(p - |data|)) + b +
    (if p + |b| <= |data| then data[p + |b|..] else [])
  }
}
