/** What the package creator accepts, spelled out: every bound as a number, and every length as a sum over what is
    given. */
module PldmAcceptance {
  import opened Bytes
  import opened PldmMetadata
  import opened PldmLayout
  import R = PldmReader

  // ---------------------------------------------------------------- the conditions

  predicate DescriptorAccepted(d: Descriptor, first: bool) {
    match d
    case Standard(kind, data) =>
      && 0 <= kind && kind in R.DESCRIPTOR_LENGTHS && R.DESCRIPTOR_LENGTHS[kind] == |data|
      && (first ==> kind in {0x0000, 0x0001, 0x0002, 0x0003, 0x0004})
    case Vendor(title, data) => !first && |title| <= 255 && 2 + |title| + |data| <= 65535
  }

  predicate DescriptorsAccepted(ds: seq<Descriptor>) {
    |ds| <= 255 && forall i :: 0 <= i < |ds| ==> DescriptorAccepted(ds[i], i == 0)
  }

  function DescriptorsSize(ds: seq<Descriptor>): nat {
    if ds == [] then 0
    else (match ds[0]
          case Standard(_, data) => 4 + |data|
          case Vendor(title, data) => 6 + |title| + |data|) + DescriptorsSize(ds[1..])
  }

  /** The manifest and its length, from revision 4 on. */
  function ManifestSize(revision: int, manifest: Option<Data>): nat {
    if revision < 4 then 0 else 4 + match manifest case Some(bytes) => |bytes| case None => 0
  }

  function BitmapSize(md: Metadata): nat {
    if |md.components| % 8 == 0 then |md.components| / 8 else |md.components| / 8 + 1
  }

  function DeviceSize(md: Metadata, d: Device): nat {
    11 + BitmapSize(md) + |d.version| + DescriptorsSize(d.descriptors) + ManifestSize(md.revision, d.manifest)
  }

  predicate DeviceAccepted(md: Metadata, d: Device) {
    && (forall i :: 0 <= i < |d.options| ==> d.options[i] == 0)
    && |d.version| <= 255
    && (forall i :: 0 <= i < |d.applicable| ==> 0 <= d.applicable[i] < |md.components|)
    && DescriptorsAccepted(d.descriptors)
    && DeviceSize(md, d) <= 65535
  }

  /** Version and comparison stamp are there under option 0. */
  function DownstreamSize(md: Metadata, d: Downstream): nat {
    11 + BitmapSize(md) + (if 0 in d.options then |d.minVersion| + 4 else 0) + DescriptorsSize(d.descriptors)
    + ManifestSize(md.revision, d.manifest)
  }

  predicate DownstreamAccepted(md: Metadata, d: Downstream) {
    && (forall i :: 0 <= i < |d.options| ==> d.options[i] == 0)
    && (0 in d.options ==> |d.minVersion| <= 255 && 0 <= d.minStamp <= 0xFFFF_FFFF)
    && (forall i :: 0 <= i < |d.applicable| ==> 0 <= d.applicable[i] < |md.components|)
    && DescriptorsAccepted(d.descriptors)
    && DownstreamSize(md, d) <= 65535
  }

  predicate ComponentAccepted(c: Component) {
    && 0 <= c.classification <= 0xFFFF && 0 <= c.identifier <= 0xFFFF
    && (forall i :: 0 <= i < |c.options| ==> c.options[i] in {0, 1, 2})
    && (1 in c.options ==> c.stamp.Some? && 1 <= c.stamp.value <= 0xFFFF_FFFE)
    && (forall i :: 0 <= i < |c.activation| ==> c.activation[i] in {0, 1, 2, 3, 4, 5})
    && |c.version| <= 255
  }

  /** The downstream devices that count: none before revision 2. */
  function Counted(md: Metadata): seq<Downstream> {
    match md.downstream
    case Some(ds) => if md.revision <= 1 then [] else ds
    case None => []
  }

  predicate FieldsAccepted(md: Metadata) {
    && md.revision in {1, 2, 3, 4}
    && |md.version| <= 255
    && |md.devices| <= 255 && (forall i :: 0 <= i < |md.devices| ==> DeviceAccepted(md, md.devices[i]))
    && |Counted(md)| <= 255 && (forall i :: 0 <= i < |Counted(md)| ==> DownstreamAccepted(md, Counted(md)[i]))
    && |md.components| <= 32 && (forall i :: 0 <= i < |md.components| ==> ComponentAccepted(md.components[i]))
  }

  function DevicesSize(md: Metadata, ds: seq<Device>): nat {
    if ds == [] then 0 else DeviceSize(md, ds[0]) + DevicesSize(md, ds[1..])
  }

  function DownstreamsSize(md: Metadata, ds: seq<Downstream>): nat {
    if ds == [] then 0 else DownstreamSize(md, ds[0]) + DownstreamsSize(md, ds[1..])
  }

  function ComponentsSize(revision: int, cs: seq<Component>): nat {
    if cs == [] then 0
    else 22 + |cs[0].version| + (if revision >= 3 then 4 else 0) + ComponentsSize(revision, cs[1..])
  }

  /** The whole package header: fixed fields, areas with their counts, and one or two checksums. */
  function HeaderSize(md: Metadata): nat {
    |md.identifier| + 20 + |md.version|
    + 1 + DevicesSize(md, md.devices)
    + (if md.revision >= 2 then 1 + DownstreamsSize(md, Counted(md)) else 0)
    + 2 + ComponentsSize(md.revision, md.components)
    + if md.revision >= 4 then 8 else 4
  }

  function ImagesSize(images: seq<Data>): nat {
    if images == [] then 0 else |images[0]| + ImagesSize(images[1..])
  }

  /** One image for each component and at least one; a header length of two bytes, offsets and sizes of four. */
  predicate InputAccepted(md: Metadata, images: seq<Data>) {
    && |images| == |md.components| >= 1
    && FieldsAccepted(md)
    && HeaderSize(md) <= 65535
    && forall i :: 0 <= i < |images| ==>
         |images[i]| <= 0xFFFF_FFFF && HeaderSize(md) + ImagesSize(images[..i]) <= 0xFFFF_FFFF
  }

  // ---------------------------------------------------------------- one record

  lemma SameDescriptor(d: Descriptor, first: bool)
    ensures DescriptorOk(d, first) <==> DescriptorAccepted(d, first)
  {
  }

  lemma SameDescriptors(ds: seq<Descriptor>)
    ensures DescriptorsOk(ds) && |ds| <= 255 <==> DescriptorsAccepted(ds)
  {
    hide DescriptorOk, DescriptorAccepted;
    forall i | 0 <= i < |ds|
      ensures DescriptorOk(ds[i], i == 0) <==> DescriptorAccepted(ds[i], i == 0)
    {
      SameDescriptor(ds[i], i == 0);
    }
  }

  lemma FitToFollow(ds: seq<Descriptor>)
    requires DescriptorsOk(ds)
    ensures Printable(ds)
  {
  }

  lemma {:induction false} DescriptorsLength(ds: seq<Descriptor>)
    requires Printable(ds)
    ensures |PrintDescriptors(ds)| == DescriptorsSize(ds)
  {
    hide Flat, DescriptorOk;
    if ds == [] {
      FlatNone();
    } else {
      FlatCons(DescriptorRecords(ds));
      assert DescriptorRecords(ds)[1..] == DescriptorRecords(ds[1..]);
      DescriptorsLength(ds[1..]);
    }
  }

  lemma BitmapLength(md: Metadata)
    ensures BitmapBits(md) / 8 == BitmapSize(md)
  {
  }

  lemma DeviceLength(md: Metadata, d: Device)
    requires |d.version| <= 255 && DescriptorsOk(d.descriptors) && |d.descriptors| <= 255
    ensures Printable(d.descriptors)
    ensures 2 + |DeviceBody(md.revision, BitmapBits(md), d)| == DeviceSize(md, d)
  {
    hide PrintDescriptors, Bits, BitsToNat, PackBits, DescriptorOk, DescriptorsSize, BitmapSize, BitmapBits;
    FitToFollow(d.descriptors);
    DescriptorsLength(d.descriptors);
    BitmapLength(md);
  }

  lemma DownstreamLength(md: Metadata, d: Downstream)
    requires 0 in d.options ==> |d.minVersion| <= 255 && 0 <= d.minStamp
    requires DescriptorsOk(d.descriptors) && |d.descriptors| <= 255
    ensures Printable(d.descriptors)
    ensures 2 + |DownstreamBody(md.revision, BitmapBits(md), d)| == DownstreamSize(md, d)
  {
    hide PrintDescriptors, Bits, BitsToNat, PackBits, DescriptorOk, DescriptorsSize, BitmapSize, BitmapBits;
    FitToFollow(d.descriptors);
    DescriptorsLength(d.descriptors);
    BitmapLength(md);
  }

  lemma SameDevice(md: Metadata, d: Device)
    ensures DeviceOk(md, d) <==> DeviceAccepted(md, d)
  {
    hide DescriptorsOk, DescriptorsAccepted, DeviceBody, DeviceSize;
    SameDescriptors(d.descriptors);
    if |d.version| <= 255 && DescriptorsOk(d.descriptors) && |d.descriptors| <= 255 {
      DeviceLength(md, d);
    }
  }

  lemma SameDownstream(md: Metadata, d: Downstream)
    ensures DownstreamOk(md, d) <==> DownstreamAccepted(md, d)
  {
    hide DescriptorsOk, DescriptorsAccepted, DownstreamBody, DownstreamSize;
    SameDescriptors(d.descriptors);
    if && (0 in d.options ==> |d.minVersion| <= 255 && 0 <= d.minStamp)
       && DescriptorsOk(d.descriptors) && |d.descriptors| <= 255 {
      DownstreamLength(md, d);
    }
  }

  lemma SameComponent(c: Component)
    ensures ComponentOk(c) <==> ComponentAccepted(c)
  {
  }

  // ---------------------------------------------------------------- the whole input

  lemma SameDownstreamList(md: Metadata)
    requires md.revision >= 1
    ensures DownstreamList(md) == Counted(md)
  {
  }

  lemma SameFields(md: Metadata)
    ensures MetadataOk(md) <==> FieldsAccepted(md)
  {
    hide DeviceOk, DeviceAccepted, DownstreamOk, DownstreamAccepted, ComponentOk, ComponentAccepted, DownstreamList,
      Counted;
    if 1 <= md.revision <= 4 {
      SameDownstreamList(md);
      forall i | 0 <= i < |md.devices|
        ensures DeviceOk(md, md.devices[i]) <==> DeviceAccepted(md, md.devices[i])
      {
        SameDevice(md, md.devices[i]);
      }
      forall i | 0 <= i < |Counted(md)|
        ensures DownstreamOk(md, Counted(md)[i]) <==> DownstreamAccepted(md, Counted(md)[i])
      {
        SameDownstream(md, Counted(md)[i]);
      }
      forall i | 0 <= i < |md.components|
        ensures ComponentOk(md.components[i]) <==> ComponentAccepted(md.components[i])
      {
        SameComponent(md.components[i]);
      }
    }
  }

  lemma FirstRecord(bodies: seq<Data>)
    requires bodies != [] && forall i :: 0 <= i < |bodies| ==> RecordFits(bodies[i])
    ensures |Flat(Records(bodies))| == 2 + |bodies[0]| + |Flat(Records(bodies[1..]))|
  {
    hide Flat;
    FlatCons(Records(bodies));
    assert Records(bodies)[1..] == Records(bodies[1..]);
  }

  lemma {:induction false} DevicesLength(md: Metadata, ds: seq<Device>)
    requires forall i :: 0 <= i < |ds| ==> DeviceOk(md, ds[i])
    ensures |Flat(Records(DeviceBodies(md, ds)))| == DevicesSize(md, ds)
    decreases |ds|
  {
    hide Flat, DeviceBody, DeviceSize;
    if ds == [] {
      FlatNone();
      assert Records(DeviceBodies(md, ds)) == [];
    } else {
      FirstRecord(DeviceBodies(md, ds));
      assert DeviceBodies(md, ds)[1..] == DeviceBodies(md, ds[1..]);
      DeviceLength(md, ds[0]);
      DevicesLength(md, ds[1..]);
    }
  }

  lemma {:induction false} DownstreamsLength(md: Metadata, ds: seq<Downstream>)
    requires forall i :: 0 <= i < |ds| ==> DownstreamOk(md, ds[i])
    ensures |Flat(Records(DownstreamBodies(md, ds)))| == DownstreamsSize(md, ds)
    decreases |ds|
  {
    hide Flat, DownstreamBody, DownstreamSize;
    if ds == [] {
      FlatNone();
      assert Records(DownstreamBodies(md, ds)) == [];
    } else {
      FirstRecord(DownstreamBodies(md, ds));
      assert DownstreamBodies(md, ds)[1..] == DownstreamBodies(md, ds[1..]);
      DownstreamLength(md, ds[0]);
      DownstreamsLength(md, ds[1..]);
    }
  }

  lemma ComponentLength(revision: int, c: Component, p: Place)
    requires ComponentOk(c)
    ensures |PrintComponent(revision, c, p)| == 22 + |c.version| + (if revision >= 3 then 4 else 0)
  {
    hide ComponentFields, PlaceFields, ComponentOk;
  }

  lemma {:induction false} ComponentsLength(revision: int, cs: seq<Component>, ps: seq<Place>)
    requires |ps| == |cs| && forall i :: 0 <= i < |cs| ==> ComponentOk(cs[i])
    ensures |Flat(ComponentRecords(revision, cs, ps))| == ComponentsSize(revision, cs)
    decreases |cs|
  {
    hide Flat, PrintComponent, ComponentOk;
    if cs == [] {
      FlatNone();
      assert ComponentRecords(revision, cs, ps) == [];
    } else {
      FlatCons(ComponentRecords(revision, cs, ps));
      assert ComponentRecords(revision, cs, ps)[1..] == ComponentRecords(revision, cs[1..], ps[1..]);
      ComponentLength(revision, cs[0], ps[0]);
      ComponentsLength(revision, cs[1..], ps[1..]);
    }
  }

  lemma InfoLength(md: Metadata)
    requires 0 <= md.revision < 256 && Text(md.version)
    ensures |HeaderInfo(md, 0)| == |md.identifier| + 20 + |md.version|
  {
    hide Le;
  }

  /** The header length that the script computes is the sum of the sizes. */
  lemma SameHeaderSize(md: Metadata)
    requires MetadataOk(md)
    ensures HeaderLength(md) == HeaderSize(md)
  {
    hide HeaderInfo, DevicesSize, DownstreamsSize, ComponentsSize, DeviceOk, DownstreamOk, ComponentOk, Flat, Records,
      DeviceBodies, DownstreamBodies, ComponentRecords, DownstreamList, Counted;
    InfoLength(md);
    SameDownstreamList(md);
    DevicesLength(md, md.devices);
    DownstreamsLength(md, Counted(md));
    ComponentsLength(md.revision, md.components, Blanks(|md.components|));
  }

  lemma {:induction false} ImagesLength(images: seq<Data>)
    ensures |Flat(images)| == ImagesSize(images)
  {
    if images != [] {
      ImagesLength(images[1..]);
    }
  }

  lemma SamePlaces(start: nat, images: seq<Data>)
    ensures PlacesFit(Places(start, images)) <==>
      forall i :: 0 <= i < |images| ==>
        |images[i]| <= 0xFFFF_FFFF && start + ImagesSize(images[..i]) <= 0xFFFF_FFFF
  {
    hide Flat, ImagesSize;
    var ps := Places(start, images);
    hide Places;
    forall i | 0 <= i < |images|
      ensures ps[i] == Place(start + ImagesSize(images[..i]), |images[i]|)
    {
      ImagesLength(images[..i]);
    }
  }

  /** The script leaves a package behind exactly for the inputs within these bounds. */
  lemma AcceptedExactlyWhen(md: Metadata, images: seq<Data>)
    ensures Accepted(md, images) <==> InputAccepted(md, images)
  {
    hide MetadataOk, FieldsAccepted, HeaderLength, HeaderSize, Places, PlacesFit, ImagesSize;
    SameFields(md);
    if MetadataOk(md) {
      SameHeaderSize(md);
      SamePlaces(HeaderSize(md), images);
    }
  }
}
