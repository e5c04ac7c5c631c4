/** Reading a package gives back what was written into it. */
module PldmRoundTrip {
  import opened Bytes
  import opened PldmMetadata
  import opened PldmLayout
  import R = PldmReader

  // ---------------------------------------------------------------- what the reader should see

  function SeenDate(t: Timestamp): R.Date {
    R.Date(0, t.microsecond, t.second, t.minute, t.hour, t.day, t.month, t.year, 0)
  }

  function SeenDescriptor(d: Descriptor): R.Descriptor
    requires DescriptorOk(d, false)
  {
    match d
    case Standard(kind, data) => R.Standard(kind, data)
    case Vendor(title, data) => R.Vendor(1, title, data)
  }

  function SeenDescriptors(ds: seq<Descriptor>): seq<R.Descriptor>
    requires Printable(ds)
  {
    seq(|ds|, i requires 0 <= i < |ds| => SeenDescriptor(ds[i]))
  }

  /** From revision 4 on the manifest read is the one given; before that there is none. */
  function SeenManifest(revision: int, manifest: Option<Data>): Data {
    match manifest
    case Some(bytes) => if revision < 4 then [] else bytes
    case None => []
  }

  function SeenDeviceAt(revision: int, bitmapBits: nat, d: Device): R.Device
    requires Printable(d.descriptors)
  {
    R.Device(Bits(d.options, 32), 1, d.version, Bits(d.applicable, bitmapBits), SeenDescriptors(d.descriptors), [],
             SeenManifest(revision, d.manifest))
  }

  /** One bit for each component, filled up to whole bytes. */
  function WholeBytes(n: nat): nat {
    if n % 8 == 0 then n else n + (8 - n % 8)
  }

  function SeenDevice(md: Metadata, d: Device): R.Device
    requires DeviceOk(md, d)
  {
    SeenDeviceAt(md.revision, WholeBytes(|md.components|), d)
  }

  function SeenStamp(d: Downstream): Option<nat>
    requires 0 in d.options ==> 0 <= d.minStamp
  {
    if 0 in d.options then Some(d.minStamp) else None
  }

  function SeenDownstreamAt(revision: int, bitmapBits: nat, d: Downstream): R.Downstream
    requires Printable(d.descriptors) && (0 in d.options ==> 0 <= d.minStamp)
  {
    var versioned := 0 in d.options;
    R.Downstream(Bits(d.options, 32), if versioned then 1 else 0, if versioned then d.minVersion else [], SeenStamp(d),
                 Bits(d.applicable, bitmapBits), SeenDescriptors(d.descriptors), [],
                 SeenManifest(revision, d.manifest))
  }

  function SeenDownstream(md: Metadata, d: Downstream): R.Downstream
    requires DownstreamOk(md, d)
  {
    SeenDownstreamAt(md.revision, WholeBytes(|md.components|), d)
  }

  function SeenComponent(c: Component, image: Data): R.Component
    requires ComponentOk(c)
  {
    R.Component(c.classification, c.identifier, if 1 in c.options then c.stamp.value else 0xFFFF_FFFF,
                Bits(c.options, 16), Bits(c.activation, 16), 1, c.version, [], image)
  }

  function SeenDevices(md: Metadata, ds: seq<Device>): seq<R.Device>
    requires forall i :: 0 <= i < |ds| ==> DeviceOk(md, ds[i])
  {
    seq(|ds|, i requires 0 <= i < |ds| => SeenDevice(md, ds[i]))
  }

  function SeenDownstreams(md: Metadata, ds: seq<Downstream>): seq<R.Downstream>
    requires forall i :: 0 <= i < |ds| ==> DownstreamOk(md, ds[i])
  {
    seq(|ds|, i requires 0 <= i < |ds| => SeenDownstream(md, ds[i]))
  }

  function SeenComponents(cs: seq<Component>, images: seq<Data>): seq<R.Component>
    requires |cs| == |images| && forall i :: 0 <= i < |cs| ==> ComponentOk(cs[i])
  {
    seq(|cs|, i requires 0 <= i < |cs| => SeenComponent(cs[i], images[i]))
  }

  /** Downstream devices exist from revision 2 on. */
  function GivenDownstreams(md: Metadata): seq<Downstream> {
    match md.downstream
    case Some(ds) => if md.revision == 1 then [] else ds
    case None => []
  }

  function Seen(md: Metadata, images: seq<Data>): R.Package
    requires MetadataOk(md) && |images| == |md.components|
  {
    R.Package(md.identifier, md.revision, HeaderLength(md), SeenDate(md.released), 1, md.version,
              SeenDevices(md, md.devices), SeenDownstreams(md, GivenDownstreams(md)),
              SeenComponents(md.components, images))
  }

  // ---------------------------------------------------------------- one field, one record

  lemma ReadDate(t: Timestamp, rest: Data)
    ensures R.ReadDate(Date(t) + rest) == Some((SeenDate(t), rest))
  {
    hide Take, TakeLe, Le, FromLe, Bits, BitsToNat, NatToBits, PackBits, UnpackBits;
    Widths();
    assert Pow256(3) == 256 * Pow256(2);
    var b9 := [0] + rest;
    var b8 := Le(t.year, 2) + b9;
    var b7 := [t.month] + b8;
    var b6 := [t.day] + b7;
    var b5 := [t.hour] + b6;
    var b4 := [t.minute] + b5;
    var b3 := [t.second] + b4;
    var b2 := Le(t.microsecond, 3) + b3;
    assert Date(t) + rest == Le(0, 2) + b2;
    TakeLePrefix(0, 2, b2);
    TakeLePrefix(t.microsecond, 3, b3);
    TakeBytePrefix(t.second, b4);
    TakeBytePrefix(t.minute, b5);
    TakeBytePrefix(t.hour, b6);
    TakeBytePrefix(t.day, b7);
    TakeBytePrefix(t.month, b8);
    TakeLePrefix(t.year, 2, b9);
    TakeBytePrefix(0, rest);
  }

  lemma ReadDescriptor(d: Descriptor, rest: Data)
    requires DescriptorOk(d, false)
    ensures R.ReadDescriptor(PrintDescriptor(d) + rest) == Some((SeenDescriptor(d), rest))
  {
    hide Take, TakeLe, Le, FromLe, Bits, BitsToNat, NatToBits, PackBits, UnpackBits;
    Widths();
    var kind := if d.Standard? then d.kind else VENDOR_DEFINED;
    var value := if d.Standard? then d.data else [ASCII_STRING] + ([|d.title|] + (d.title + d.data));
    var b2 := value + rest;
    var b1 := Le(|value|, 2) + b2;
    assert PrintDescriptor(d) + rest == Le(kind, 2) + b1;
    TakeLePrefix(kind, 2, b1);
    TakeLePrefix(|value|, 2, b2);
    TakePrefix(value, rest);
    if d.Vendor? {
      TakeBytePrefix(ASCII_STRING, [|d.title|] + (d.title + d.data));
      TakeBytePrefix(|d.title|, d.title + d.data);
      TakePrefix(d.title, d.data);
    }
  }

  lemma DescriptorsCons(ds: seq<Descriptor>)
    requires ds != [] && Printable(ds)
    ensures PrintDescriptors(ds) == PrintDescriptor(ds[0]) + PrintDescriptors(ds[1..])
    ensures SeenDescriptors(ds) == [SeenDescriptor(ds[0])] + SeenDescriptors(ds[1..])
  {
    hide Flat, PrintDescriptor, SeenDescriptor, DescriptorOk;
    assert DescriptorRecords(ds)[1..] == DescriptorRecords(ds[1..]);
    FlatCons(DescriptorRecords(ds));
  }

  lemma {:induction false} ReadDescriptors(ds: seq<Descriptor>, rest: Data)
    requires Printable(ds)
    ensures R.ReadDescriptors(|ds|, PrintDescriptors(ds) + rest) == Some((SeenDescriptors(ds), rest))
  {
    hide Take, TakeLe, R.ReadDescriptor, PrintDescriptor, SeenDescriptor;
    if ds == [] {
      assert PrintDescriptors(ds) + rest == rest && SeenDescriptors(ds) == [];
    } else {
      var more := PrintDescriptors(ds[1..]) + rest;
      DescriptorsCons(ds);
      assert PrintDescriptors(ds) + rest == PrintDescriptor(ds[0]) + more;
      ReadDescriptor(ds[0], more);
      ReadDescriptors(ds[1..], rest);
    }
  }

  lemma ReadRecord(body: Data, rest: Data)
    requires RecordFits(body)
    ensures R.TakeRecord(Record(body) + rest) == Some((body, rest))
  {
    hide Take, TakeLe, Le, FromLe, Bits, BitsToNat, NatToBits, PackBits, UnpackBits;
    Widths();
    assert Record(body) + rest == Le(2 + |body|, 2) + (body + rest);
    TakeLePrefix(2 + |body|, 2, body + rest);
    TakePrefix(Record(body), rest);
    TakePrefix(Le(2 + |body|, 2), body);
  }

  lemma RecordsCons(bodies: seq<Data>, rest: Data)
    requires bodies != [] && RecordFits(bodies[0])
    ensures R.TakeRecord(Flat(Records(bodies)) + rest) == Some((bodies[0], Flat(Records(bodies[1..])) + rest))
  {
    hide Flat, Record;
    var more := Flat(Records(bodies[1..])) + rest;
    FlatCons(Records(bodies));
    assert Records(bodies)[1..] == Records(bodies[1..]);
    assert Flat(Records(bodies)) + rest == Record(bodies[0]) + more;
    ReadRecord(bodies[0], more);
  }

  lemma ReadFlags(options: seq<int>, width: nat, rest: Data)
    requires width == 16 || width == 32
    ensures TakeLe(Le(BitsToNat(Bits(options, width)), width / 8) + rest, width / 8)
         == Some((BitsToNat(Bits(options, width)), rest))
    ensures NatToBits(BitsToNat(Bits(options, width)), width) == Bits(options, width)
  {
    Widths();
    BitWidths();
    BitsInverse(Bits(options, width));
    TakeLePrefix(BitsToNat(Bits(options, width)), width / 8, rest);
  }

  lemma ReadManifestLength(revision: nat, manifest: Data, rest: Data)
    requires |manifest| <= 0xFFFF
    ensures R.ReadManifestLength(revision, ManifestLength(revision, manifest) + rest)
         == Some((if revision >= 4 then |manifest| else 0, rest))
  {
    Widths();
    if revision >= 4 {
      TakeLePrefix(|manifest|, 4, rest);
    } else {
      assert ManifestLength(revision, manifest) + rest == rest;
    }
  }

  lemma ReadBitmap(applicable: seq<int>, bitmapBits: nat, rest: Data)
    requires bitmapBits % 8 == 0
    ensures Take(PackBits(Bits(applicable, bitmapBits)) + rest, bitmapBits / 8)
         == Some((PackBits(Bits(applicable, bitmapBits)), rest))
    ensures UnpackBits(PackBits(Bits(applicable, bitmapBits))) == Bits(applicable, bitmapBits)
  {
    TakePrefix(PackBits(Bits(applicable, bitmapBits)), rest);
    PackInverse(Bits(applicable, bitmapBits));
  }

  lemma ReadCounts(revision: nat, descriptors: byte, options: seq<int>, textType: byte, textLength: byte,
                   manifest: Data, rest: Data)
    requires |manifest| <= 0xFFFF
    ensures R.ReadCounts(revision, Counts(revision, descriptors, options, textType, textLength, manifest) + rest)
         == Some((R.Counts(descriptors, Bits(options, 32), textType, textLength, 0,
                           if revision >= 4 then |manifest| else 0), rest))
  {
    hide Take, TakeLe, Le, FromLe, Bits, BitsToNat, NatToBits, PackBits, UnpackBits;
    Widths();
    var b6 := ManifestLength(revision, manifest) + rest;
    var b5 := Le(0, 2) + b6;
    var b4 := [textLength] + b5;
    var b3 := [textType] + b4;
    var b2 := Le(BitsToNat(Bits(options, 32)), 4) + b3;
    assert Counts(revision, descriptors, options, textType, textLength, manifest) + rest == [descriptors] + b2;
    TakeBytePrefix(descriptors, b2);
    ReadFlags(options, 32, b3);
    TakeBytePrefix(textType, b4);
    TakeBytePrefix(textLength, b5);
    TakeLePrefix(0, 2, b6);
    ReadManifestLength(revision, manifest, rest);
  }

  lemma ReadDeviceBody(revision: nat, bitmapBits: nat, d: Device)
    requires bitmapBits % 8 == 0 && Text(d.version) && Printable(d.descriptors) && |d.descriptors| <= 255
    requires |Manifest(revision, d.manifest)| <= 0xFFFF
    ensures R.ReadDeviceBody(revision, bitmapBits, DeviceBody(revision, bitmapBits, d))
         == Some(SeenDeviceAt(revision, bitmapBits, d))
  {
    hide Take, TakeLe, Le, FromLe, Bits, BitsToNat, NatToBits, PackBits, UnpackBits;
    var manifest := Manifest(revision, d.manifest);
    var b3 := PrintDescriptors(d.descriptors) + manifest;
    var b2 := d.version + b3;
    var bitmap := PackBits(Bits(d.applicable, bitmapBits));
    var b1 := bitmap + b2;
    ReadCounts(revision, |d.descriptors|, d.options, ASCII_STRING, |d.version|, manifest, b1);
    ReadBitmap(d.applicable, bitmapBits, b2);
    TakePrefix(d.version, b3);
    ReadDescriptors(d.descriptors, manifest);
    TakeEnds(manifest);
  }

  lemma {:induction false} ReadDevices(revision: nat, bitmapBits: nat, bodies: seq<Data>, seen: seq<R.Device>,
                                       rest: Data)
    requires |seen| == |bodies|
    requires forall i :: 0 <= i < |bodies| ==> RecordFits(bodies[i])
    requires forall i :: 0 <= i < |bodies| ==> R.ReadDeviceBody(revision, bitmapBits, bodies[i]) == Some(seen[i])
    ensures R.ReadDevices(|bodies|, revision, bitmapBits, Flat(Records(bodies)) + rest) == Some((seen, rest))
  {
    hide R.ReadDeviceBody, R.TakeRecord, RecordFits;
    if bodies == [] {
      assert Flat(Records(bodies)) + rest == rest;
    } else {
      hide Flat, Records;
      RecordsCons(bodies, rest);
      ReadDevices(revision, bitmapBits, bodies[1..], seen[1..], rest);
      assert seen == [seen[0]] + seen[1..];
    }
  }

  lemma ReadMinStamp(d: Downstream, rest: Data)
    requires 0 in d.options ==> 0 <= d.minStamp <= 0xFFFF_FFFF
    ensures R.ReadMinStamp(Bits(d.options, 32), MinStamp(d) + rest) == Some((SeenStamp(d), rest))
  {
    hide Take, TakeLe, Le, FromLe, Bits, BitsToNat, NatToBits, PackBits, UnpackBits;
    Widths();
    if 0 in d.options {
      TakeLePrefix(d.minStamp, 4, rest);
    } else {
      assert MinStamp(d) + rest == rest;
    }
  }

  lemma ReadDownstreamBody(revision: nat, bitmapBits: nat, d: Downstream)
    requires 0 in d.options ==> Text(d.minVersion) && 0 <= d.minStamp <= 0xFFFF_FFFF
    requires bitmapBits % 8 == 0 && Printable(d.descriptors) && |d.descriptors| <= 255
    requires |Manifest(revision, d.manifest)| <= 0xFFFF
    ensures R.ReadDownstreamBody(revision, bitmapBits, DownstreamBody(revision, bitmapBits, d))
         == Some(SeenDownstreamAt(revision, bitmapBits, d))
  {
    hide Take, TakeLe, Le, FromLe, Bits, BitsToNat, NatToBits, PackBits, UnpackBits;
    var manifest := Manifest(revision, d.manifest);
    var b4 := PrintDescriptors(d.descriptors) + manifest;
    var b3 := MinStamp(d) + b4;
    var b2 := MinVersion(d) + b3;
    var bitmap := PackBits(Bits(d.applicable, bitmapBits));
    var b1 := bitmap + b2;
    ReadCounts(revision, |d.descriptors|, d.options, MinVersionType(d), |MinVersion(d)|, manifest, b1);
    ReadBitmap(d.applicable, bitmapBits, b2);
    TakePrefix(MinVersion(d), b3);
    ReadMinStamp(d, b4);
    ReadDescriptors(d.descriptors, manifest);
    TakeEnds(manifest);
  }

  lemma {:induction false} ReadDownstreams(revision: nat, bitmapBits: nat, bodies: seq<Data>, seen: seq<R.Downstream>,
                                           rest: Data)
    requires |seen| == |bodies|
    requires forall i :: 0 <= i < |bodies| ==> RecordFits(bodies[i])
    requires forall i :: 0 <= i < |bodies| ==> R.ReadDownstreamBody(revision, bitmapBits, bodies[i]) == Some(seen[i])
    ensures R.ReadDownstreams(|bodies|, revision, bitmapBits, Flat(Records(bodies)) + rest) == Some((seen, rest))
  {
    hide R.ReadDownstreamBody, R.TakeRecord, RecordFits;
    if bodies == [] {
      assert Flat(Records(bodies)) + rest == rest;
    } else {
      hide Flat, Records;
      RecordsCons(bodies, rest);
      ReadDownstreams(revision, bitmapBits, bodies[1..], seen[1..], rest);
      assert seen == [seen[0]] + seen[1..];
    }
  }

  // ---------------------------------------------------------------- the areas

  lemma BitmapIsWholeBytes(md: Metadata)
    ensures BitmapBits(md) == WholeBytes(|md.components|)
  {
  }

  lemma DeviceBodySeen(md: Metadata, d: Device)
    requires md.revision >= 0 && DeviceOk(md, d)
    ensures R.ReadDeviceBody(md.revision, BitmapBits(md), DeviceBodyOf(md, d)) == Some(SeenDevice(md, d))
  {
    BitmapIsWholeBytes(md);
    hide BitmapBits, WholeBytes, R.ReadDeviceBody, SeenDeviceAt;
    ReadDeviceBody(md.revision, BitmapBits(md), d);
  }

  lemma ReadDeviceArea(md: Metadata, info: R.Info, rest: Data)
    requires md.revision >= 0 && DevicesOk(md)
    requires info.revision == md.revision && info.bitmapBits == BitmapBits(md)
    ensures R.ReadDeviceArea(info, DeviceArea(md) + rest) == Some((SeenDevices(md, md.devices), rest))
  {
    var bodies := DeviceBodies(md, md.devices);
    forall i | 0 <= i < |bodies|
      ensures R.ReadDeviceBody(md.revision, BitmapBits(md), bodies[i]) == Some(SeenDevices(md, md.devices)[i])
    {
      DeviceBodySeen(md, md.devices[i]);
    }
    hide DeviceBodies, Records, Flat, R.ReadDeviceBody, SeenDevices, BitmapBits;
    var more := Flat(Records(bodies)) + rest;
    Regroup([|md.devices|], Flat(Records(bodies)), rest);
    TakeBytePrefix(|md.devices|, more);
    ReadDevices(md.revision, BitmapBits(md), bodies, SeenDevices(md, md.devices), rest);
  }

  lemma DownstreamBodySeen(md: Metadata, d: Downstream)
    requires md.revision >= 0 && DownstreamOk(md, d)
    ensures R.ReadDownstreamBody(md.revision, BitmapBits(md), DownstreamBodyOf(md, d)) == Some(SeenDownstream(md, d))
  {
    BitmapIsWholeBytes(md);
    hide BitmapBits, WholeBytes, R.ReadDownstreamBody, SeenDownstreamAt;
    ReadDownstreamBody(md.revision, BitmapBits(md), d);
  }

  lemma ReadDownstreamArea(md: Metadata, info: R.Info, rest: Data)
    requires md.revision >= 0 && DownstreamsOk(md)
    requires info.revision == md.revision && info.bitmapBits == BitmapBits(md)
    ensures R.ReadDownstreamArea(info, DownstreamArea(md) + rest)
         == Some((SeenDownstreams(md, DownstreamList(md)), rest))
  {
    var ds := DownstreamList(md);
    if md.revision < 2 {
      assert DownstreamArea(md) + rest == rest && SeenDownstreams(md, ds) == [];
    } else {
      var bodies := DownstreamBodies(md, ds);
      forall i | 0 <= i < |bodies|
        ensures R.ReadDownstreamBody(md.revision, BitmapBits(md), bodies[i]) == Some(SeenDownstreams(md, ds)[i])
      {
        DownstreamBodySeen(md, ds[i]);
      }
      hide DownstreamBodies, Records, Flat, R.ReadDownstreamBody, SeenDownstreams, BitmapBits;
      var more := Flat(Records(bodies)) + rest;
      Regroup([|ds|], Flat(Records(bodies)), rest);
      TakeBytePrefix(|ds|, more);
      ReadDownstreams(md.revision, BitmapBits(md), bodies, SeenDownstreams(md, ds), rest);
    }
  }

  lemma ReadOpaque(revision: nat, rest: Data)
    ensures R.ReadOpaque(revision, OpaqueData(revision) + rest) == Some(([], rest))
  {
    Widths();
    if revision >= 3 {
      TakeLePrefix(0, 4, rest);
      TakeEnds(rest);
    } else {
      assert OpaqueData(revision) + rest == rest;
    }
  }

  lemma ReadComponentInfo(c: Component, rest: Data)
    requires ComponentOk(c)
    ensures R.ReadComponentInfo(ComponentFields(c) + rest)
         == Some((R.ComponentInfo(c.classification, c.identifier, Stamp(c), Bits(c.options, 16),
                                  Bits(c.activation, 16)), rest))
  {
    hide Take, TakeLe, Le, FromLe, Bits, BitsToNat, NatToBits, PackBits, UnpackBits;
    Widths();
    var b4 := Le(BitsToNat(Bits(c.activation, 16)), 2) + rest;
    var b3 := Le(BitsToNat(Bits(c.options, 16)), 2) + b4;
    var b2 := Le(Stamp(c), 4) + b3;
    var b1 := Le(c.identifier, 2) + b2;
    assert ComponentFields(c) + rest == Le(c.classification, 2) + b1;
    TakeLePrefix(c.classification, 2, b1);
    TakeLePrefix(c.identifier, 2, b2);
    TakeLePrefix(Stamp(c), 4, b3);
    ReadFlags(c.options, 16, b4);
    ReadFlags(c.activation, 16, rest);
  }

  lemma ReadPlaced(revision: nat, p: Place, version: Data, rest: Data)
    requires Text(version) && p.offset <= 0xFFFF_FFFF && p.size <= 0xFFFF_FFFF
    ensures R.ReadPlaced(revision, PlaceFields(p) + (VersionFields(revision, version) + rest))
         == Some((R.Placed(p.offset, p.size, ASCII_STRING, version, []), rest))
  {
    hide Take, TakeLe, Le, FromLe, Bits, BitsToNat, NatToBits, PackBits, UnpackBits;
    Widths();
    var b5 := OpaqueData(revision) + rest;
    var b4 := version + b5;
    var b3 := [|version|] + b4;
    var b2 := [ASCII_STRING] + b3;
    var b1 := Le(p.size, 4) + b2;
    assert PlaceFields(p) + (VersionFields(revision, version) + rest) == Le(p.offset, 4) + b1;
    TakeLePrefix(p.offset, 4, b1);
    TakeLePrefix(p.size, 4, b2);
    TakeBytePrefix(ASCII_STRING, b3);
    TakeBytePrefix(|version|, b4);
    TakePrefix(version, b5);
    ReadOpaque(revision, rest);
  }

  lemma ReadComponent(package: Data, revision: nat, c: Component, p: Place, image: Data, rest: Data)
    requires ComponentOk(c) && p.offset <= 0xFFFF_FFFF && p.size <= 0xFFFF_FFFF
    requires R.Slice(package, p.offset, p.size) == Some(image)
    ensures R.ReadComponent(package, revision, PrintComponent(revision, c, p) + rest)
         == Some((SeenComponent(c, image), rest))
  {
    var b1 := PlaceFields(p) + (VersionFields(revision, c.version) + rest);
    assert PrintComponent(revision, c, p) + rest == ComponentFields(c) + b1;
    ReadComponentInfo(c, b1);
    ReadPlaced(revision, p, c.version, rest);
  }

  lemma ReadFirstComponent(package: Data, revision: nat, cs: seq<Component>, places: seq<Place>, image: Data,
                           rest: Data)
    requires |places| == |cs| > 0 && forall i :: 0 <= i < |cs| ==> ComponentOk(cs[i])
    requires places[0].offset <= 0xFFFF_FFFF && places[0].size <= 0xFFFF_FFFF
    requires R.Slice(package, places[0].offset, places[0].size) == Some(image)
    ensures R.ReadComponent(package, revision, Flat(ComponentRecords(revision, cs, places)) + rest)
         == Some((SeenComponent(cs[0], image), Flat(ComponentRecords(revision, cs[1..], places[1..])) + rest))
  {
    hide Flat, PrintComponent, ComponentOk;
    var more := Flat(ComponentRecords(revision, cs[1..], places[1..])) + rest;
    FlatCons(ComponentRecords(revision, cs, places));
    assert ComponentRecords(revision, cs, places)[1..] == ComponentRecords(revision, cs[1..], places[1..]);
    assert Flat(ComponentRecords(revision, cs, places)) + rest == PrintComponent(revision, cs[0], places[0]) + more;
    ReadComponent(package, revision, cs[0], places[0], image, more);
  }

  lemma SeenCons(cs: seq<Component>, images: seq<Data>)
    requires |images| == |cs| > 0 && forall i :: 0 <= i < |cs| ==> ComponentOk(cs[i])
    ensures SeenComponents(cs, images) == [SeenComponent(cs[0], images[0])] + SeenComponents(cs[1..], images[1..])
  {
  }

  lemma {:induction false} ReadComponents(package: Data, revision: nat, cs: seq<Component>, places: seq<Place>,
                                          images: seq<Data>, rest: Data)
    requires |places| == |cs| == |images| && PlacesFit(places)
    requires forall i :: 0 <= i < |cs| ==> ComponentOk(cs[i])
    requires forall i :: 0 <= i < |cs| ==> R.Slice(package, places[i].offset, places[i].size) == Some(images[i])
    ensures R.ReadComponents(|cs|, package, revision, Flat(ComponentRecords(revision, cs, places)) + rest)
         == Some((SeenComponents(cs, images), rest))
    decreases |cs|
  {
    if cs == [] {
      assert Flat(ComponentRecords(revision, cs, places)) + rest == rest && SeenComponents(cs, images) == [];
    } else {
      ReadFirstComponent(package, revision, cs, places, images[0], rest);
      ReadComponents(package, revision, cs[1..], places[1..], images[1..], rest);
      SeenCons(cs, images);
    }
  }

  lemma ReadComponentArea(package: Data, info: R.Info, md: Metadata, places: seq<Place>, images: seq<Data>, rest: Data)
    requires md.revision >= 0 && ComponentsOk(md.components) && info.revision == md.revision
    requires |places| == |md.components| == |images| && PlacesFit(places)
    requires forall i :: 0 <= i < |places| ==> R.Slice(package, places[i].offset, places[i].size) == Some(images[i])
    ensures R.ReadComponentArea(package, info, ComponentArea(md, places) + rest)
         == Some((SeenComponents(md.components, images), rest))
  {
    Widths();
    var more := Flat(ComponentRecords(md.revision, md.components, places)) + rest;
    assert ComponentArea(md, places) + rest == Le(|md.components|, 2) + more;
    TakeLePrefix(|md.components|, 2, more);
    ReadComponents(package, md.revision, md.components, places, images, rest);
  }
}
