/** The finished package: what the back-patches change, where the images lie, and that the reader recovers
    everything exactly when the identifier has the 16 bytes the format gives it. */
module PldmPackage {
  import opened Bytes
  import opened PldmMetadata
  import opened PldmLayout
  import opened PldmRoundTrip
  import Crc32
  import R = PldmReader

  // ---------------------------------------------------------------- lengths

  lemma {:induction false} RecordsLength(revision: int, cs: seq<Component>, ps: seq<Place>, qs: seq<Place>)
    requires |ps| == |cs| == |qs| && forall i :: 0 <= i < |cs| ==> ComponentOk(cs[i])
    ensures |Flat(ComponentRecords(revision, cs, ps))| == |Flat(ComponentRecords(revision, cs, qs))|
    decreases |cs|
  {
    hide PrintComponent, ComponentOk;
    if cs != [] {
      SameLength(revision, cs[0], ps[0], qs[0]);
      RecordsLength(revision, cs[1..], ps[1..], qs[1..]);
      assert ComponentRecords(revision, cs, ps)[1..] == ComponentRecords(revision, cs[1..], ps[1..]);
      assert ComponentRecords(revision, cs, qs)[1..] == ComponentRecords(revision, cs[1..], qs[1..]);
    }
  }

  lemma SameLength(revision: int, c: Component, p: Place, q: Place)
    requires ComponentOk(c)
    ensures |PrintComponent(revision, c, p)| == |PrintComponent(revision, c, q)|
  {
    hide ComponentFields, PlaceFields, VersionFields, ComponentOk;
  }

  lemma FieldsLength(md: Metadata, headerSize: nat, places: seq<Place>)
    requires MetadataOk(md) && |places| == |md.components|
    ensures |Fields(md, headerSize, places)| + Checksums(md.revision) == HeaderLength(md)
  {
    RecordsLength(md.revision, md.components, places, Blanks(|md.components|));
  }

  // ---------------------------------------------------------------- back-patches

  lemma OverwriteMiddle(front: Data, before: Data, after: Data, behind: Data)
    requires |before| == |after|
    ensures Overwrite(front + (before + behind), |front|, after) == front + (after + behind)
  {
  }

  lemma FieldsAroundSize(md: Metadata, size: nat, places: seq<Place>)
    requires MetadataOk(md) && |places| == |md.components|
    ensures Fields(md, size, places) == InfoFront(md) + (Le(size, 2) + (InfoTail(md) + Areas(md, places)))
  {
    assert 0 <= md.revision < 256 && Text(md.version);
    hide MetadataOk, InfoFront, InfoTail, Areas, Le, Text;
    Regroup(InfoFront(md), Le(size, 2) + InfoTail(md), Areas(md, places));
    Regroup(Le(size, 2), InfoTail(md), Areas(md, places));
  }

  /** With a 16-byte identifier the size patch lands on the size field. */
  lemma SizePatchIsLayout(md: Metadata, places: seq<Place>, size: nat)
    requires MetadataOk(md) && |places| == |md.components| && |md.identifier| == 16
    ensures Overwrite(Fields(md, 0, places), 17, Le(size, 2)) == Fields(md, size, places)
  {
    FieldsAroundSize(md, 0, places);
    FieldsAroundSize(md, size, places);
    OverwriteMiddle(InfoFront(md), Le(0, 2), Le(size, 2), InfoTail(md) + Areas(md, places));
  }

  /** The offset and size fields reserved for the components, counted from the first component record. */
  predicate Reserved(revision: int, cs: seq<Component>, k: nat)
    requires forall i :: 0 <= i < |cs| ==> ComponentOk(cs[i])
    decreases |cs|
  {
    cs != [] &&
    var length := |PrintComponent(revision, cs[0], BLANK)|;
    if k < length then PLACE_POSITION <= k < PLACE_POSITION + 8 else Reserved(revision, cs[1..], k - length)
  }

  lemma {:induction false} PlacesFrame(revision: int, cs: seq<Component>, ps: seq<Place>, k: nat)
    requires |ps| == |cs| && forall i :: 0 <= i < |cs| ==> ComponentOk(cs[i])
    requires k < |Flat(ComponentRecords(revision, cs, ps))| && !Reserved(revision, cs, k)
    ensures |Flat(ComponentRecords(revision, cs, Blanks(|cs|)))| == |Flat(ComponentRecords(revision, cs, ps))|
    ensures Flat(ComponentRecords(revision, cs, Blanks(|cs|)))[k] == Flat(ComponentRecords(revision, cs, ps))[k]
    decreases |cs|
  {
    RecordsLength(revision, cs, ps, Blanks(|cs|));
    if cs != [] {
      assert ComponentRecords(revision, cs, ps)[1..] == ComponentRecords(revision, cs[1..], ps[1..]);
      assert ComponentRecords(revision, cs, Blanks(|cs|))[1..]
          == ComponentRecords(revision, cs[1..], Blanks(|cs[1..]|));
      var first := PrintComponent(revision, cs[0], ps[0]);
      if k >= |first| {
        PlacesFrame(revision, cs[1..], ps[1..], k - |first|);
      }
    }
  }

  /** The position of the first component record. */
  function ComponentsStart(md: Metadata): nat
    requires MetadataOk(md)
  {
    |HeaderInfo(md, 0)| + |DeviceArea(md)| + |DownstreamArea(md)| + 2
  }

  lemma FrameOfParts(before: Data, blank: Data, patched: Data, size: Data, k: nat)
    requires |size| == 2 && |before| >= 19 && |blank| == |patched|
    requires k < |before| + |patched| && k != 17 && k != 18
    requires k >= |before| ==> blank[k - |before|] == patched[k - |before|]
    ensures |Overwrite(before + patched, 17, size)| == |before + blank|
    ensures Overwrite(before + patched, 17, size)[k] == (before + blank)[k]
  {
  }

  /** All patches together change nothing but the two size bytes and the reserved offset and size fields. */
  lemma PatchesTouchPlaceholdersOnly(md: Metadata, places: seq<Place>, size: nat, k: nat)
    requires MetadataOk(md) && |places| == |md.components|
    requires k < |Fields(md, 0, places)| && k != 17 && k != 18
    requires k < ComponentsStart(md) || !Reserved(md.revision, md.components, k - ComponentsStart(md))
    ensures |Overwrite(Fields(md, 0, places), 17, Le(size, 2))| == |Fields(md, 0, Blanks(|places|))|
    ensures Overwrite(Fields(md, 0, places), 17, Le(size, 2))[k] == Fields(md, 0, Blanks(|places|))[k]
  {
    hide Fields, ComponentRecords, Flat, BeforeRecords, Overwrite, Le, DevicesOk, DownstreamsOk, ComponentOk,
      ComponentsStart, Reserved;
    var records := Flat(ComponentRecords(md.revision, md.components, places));
    var blanks := Flat(ComponentRecords(md.revision, md.components, Blanks(|places|)));
    var before := BeforeRecords(md);
    RecordsLength(md.revision, md.components, places, Blanks(|places|));
    FieldsAreRecords(md, places);
    FieldsAreRecords(md, Blanks(|places|));
    if k >= |before| {
      PlacesFrame(md.revision, md.components, places, k - |before|);
    }
    FrameOfParts(before, blanks, records, Le(size, 2), k);
  }

  function BeforeRecords(md: Metadata): (b: Data)
    requires MetadataOk(md)
    ensures |b| >= 19 && |b| == ComponentsStart(md)
  {
    HeaderInfo(md, 0) + (DeviceArea(md) + (DownstreamArea(md) + Le(|md.components|, 2)))
  }

  lemma FieldsAreRecords(md: Metadata, places: seq<Place>)
    requires MetadataOk(md) && |places| == |md.components|
    ensures Fields(md, 0, places)
         == BeforeRecords(md) + Flat(ComponentRecords(md.revision, md.components, places))
  {
    RegroupAreas(HeaderInfo(md, 0), DeviceArea(md), DownstreamArea(md), Le(|md.components|, 2),
            Flat(ComponentRecords(md.revision, md.components, places)));
  }

  lemma RegroupAreas(a: Data, b: Data, c: Data, d: Data, e: Data)
    ensures a + (b + (c + (d + e))) == (a + (b + (c + d))) + e
  {
  }

  // ---------------------------------------------------------------- payload

  lemma SealShape(revision: int, fields: Data, images: seq<Data>)
    ensures |Seal(revision, fields, images)| == |fields| + Checksums(revision) + |Flat(images)|
    ensures Seal(revision, fields, images)[|fields| + Checksums(revision)..] == Flat(images)
  {
    hide Le, Flat, Crc32.Checksum;
    var first, second := Le(Crc32.Checksum(fields, 0), 4), PayloadChecksum(revision, images);
    var front := fields + (first + second);
    Regroup(fields, first + second, Flat(images));
    Regroup(first, second, Flat(images));
    hide PayloadChecksum;
    assert Seal(revision, fields, images) == front + Flat(images) && |front| == |fields| + Checksums(revision);
    TakePrefix(front, Flat(images));
  }

  lemma SliceOfParts(package: Data, start: nat, before: Data, image: Data, behind: Data)
    requires start <= |package| && package[start..] == before + image + behind
    ensures R.Slice(package, start + |before|, |image|) == Some(image)
  {
    assert package[start..][|before|..|before| + |image|] == image;
    assert package[start + |before|..start + |before| + |image|]
        == package[start..][|before|..|before| + |image|];
  }

  lemma SliceOfPayload(package: Data, start: nat, images: seq<Data>, i: nat)
    requires i < |images| && start <= |package| && package[start..] == Flat(images)
    ensures var place := Places(start, images)[i];
      && R.Slice(package, place.offset, place.size) == Some(images[i])
      && (i + 1 < |images| ==> Places(start, images)[i + 1].offset == place.offset + place.size)
      && (i + 1 == |images| ==> place.offset + place.size == |package|)
  {
    hide Flat, R.Slice;
    FlatSplit(images, i);
    SliceOfParts(package, start, Flat(images[..i]), images[i], Flat(images[i + 1..]));
    FlatSnoc(images, i);
    assert images[..|images|] == images;
  }

  lemma SealedImage(revision: int, fields: Data, images: seq<Data>, i: nat)
    requires i < |images|
    ensures var package := Seal(revision, fields, images);
      var places := Places(|fields| + Checksums(revision), images);
      && R.Slice(package, places[i].offset, places[i].size) == Some(images[i])
      && places[0].offset == |fields| + Checksums(revision)
      && (i + 1 < |images| ==> places[i + 1].offset == places[i].offset + places[i].size)
      && (i + 1 == |images| ==> places[i].offset + places[i].size == |package|)
  {
    SealShape(revision, fields, images);
    SliceOfPayload(Seal(revision, fields, images), |fields| + Checksums(revision), images, i);
    assert images[..0] == [];
  }

  lemma PackageShape(md: Metadata, images: seq<Data>)
    requires Accepted(md, images)
    ensures |PatchedFields(md, images)| + Checksums(md.revision) == HeaderLength(md)
  {
    var places := Places(HeaderLength(md), images);
    FieldsLength(md, 0, places);
    FieldsAreRecords(md, places);
  }

  /** Every image is the byte range recorded for it; the ranges start at the header's end, follow each other
      without gap or overlap, and end with the package. */
  lemma ImagesInPlace(md: Metadata, images: seq<Data>, i: nat)
    requires Accepted(md, images) && i < |images|
    ensures var package := Package(md, images);
      var places := Places(HeaderLength(md), images);
      && R.Slice(package, places[i].offset, places[i].size) == Some(images[i])
      && places[0].offset == HeaderLength(md)
      && (i + 1 < |images| ==> places[i + 1].offset == places[i].offset + places[i].size)
      && (i + 1 == |images| ==> places[i].offset + places[i].size == |package|)
  {
    hide MetadataOk, HeaderLength;
    PackageShape(md, images);
    SealedImage(md.revision, PatchedFields(md, images), images, i);
  }

  // ---------------------------------------------------------------- reading it back

  lemma ReadInfo(md: Metadata, headerSize: nat, rest: Data)
    requires 0 <= md.revision < 256 && Text(md.version) && |md.identifier| == 16
    requires headerSize <= 0xFFFF && |md.components| <= 32
    ensures R.ReadInfo(R.IDENTIFIER_SIZE, HeaderInfo(md, headerSize) + rest) == Some((SeenInfo(md, headerSize), rest))
  {
    hide Take, TakeLe, Le, FromLe, Bits, BitsToNat, NatToBits, PackBits, UnpackBits;
    Widths();
    var b6 := md.version + rest;
    var b5 := [|md.version|] + b6;
    var b4 := [ASCII_STRING] + b5;
    var b3 := Le(BitmapBits(md), 2) + b4;
    var b2 := Date(md.released) + b3;
    var b1 := Le(headerSize, 2) + b2;
    assert HeaderInfo(md, headerSize) + rest == md.identifier + ([md.revision] + b1);
    TakePrefix(md.identifier, [md.revision] + b1);
    TakeBytePrefix(md.revision, b1);
    TakeLePrefix(headerSize, 2, b2);
    ReadDate(md.released, b3);
    TakeLePrefix(BitmapBits(md), 2, b4);
    TakeBytePrefix(ASCII_STRING, b5);
    TakeBytePrefix(|md.version|, b6);
    TakePrefix(md.version, rest);
  }

  function SeenInfo(md: Metadata, headerSize: nat): R.Info
    requires md.revision >= 0
  {
    R.Info(md.identifier, md.revision, headerSize, SeenDate(md.released), BitmapBits(md), ASCII_STRING, md.version)
  }

  lemma ChecksumsHold(revision: nat, fields: Data, images: seq<Data>, info: R.Info)
    requires info.revision == revision && info.headerSize == |fields| + Checksums(revision)
    ensures var package := Seal(revision, fields, images);
      R.Intact(package, info, package[|fields|..])
  {
    Widths();
    BitWidths();
    var payload := Flat(images);
    var headerSum := Crc32.Checksum(fields, 0);
    var behind := PayloadChecksum(revision, images) + payload;
    Crc32.ChecksumIsFrameCheckSequence(fields);
    Crc32.ChecksumIsFrameCheckSequence(payload);
    TakePrefix(fields, Le(headerSum, 4) + behind);
    TakeLePrefix(headerSum, 4, behind);
    if revision >= 4 {
      TakeLePrefix(Crc32.Checksum(payload, 0), 4, payload);
    }
  }

  lemma ReadParts(i: Data, d: Data, w: Data, c: Data, rest: Data, info: R.Info, devices: seq<R.Device>,
                  downstream: seq<R.Downstream>, components: seq<R.Component>)
    requires R.ReadInfo(R.IDENTIFIER_SIZE, i + (d + (w + (c + rest)))) == Some((info, d + (w + (c + rest))))
    requires R.ReadDeviceArea(info, d + (w + (c + rest))) == Some((devices, w + (c + rest)))
    requires R.ReadDownstreamArea(info, w + (c + rest)) == Some((downstream, c + rest))
    requires R.ReadComponentArea(i + (d + (w + (c + rest))), info, c + rest) == Some((components, rest))
    requires R.Intact(i + (d + (w + (c + rest))), info, rest)
    ensures R.ReadPackage(i + (d + (w + (c + rest))))
         == Some(R.Package(info.identifier, info.revision, info.headerSize, info.released, info.versionType,
                           info.version, devices, downstream, components))
  {
  }

  lemma PackageParts(md: Metadata, images: seq<Data>)
    requires Accepted(md, images) && |md.identifier| == 16
    ensures var places := Places(HeaderLength(md), images);
      var rest := Package(md, images)[|PatchedFields(md, images)|..];
      Package(md, images) == HeaderInfo(md, HeaderLength(md))
                             + (DeviceArea(md) + (DownstreamArea(md) + (ComponentArea(md, places) + rest)))
  {
    hide MetadataOk, HeaderLength, Flat, DeviceArea, DownstreamArea, ComponentArea, HeaderInfo;
    SizePatchIsLayout(md, Places(HeaderLength(md), images), HeaderLength(md));
  }

  lemma AllInPlace(md: Metadata, images: seq<Data>, places: seq<Place>)
    requires Accepted(md, images) && places == Places(HeaderLength(md), images)
    ensures forall i :: 0 <= i < |places| ==>
      R.Slice(Package(md, images), places[i].offset, places[i].size) == Some(images[i])
  {
    forall i | 0 <= i < |places|
      ensures R.Slice(Package(md, images), places[i].offset, places[i].size) == Some(images[i])
    {
      ImagesInPlace(md, images, i);
    }
  }

  lemma FrontOfPackage(md: Metadata, images: seq<Data>)
    requires Accepted(md, images)
    ensures |PatchedFields(md, images)| <= |Package(md, images)|
  {
    hide PatchedFields, Flat, Le;
  }

  lemma PackageIsIntact(md: Metadata, images: seq<Data>, info: R.Info)
    requires Accepted(md, images) && info.revision == md.revision && info.headerSize == HeaderLength(md)
    ensures |PatchedFields(md, images)| <= |Package(md, images)|
    ensures R.Intact(Package(md, images), info, Package(md, images)[|PatchedFields(md, images)|..])
  {
    hide PatchedFields, HeaderLength, MetadataOk, R.Intact, Seal;
    FrontOfPackage(md, images);
    PackageShape(md, images);
    ChecksumsHold(md.revision, PatchedFields(md, images), images, info);
  }

  lemma ReadAreas(md: Metadata, images: seq<Data>)
    requires Accepted(md, images) && |md.identifier| == 16
    ensures R.ReadPackage(Package(md, images)) == Some(Seen(md, images))
  {
    hide R.ReadDeviceArea, R.ReadDownstreamArea, R.ReadComponentArea, R.ReadInfo, R.Intact, R.ReadPackage, DeviceArea,
      DownstreamArea, ComponentArea, HeaderInfo, HeaderLength, SeenDevices, SeenDownstreams, SeenComponents, Package,
      PatchedFields, Places, Flat;
    var size := HeaderLength(md);
    var info := SeenInfo(md, size);
    var places := Places(size, images);
    var package := Package(md, images);
    PackageIsIntact(md, images, info);
    var rest := package[|PatchedFields(md, images)|..];
    var b3 := ComponentArea(md, places) + rest;
    var b2 := DownstreamArea(md) + b3;
    var b1 := DeviceArea(md) + b2;
    PackageParts(md, images);
    ReadInfo(md, size, b1);
    ReadDeviceArea(md, info, b2);
    ReadDownstreamArea(md, info, b3);
    AllInPlace(md, images, places);
    ReadComponentArea(package, info, md, places, images, rest);
    ReadParts(HeaderInfo(md, size), DeviceArea(md), DownstreamArea(md), ComponentArea(md, places), rest, info,
              SeenDevices(md, md.devices), SeenDownstreams(md, DownstreamList(md)),
              SeenComponents(md.components, images));
  }

  lemma IdentifierHas16Bytes(package: Data)
    ensures R.ReadPackage(package).Some? ==> |R.ReadPackage(package).value.identifier| == 16
  {
    hide R.ReadDeviceArea, R.ReadDownstreamArea, R.ReadComponentArea, R.Intact, R.ReadDate;
  }

  // ---------------------------------------------------------------- where the header size ends up

  lemma FromTwoBytes(b: Data)
    requires |b| == 2
    ensures var low: nat, high: nat := b[0], b[1]; FromLe(b) == low + 256 * high
  {
    assert FromLe(b[1..]) == b[1];
  }

  /** Two bytes patched in at 17 make up the size field behind identifier and revision only if that field is at 17:
      one byte further up or down they are half of it, and no such half stands for the same size. */
  lemma PatchedSize(identifier: Data, revision: byte, tail: Data, size: nat)
    requires 0 < size <= 0xFFFF && |tail| >= 17
    ensures var n, p := |identifier|, Overwrite(identifier + [revision] + (Le(0, 2) + tail), 17, Le(size, 2));
      && n + 3 <= |p|
      && (FromLe(p[n + 1..n + 3]) == size <==> n == 16)
  {
    TwoBytes(0);
    TwoBytes(size);
    hide Le, FromLe;
    var n, f := |identifier|, identifier + [revision] + (Le(0, 2) + tail);
    var p := Overwrite(f, 17, Le(size, 2));
    assert f[n + 1] == 0 && f[n + 2] == 0;
    assert p[17] == size % 256 && p[18] == size / 256;
    assert forall k :: 0 <= k < |f| && k != 17 && k != 18 ==> p[k] == f[k];
    FromTwoBytes(p[n + 1..n + 3]);
  }

  /** A reader told where the identifier ends finds the header size behind it exactly when that is where the script
      patches it in. */
  lemma HeaderSizeInPlace(md: Metadata, images: seq<Data>)
    requires Accepted(md, images)
    ensures var n, p := |md.identifier|, Package(md, images);
      && n + 3 <= |p|
      && (FromLe(p[n + 1..n + 3]) == HeaderLength(md) <==> n == 16)
  {
    hide HeaderLength, Fields, InfoTail, Areas, FromLe, Le, Flat, Overwrite, Places, DevicesOk, DownstreamsOk,
      ComponentsOk, PlacesFit;
    var size, places := HeaderLength(md), Places(HeaderLength(md), images);
    var n, patched := |md.identifier|, PatchedFields(md, images);
    FieldsAroundSize(md, 0, places);
    InfoTailLength(md);
    SomeHeader(md);
    PatchedSize(md.identifier, md.revision, InfoTail(md) + Areas(md, places), size);
    hide PatchedFields, Accepted;
    SealedFront(md.revision, patched, images, n + 1, n + 3);
  }

  lemma SomeHeader(md: Metadata)
    requires MetadataOk(md)
    ensures HeaderLength(md) > 0
  {
    hide MetadataOk, Fields;
  }

  lemma SealedFront(revision: int, fields: Data, images: seq<Data>, lo: nat, hi: nat)
    requires lo <= hi <= |fields|
    ensures |fields| <= |Seal(revision, fields, images)|
    ensures Seal(revision, fields, images)[lo..hi] == fields[lo..hi]
  {
    hide Le, Flat, PayloadChecksum, Crc32.Checksum;
    FrontSlice(fields, Le(Crc32.Checksum(fields, 0), 4) + (PayloadChecksum(revision, images) + Flat(images)), lo, hi);
  }

  lemma FrontSlice(a: Data, b: Data, lo: nat, hi: nat)
    requires lo <= hi <= |a|
    ensures (a + b)[lo..hi] == a[lo..hi]
  {
  }

  lemma InfoTailLength(md: Metadata)
    requires Text(md.version)
    ensures |InfoTail(md)| >= 17
  {
    hide Le;
  }

  lemma ReadsSizeBehindIdentifier(n: nat, package: Data)
    ensures R.ReadPackageFrom(n, package).Some? ==>
      n + 3 <= |package| && R.ReadPackageFrom(n, package).value.headerSize == FromLe(package[n + 1..n + 3])
  {
    hide R.ReadDeviceArea, R.ReadDownstreamArea, R.ReadComponentArea, R.Intact, R.ReadDate, FromLe;
    if n + 3 <= |package| {
      assert package[n..][1..][..2] == package[n + 1..n + 3];
    }
  }

  /** A reader recovers every field, record, descriptor, component and image of an accepted input exactly when the
      package header identifier is 16 bytes long: the reader of DSP0267, and also a reader that is told how long the
      identifier is. */
  lemma RoundTrip(md: Metadata, images: seq<Data>)
    requires Accepted(md, images)
    ensures R.ReadPackage(Package(md, images)) == Some(Seen(md, images)) <==> |md.identifier| == 16
    ensures R.ReadPackageFrom(|md.identifier|, Package(md, images)) == Some(Seen(md, images))
       <==> |md.identifier| == 16
  {
    hide Package, HeaderLength, MetadataOk, FromLe, R.ReadPackageFrom, SeenDevices, SeenDownstreams, SeenComponents;
    if |md.identifier| == 16 {
      ReadAreas(md, images);
    } else {
      IdentifierHas16Bytes(Package(md, images));
      HeaderSizeInPlace(md, images);
      ReadsSizeBehindIdentifier(|md.identifier|, Package(md, images));
    }
  }

  /** One component with empty fields under an identifier of 17 bytes. */
  function LongIdentifier(): Metadata {
    Metadata(Zeros(17), 1, Timestamp(0, 0, 0, 0, 1, 1, 2025), [], [], None, [Component(0, 0, [], None, [], [])])
  }

  lemma LongIdentifierLength()
    ensures MetadataOk(LongIdentifier()) && HeaderLength(LongIdentifier()) < 100
  {
    hide Le, Bits, BitsToNat;
    var md := LongIdentifier();
    assert |HeaderInfo(md, 0)| == 37;
    assert Records(DeviceBodies(md, md.devices)) == [];
    assert DeviceArea(md) == [0] && DownstreamArea(md) == [];
    var records := ComponentRecords(1, md.components, Blanks(1));
    assert records == [PrintComponent(1, md.components[0], BLANK)];
    FlatOne(records[0]);
  }

  /** Such a package is written without complaint. The size behind its identifier is wrong, and its contents cannot be
      read back even by a reader that knows how long the identifier is. */
  lemma LongIdentifierIsLost()
    ensures Accepted(LongIdentifier(), [[7]])
    ensures var md, p := LongIdentifier(), Package(LongIdentifier(), [[7]]);
      && |p| >= 20 && FromLe(p[18..20]) != HeaderLength(md)
      && R.ReadPackageFrom(17, p) != Some(Seen(md, [[7]])) && R.ReadPackage(p) != Some(Seen(md, [[7]]))
  {
    hide Package, HeaderLength, Fields, FromLe, R.ReadPackage, R.ReadPackageFrom;
    LongIdentifierLength();
    hide MetadataOk;
    assert [[7]][..0] == [];
    HeaderSizeInPlace(LongIdentifier(), [[7]]);
    RoundTrip(LongIdentifier(), [[7]]);
  }
}
