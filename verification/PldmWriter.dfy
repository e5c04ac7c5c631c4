/** The script itself: one file handle, placeholders written first and patched after a seek back. */
module PldmWriter {
  import opened Bytes
  import opened PldmMetadata
  import opened PldmLayout
  import opened PldmPackage
  import Crc32

  /** A file opened for reading and writing: its bytes and the position of the next read or write. */
  class PackageFile {
    var data: Data
    var pos: nat

    constructor ()
      ensures data == [] && pos == 0
    {
      data, pos := [], 0;
    }

    predicate AtEnd()
      reads this
    {
      pos == |data|
    }

    method Write(b: Data)
      modifies this
      ensures data == Overwrite(old(data), old(pos), b) && pos == old(pos) + |b|
      ensures old(AtEnd()) ==> data == old(data) + b && AtEnd()
    {
      data := Overwrite(data, pos, b);
      pos := pos + |b|;
    }

    method Seek(offset: nat)
      modifies this`pos
      ensures pos == offset
    {
      pos := offset;
    }

    method SeekEnd()
      modifies this`pos
      ensures AtEnd()
    {
      pos := |data|;
    }

    method Read() returns (b: Data)
      modifies this`pos
      ensures b == if old(pos) <= |data| then data[old(pos)..] else []
      ensures pos == if old(pos) <= |data| then |data| else old(pos)
    {
      if pos <= |data| {
        b, pos := data[pos..], |data|;
      } else {
        b := [];
      }
    }
  }

  // ---------------------------------------------------------------- bit fields and descriptors

  /** Sets one bit per listed option, refusing any option outside [0, supported). */
  method SetOptions(options: seq<int>, supported: nat, width: nat) returns (ok: bool, bits: seq<bool>)
    requires supported <= width
    ensures ok == AllIn(options, supported)
    ensures ok ==> bits == Bits(options, width)
  {
    bits := seq(width, _ => false);
    ok := true;
    for i := 0 to |options|
      invariant AllIn(options[..i], supported)
      invariant bits == Bits(options[..i], width)
    {
      if !(0 <= options[i] < supported) {
        ok := false;
        return;
      }
      bits := bits[options[i] := true];
      assert options[..i + 1] == options[..i] + [options[i]];
    }
    assert options[..|options|] == options;
  }

  method PrepareRecordDescriptors(descriptors: seq<Descriptor>) returns (ok: bool, records: Data, count: nat)
    ensures ok == DescriptorsOk(descriptors)
    ensures ok ==> Printable(descriptors) && records == PrintDescriptors(descriptors) && count == |descriptors|
  {
    hide Le, PrintDescriptors, PrintDescriptor, DescriptorsOk, Printable, DescriptorLength, InitialKind;
    NoDescriptors();
    assert descriptors[..0] == [];
    records, count, ok := [], 0, true;
    for i := 0 to |descriptors|
      invariant count == i
      invariant DescriptorsOk(descriptors[..i]) && Printable(descriptors[..i])
      invariant records == PrintDescriptors(descriptors[..i])
    {
      var d := descriptors[i];
      DescriptorsOkSnoc(descriptors, i);
      match d {
        case Vendor(title, data) =>
          var length := 1 + 1 + |title| + |data|;
          if count == 0 || |title| > 255 || length > 0xFFFF {
            ok := false;
            return;
          }
          PrintSnoc(descriptors, i);
          VendorBytes(title, data);
          records := records + (Le(VENDOR_DEFINED, 2) + Le(length, 2) + [ASCII_STRING, |title|] + title);
          records := records + data;
          count := count + 1;
        case Standard(kind, data) =>
          if (count == 0 && !InitialKind(kind)) || DescriptorLength(kind) != Some(|data|) {
            ok := false;
            return;
          }
          PrintSnoc(descriptors, i);
          StandardBytes(kind, data);
          records := records + (Le(kind, 2) + Le(|data|, 2));
          records := records + data;
          count := count + 1;
      }
    }
    assert descriptors[..|descriptors|] == descriptors;
  }

  lemma NoDescriptors()
    ensures PrintDescriptors([]) == [] && DescriptorsOk([]) && Printable([])
  {
  }

  /** One more descriptor is fine exactly when it is fit for its position; the first unfit one spoils the list. */
  lemma DescriptorsOkSnoc(ds: seq<Descriptor>, i: nat)
    requires i < |ds| && DescriptorsOk(ds[..i])
    ensures DescriptorOk(ds[i], i == 0) ==> DescriptorsOk(ds[..i + 1]) && Printable(ds[..i + 1])
    ensures !DescriptorOk(ds[i], i == 0) ==> !DescriptorsOk(ds)
  {
    hide DescriptorLength;
    assert ds[..i + 1] == ds[..i] + [ds[i]];
  }

  lemma VendorBytes(title: Data, data: Data)
    requires DescriptorOk(Vendor(title, data), false) && |title| <= 255
    ensures PrintDescriptor(Vendor(title, data))
         == (Le(VENDOR_DEFINED, 2) + Le(2 + |title| + |data|, 2) + [ASCII_STRING, |title|] + title) + data
  {
    hide Le, DescriptorOk;
    JoinVendor(Le(VENDOR_DEFINED, 2), Le(2 + |title| + |data|, 2), ASCII_STRING, |title|, title, data);
  }

  lemma JoinVendor(a: Data, b: Data, x: byte, y: byte, title: Data, data: Data)
    ensures a + (b + ([x] + ([y] + (title + data)))) == (a + b + [x, y] + title) + data
  {
    var front := [x, y] + title;
    assert [x] + ([y] + (title + data)) == front + data;
    assert a + b + [x, y] + title == a + (b + front);
    assert a + (b + (front + data)) == (a + (b + front)) + data;
  }

  lemma StandardBytes(kind: int, data: Data)
    requires DescriptorOk(Standard(kind, data), false)
    ensures PrintDescriptor(Standard(kind, data)) == (Le(kind, 2) + Le(|data|, 2)) + data
  {
    hide Le, DescriptorLength;
  }

  lemma PrintSnoc(ds: seq<Descriptor>, i: nat)
    requires i < |ds| && Printable(ds[..i + 1])
    ensures Printable(ds[..i]) && PrintDescriptors(ds[..i + 1]) == PrintDescriptors(ds[..i]) + PrintDescriptor(ds[i])
  {
    assert forall j :: 0 <= j < i ==> ds[..i][j] == ds[..i + 1][j];
    assert ds[..i + 1][i] == ds[i];
    var parts := DescriptorRecords(ds[..i + 1]);
    assert parts[..i] == DescriptorRecords(ds[..i]) && parts[..i + 1] == parts;
    FlatSnoc(parts, i);
  }

  // ---------------------------------------------------------------- package header information

  method WritePkgReleaseDateTime(f: PackageFile, t: Timestamp)
    requires f.AtEnd()
    modifies f
    ensures f.AtEnd() && f.data == old(f.data) + Date(t)
  {
    var microseconds := Le(t.microsecond, 3);
    f.Write(Le(0, 2) + [microseconds[0], microseconds[1], microseconds[2]] +
            [t.second, t.minute, t.hour, t.day, t.month] + Le(t.year, 2) + [0]);
  }

  method WriteComponentBitmapBitLength(f: PackageFile, md: Metadata) returns (ok: bool, bitmapBits: nat)
    requires f.AtEnd()
    modifies f
    ensures ok == (|md.components| <= 32)
    ensures ok ==> bitmapBits == BitmapBits(md) && f.AtEnd() && f.data == old(f.data) + Le(BitmapBits(md), 2)
  {
    ok, bitmapBits := |md.components| <= 32, 0;
    if ok {
      bitmapBits := 8 * ((|md.components| + 7) / 8);
      f.Write(Le(bitmapBits, 2));
    }
  }

  method WritePackageVersionString(f: PackageFile, md: Metadata) returns (ok: bool)
    requires f.AtEnd()
    modifies f
    ensures ok == Text(md.version)
    ensures ok ==> f.AtEnd() && f.data == old(f.data) + ([ASCII_STRING] + ([|md.version|] + md.version))
  {
    ok := |md.version| <= 255;
    if ok {
      f.Write([ASCII_STRING, |md.version|] + md.version);
    }
  }

  method WritePkgHeaderInfo(f: PackageFile, md: Metadata) returns (ok: bool, bitmapBits: nat)
    requires f.AtEnd()
    modifies f
    ensures ok == (0 <= md.revision < 256 && |md.components| <= 32 && Text(md.version))
    ensures ok ==> bitmapBits == BitmapBits(md) && f.AtEnd() && f.data == old(f.data) + HeaderInfo(md, 0)
  {
    hide Date, Le, Overwrite, BitmapBits;
    f.Write(md.identifier);
    ok, bitmapBits := 0 <= md.revision < 256, 0;
    if !ok { return; }
    f.Write([md.revision] + Le(0, 2));
    WritePkgReleaseDateTime(f, md.released);
    ok, bitmapBits := WriteComponentBitmapBitLength(f, md);
    if !ok { return; }
    ok := WritePackageVersionString(f, md);
    if !ok { return; }
    assert f.data == old(f.data) + HeaderInfo(md, 0);
  }

  // ---------------------------------------------------------------- identification areas

  /** The body of a record, and the length the script adds up for it field by field. */
  method PrepareDevice(md: Metadata, device: Device, bitmapBits: nat)
    returns (ok: bool, recordLength: nat, options: seq<bool>, applicable: seq<bool>, records: Data, count: byte)
    requires 1 <= md.revision <= 4 && bitmapBits == BitmapBits(md)
    ensures ok == DeviceOk(md, device)
    ensures ok ==> recordLength == 2 + |DeviceBodyOf(md, device)|
    ensures ok ==> options == Bits(device.options, 32) && applicable == Bits(device.applicable, bitmapBits)
    ensures ok ==> records == PrintDescriptors(device.descriptors) && count == |device.descriptors|
    ensures ok ==> Text(device.version)
  {
    hide Le, Flat, PrintDescriptors, AllIn, DescriptorsOk, Printable, BitsToNat, PackBits;
    options, applicable, records, count := [], [], [], 0;
    recordLength := 2;
    recordLength := recordLength + 1;
    ok, options := SetOptions(device.options, 1, 32);
    if !ok { return; }
    recordLength := recordLength + 4;
    recordLength := recordLength + 1;
    ok := |device.version| <= 255;
    if !ok { return; }
    recordLength := recordLength + |device.version|;
    recordLength := recordLength + 1;
    recordLength := recordLength + 2;
    if md.revision >= 4 {
      if device.manifest.Some? {
        recordLength := recordLength + |device.manifest.value|;
      }
      recordLength := recordLength + 4;
    }
    ok, applicable := SetOptions(device.applicable, |md.components|, bitmapBits);
    if !ok { return; }
    recordLength := recordLength + |applicable| / 8;
    var descriptorCount: nat;
    ok, records, descriptorCount := PrepareRecordDescriptors(device.descriptors);
    if !ok { return; }
    recordLength := recordLength + |records|;
    ok := descriptorCount <= 0xFF;
    if !ok { return; }
    count := descriptorCount;
    assert recordLength == 2 + |DeviceBody(md.revision, bitmapBits, device)|;
    ok := recordLength <= 0xFFFF;
  }

  method WriteDeviceRecord(f: PackageFile, md: Metadata, device: Device, bitmapBits: nat) returns (ok: bool)
    requires f.AtEnd() && 1 <= md.revision <= 4 && bitmapBits == BitmapBits(md)
    modifies f
    ensures ok == DeviceOk(md, device)
    ensures ok ==> f.AtEnd() && f.data == old(f.data) + Record(DeviceBodyOf(md, device))
  {
    var recordLength, options, applicable, records, count;
    ok, recordLength, options, applicable, records, count := PrepareDevice(md, device, bitmapBits);
    if !ok { return; }
    hide DeviceOk, DeviceBodyOf, Record, Overwrite, Le, PackBits, Counts, BitsToNat, Bits, PrintDescriptors, RecordFits,
         BitmapBits;
    ghost var before := f.data;
    var manifest := Manifest(md.revision, device.manifest);
    ghost var head := WriteRecordHead(f, md.revision, recordLength, count, options, device.options, ASCII_STRING,
                                      device.version, manifest, applicable);
    f.Write(records);
    if md.revision >= 4 && device.manifest.Some? {
      f.Write(manifest);
    }
    JoinRecord(before, Le(recordLength, 2), head, PackBits(applicable), device.version, records, manifest);
    DeviceRecordParts(md, device, head);
  }

  lemma DeviceRecordParts(md: Metadata, d: Device, counts: Data)
    requires DeviceOk(md, d)
    requires counts == Counts(md.revision, |d.descriptors|, d.options, ASCII_STRING, |d.version|,
                              Manifest(md.revision, d.manifest))
    ensures Printable(d.descriptors)
    ensures Record(DeviceBodyOf(md, d))
         == Le(2 + |DeviceBodyOf(md, d)|, 2) + (counts + (PackBits(Bits(d.applicable, BitmapBits(md))) +
            (d.version + (PrintDescriptors(d.descriptors) + Manifest(md.revision, d.manifest)))))
  {
    hide Counts, Bits, PackBits, PrintDescriptors, Manifest, Le, RecordFits;
  }

  /** The packed front of a record, up to and including its version string. */
  method WriteRecordHead(f: PackageFile, revision: int, recordLength: nat, count: byte, bits: seq<bool>,
                         ghost options: seq<int>, textType: byte, text: Data, manifest: Data, applicable: seq<bool>)
    returns (ghost counts: Data)
    requires f.AtEnd() && Text(text) && |applicable| % 8 == 0 && bits == Bits(options, 32)
    modifies f
    ensures counts == Counts(revision, count, options, textType, |text|, manifest)
    ensures f.AtEnd() && f.data == old(f.data) + (Le(recordLength, 2) + (counts + (PackBits(applicable) + text)))
  {
    hide Le, BitsToNat, PackBits, Bits, Overwrite;
    counts := Counts(revision, count, options, textType, |text|, manifest);
    var fixed := Le(recordLength, 2) + [count] + Le(BitsToNat(bits), 4) + [textType, |text|] + Le(0, 2);
    if revision <= 3 {
      f.Write(fixed + PackBits(applicable) + text);
    } else {
      f.Write(fixed + Le(|manifest|, 4) + PackBits(applicable) + text);
    }
    assert fixed + ManifestLength(revision, manifest) == Le(recordLength, 2) + counts;
  }

  lemma JoinRecord(before: Data, length: Data, counts: Data, bitmap: Data, text: Data, records: Data, manifest: Data)
    ensures before + (length + (counts + (bitmap + text))) + records + manifest
         == before + (length + (counts + (bitmap + (text + (records + manifest)))))
  {
  }

  method WriteFwDeviceIdentificationArea(f: PackageFile, md: Metadata, bitmapBits: nat) returns (ok: bool)
    requires f.AtEnd() && 1 <= md.revision <= 4 && bitmapBits == BitmapBits(md)
    modifies f
    ensures ok == DevicesOk(md)
    ensures ok ==> f.AtEnd() && f.data == old(f.data) + DeviceArea(md)
  {
    hide DeviceOk, DeviceBodyOf, Flat, Record, Records, DeviceBodies, Overwrite, BitmapBits;
    NoRecords(DeviceBodies(md, md.devices[..0]));
    ok := |md.devices| <= 255;
    if !ok { return; }
    ghost var before := f.data + [|md.devices|];
    f.Write([|md.devices|]);
    for i := 0 to |md.devices|
      invariant f.AtEnd()
      invariant forall j :: 0 <= j < i ==> DeviceOk(md, md.devices[j])
      invariant f.data == before + Flat(Records(DeviceBodies(md, md.devices[..i])))
    {
      ok := WriteDeviceRecord(f, md, md.devices[i], bitmapBits);
      if !ok { return; }
      DeviceSnoc(md, md.devices, i);
    }
    assert md.devices[..|md.devices|] == md.devices;
  }

  lemma DeviceSnoc(md: Metadata, ds: seq<Device>, i: nat)
    requires i < |ds| && forall j :: 0 <= j <= i ==> DeviceOk(md, ds[j])
    ensures Flat(Records(DeviceBodies(md, ds[..i + 1])))
         == Flat(Records(DeviceBodies(md, ds[..i]))) + Record(DeviceBodyOf(md, ds[i]))
  {
    hide DeviceOk, DeviceBodyOf, Flat;
    var parts := Records(DeviceBodies(md, ds[..i + 1]));
    assert parts[..i] == Records(DeviceBodies(md, ds[..i])) && parts[..i + 1] == parts;
    FlatSnoc(parts, i);
  }

  method PrepareDownstream(md: Metadata, device: Downstream, bitmapBits: nat)
    returns (ok: bool, recordLength: nat, options: seq<bool>, textType: byte, text: Data, applicable: seq<bool>,
             records: Data, count: byte)
    requires 2 <= md.revision <= 4 && bitmapBits == BitmapBits(md)
    ensures ok == DownstreamOk(md, device)
    ensures ok ==> recordLength == 2 + |DownstreamBodyOf(md, device)|
    ensures ok ==> options == Bits(device.options, 32) && applicable == Bits(device.applicable, bitmapBits)
    ensures ok ==> textType == MinVersionType(device) && text == MinVersion(device) && Text(text)
    ensures ok ==> (0 in device.options ==> 0 <= device.minStamp)
    ensures ok ==> records == PrintDescriptors(device.descriptors) && count == |device.descriptors|
  {
    hide Le, Flat, PrintDescriptors, AllIn, DescriptorsOk, Printable, BitsToNat, PackBits;
    options, applicable, records, count := [], [], [], 0;
    textType, text := ASCII_STRING, [];
    recordLength := 2;
    recordLength := recordLength + 1;
    ok, options := SetOptions(device.options, 1, 32);
    if !ok { return; }
    recordLength := recordLength + 4;
    recordLength := recordLength + 1;
    if options[0] {
      text := device.minVersion;
      ok := |text| <= 255 && 0 <= device.minStamp <= 0xFFFF_FFFF;
      if !ok { return; }
      recordLength := recordLength + |text|;
      recordLength := recordLength + 4;
    } else {
      textType, text := 0, [];
    }
    recordLength := recordLength + 1;
    recordLength := recordLength + 2;
    if md.revision >= 4 {
      if device.manifest.Some? {
        recordLength := recordLength + |device.manifest.value|;
      }
      recordLength := recordLength + 4;
    }
    ok, applicable := SetOptions(device.applicable, |md.components|, bitmapBits);
    if !ok { return; }
    recordLength := recordLength + |applicable| / 8;
    var descriptorCount: nat;
    ok, records, descriptorCount := PrepareRecordDescriptors(device.descriptors);
    if !ok { return; }
    recordLength := recordLength + |records|;
    ok := descriptorCount <= 0xFF;
    if !ok { return; }
    count := descriptorCount;
    assert recordLength == 2 + |DownstreamBody(md.revision, bitmapBits, device)|;
    ok := recordLength <= 0xFFFF;
  }

  method WriteDownstreamRecord(f: PackageFile, md: Metadata, device: Downstream, bitmapBits: nat) returns (ok: bool)
    requires f.AtEnd() && 2 <= md.revision <= 4 && bitmapBits == BitmapBits(md)
    modifies f
    ensures ok == DownstreamOk(md, device)
    ensures ok ==> f.AtEnd() && f.data == old(f.data) + Record(DownstreamBodyOf(md, device))
  {
    var recordLength, options, textType, text, applicable, records, count;
    ok, recordLength, options, textType, text, applicable, records, count := PrepareDownstream(md, device, bitmapBits);
    if !ok { return; }
    hide DownstreamOk, DownstreamBodyOf, Record, MinVersion, MinVersionType, MinStamp, Overwrite, Le, PackBits, Counts,
         BitsToNat, Bits, PrintDescriptors, RecordFits, BitmapBits;
    ghost var before := f.data;
    var manifest := Manifest(md.revision, device.manifest);
    ghost var head := WriteRecordHead(f, md.revision, recordLength, count, options, device.options, textType, text,
                                      manifest, applicable);
    WriteMinStamp(f, device, options);
    f.Write(records);
    if md.revision >= 4 && device.manifest.Some? {
      f.Write(manifest);
    }
    JoinDownstream(before, Le(recordLength, 2), head, PackBits(applicable), text, MinStamp(device), records, manifest);
    DownstreamRecordParts(md, device, head);
  }

  lemma DownstreamRecordParts(md: Metadata, d: Downstream, counts: Data)
    requires DownstreamOk(md, d)
    requires counts == Counts(md.revision, |d.descriptors|, d.options, MinVersionType(d), |MinVersion(d)|,
                              Manifest(md.revision, d.manifest))
    ensures Printable(d.descriptors) && (0 in d.options ==> 0 <= d.minStamp)
    ensures Record(DownstreamBodyOf(md, d))
         == Le(2 + |DownstreamBodyOf(md, d)|, 2) + (counts + (PackBits(Bits(d.applicable, BitmapBits(md))) +
            (MinVersion(d) + (MinStamp(d) + (PrintDescriptors(d.descriptors) + Manifest(md.revision, d.manifest))))))
  {
    hide Counts, Bits, PackBits, MinVersion, MinVersionType, MinStamp, PrintDescriptors, Manifest, Le, RecordFits;
  }

  method WriteMinStamp(f: PackageFile, device: Downstream, options: seq<bool>)
    requires f.AtEnd() && options == Bits(device.options, 32)
    requires 0 in device.options ==> 0 <= device.minStamp
    modifies f
    ensures f.AtEnd() && f.data == old(f.data) + MinStamp(device)
  {
    if options[0] {
      f.Write(Le(device.minStamp, 4));
    }
  }

  lemma JoinDownstream(before: Data, length: Data, counts: Data, bitmap: Data, text: Data, stamp: Data, records: Data,
                       manifest: Data)
    ensures before + (length + (counts + (bitmap + text))) + stamp + records + manifest
         == before + (length + (counts + (bitmap + (text + (stamp + (records + manifest))))))
  {
  }

  method WriteDownstreamDeviceIdentificationArea(f: PackageFile, md: Metadata, bitmapBits: nat) returns (ok: bool)
    requires f.AtEnd() && 2 <= md.revision <= 4 && bitmapBits == BitmapBits(md)
    modifies f
    ensures ok == DownstreamsOk(md)
    ensures ok ==> f.AtEnd() && f.data == old(f.data) + DownstreamArea(md)
  {
    hide DownstreamOk, DownstreamBodyOf, Flat, Record, Records, DownstreamBodies, Overwrite, BitmapBits;
    ok := true;
    if md.downstream.None? {
      f.Write([0]);
      NoRecords(DownstreamBodies(md, []));
      return;
    }
    var devices := md.downstream.value;
    assert DownstreamList(md) == devices;
    ok := |devices| <= 255;
    if !ok { return; }
    ghost var before := f.data + [|devices|];
    f.Write([|devices|]);
    NoRecords(DownstreamBodies(md, devices[..0]));
    for i := 0 to |devices|
      invariant f.AtEnd()
      invariant forall j :: 0 <= j < i ==> DownstreamOk(md, devices[j])
      invariant f.data == before + Flat(Records(DownstreamBodies(md, devices[..i])))
    {
      ok := WriteDownstreamRecord(f, md, devices[i], bitmapBits);
      if !ok { return; }
      DownstreamSnoc(md, devices, i);
    }
    assert devices[..|devices|] == devices;
  }

  lemma NoRecords(bodies: seq<Data>)
    requires bodies == []
    ensures Flat(Records(bodies)) == []
  {
  }

  lemma DownstreamSnoc(md: Metadata, ds: seq<Downstream>, i: nat)
    requires i < |ds| && forall j :: 0 <= j <= i ==> DownstreamOk(md, ds[j])
    ensures Flat(Records(DownstreamBodies(md, ds[..i + 1])))
         == Flat(Records(DownstreamBodies(md, ds[..i]))) + Record(DownstreamBodyOf(md, ds[i]))
  {
    hide DownstreamOk, DownstreamBodyOf, Flat;
    var parts := Records(DownstreamBodies(md, ds[..i + 1]));
    assert parts[..i] == Records(DownstreamBodies(md, ds[..i])) && parts[..i + 1] == parts;
    FlatSnoc(parts, i);
  }

  // ---------------------------------------------------------------- component image information

  method GetComponentComparisonStamp(c: Component) returns (ok: bool, stamp: nat)
    ensures ok == (1 in c.options ==> c.stamp.Some? && 0 < c.stamp.value < 0xFFFF_FFFF)
    ensures ok ==> stamp == if 1 in c.options then c.stamp.value else 0xFFFF_FFFF
  {
    ok, stamp := true, 0xFFFF_FFFF;
    if 1 in c.options {
      ok := c.stamp.Some? && 0 < c.stamp.value < 0xFFFF_FFFF;
      if ok {
        stamp := c.stamp.value;
      }
    }
  }

  /** One component record with its offset and size still zero. */
  method WriteComponent(f: PackageFile, revision: int, c: Component) returns (ok: bool)
    requires f.AtEnd()
    modifies f
    ensures ok == ComponentOk(c)
    ensures ok ==> f.AtEnd() && f.data == old(f.data) + PrintComponent(revision, c, BLANK)
  {
    hide Overwrite, Le, Bits, BitsToNat, AllIn;
    ok := 0 <= c.classification <= 0xFFFF && 0 <= c.identifier <= 0xFFFF;
    if !ok { return; }
    var stamp, options, activation;
    ok, stamp := GetComponentComparisonStamp(c);
    if !ok { return; }
    ok, options := SetOptions(c.options, 3, 16);
    if !ok { return; }
    ok, activation := SetOptions(c.activation, 6, 16);
    if !ok { return; }
    ok := |c.version| <= 255;
    if !ok { return; }
    f.Write(Le(c.classification, 2) + Le(c.identifier, 2) + Le(stamp, 4) + Le(BitsToNat(options), 2) +
            Le(BitsToNat(activation), 2) + Le(0, 4) + Le(0, 4) + [ASCII_STRING, |c.version|] + c.version);
    if revision >= 3 {
      f.Write(Le(0, 4));
    }
    hide ComponentOk, Stamp, Text;
    JoinComponent(old(f.data), Le(c.classification, 2), Le(c.identifier, 2), Le(stamp, 4), Le(BitsToNat(options), 2),
                  Le(BitsToNat(activation), 2), Le(0, 4), Le(0, 4), ASCII_STRING, |c.version|, c.version,
                  OpaqueData(revision));
  }

  lemma JoinComponent(before: Data, a: Data, b: Data, c: Data, d: Data, e: Data, f: Data, g: Data, x: byte, y: byte,
                      version: Data, tail: Data)
    ensures before + (a + b + c + d + e + f + g + [x, y] + version) + tail
         == before + ((a + (b + (c + (d + e)))) + ((f + g) + ([x] + ([y] + (version + tail)))))
  {
    assert [x, y] == [x] + [y];
  }

  lemma ComponentSnoc(revision: int, cs: seq<Component>, i: nat)
    requires i < |cs| && forall j :: 0 <= j <= i ==> ComponentOk(cs[j])
    ensures Flat(ComponentRecords(revision, cs[..i + 1], Blanks(i + 1)))
         == Flat(ComponentRecords(revision, cs[..i], Blanks(i))) + PrintComponent(revision, cs[i], BLANK)
  {
    hide Flat, PrintComponent, ComponentOk;
    var parts := ComponentRecords(revision, cs[..i + 1], Blanks(i + 1));
    assert parts[..i] == ComponentRecords(revision, cs[..i], Blanks(i)) && parts[..i + 1] == parts;
    FlatSnoc(parts, i);
  }

  lemma PatchComponent(revision: int, c: Component, from: Place, to: Place, before: Data, behind: Data)
    requires ComponentOk(c)
    ensures Overwrite(before + PrintComponent(revision, c, from) + behind, |before| + PLACE_POSITION, PlaceFields(to))
         == before + PrintComponent(revision, c, to) + behind
  {
    hide ComponentFields, PlaceFields, VersionFields;
    var front := before + ComponentFields(c);
    var back := VersionFields(revision, c.version) + behind;
    assert before + PrintComponent(revision, c, from) + behind == front + (PlaceFields(from) + back);
    assert before + PrintComponent(revision, c, to) + behind == front + (PlaceFields(to) + back);
    OverwriteMiddle(front, PlaceFields(from), PlaceFields(to), back);
  }

  /** Patching the recorded position of component `k` rewrites its offset and size and nothing else. */
  lemma PatchPlace(before: Data, revision: int, cs: seq<Component>, places: seq<Place>, k: nat, p: Place)
    requires k < |cs| == |places| && forall i :: 0 <= i < |cs| ==> ComponentOk(cs[i])
    ensures
      var position := |before| + |Flat(ComponentRecords(revision, cs[..k], Blanks(k)))| + PLACE_POSITION;
      Overwrite(before + Flat(ComponentRecords(revision, cs, places)), position, PlaceFields(p))
      == before + Flat(ComponentRecords(revision, cs, places[k := p]))
  {
    hide Flat, PrintComponent, ComponentOk, PlaceFields, Overwrite;
    var was, now := ComponentRecords(revision, cs, places), ComponentRecords(revision, cs, places[k := p]);
    assert was[..k] == ComponentRecords(revision, cs[..k], places[..k]) == now[..k] && was[k + 1..] == now[k + 1..];
    RecordsLength(revision, cs[..k], places[..k], Blanks(k));
    FlatSplit(was, k);
    FlatSplit(now, k);
    PatchComponent(revision, cs[k], places[k], p, before + Flat(was[..k]), Flat(was[k + 1..]));
    Regrouped(before, Flat(was[..k]), was[k], Flat(was[k + 1..]));
    Regrouped(before, Flat(was[..k]), now[k], Flat(was[k + 1..]));
  }

  lemma Regrouped(a: Data, b: Data, c: Data, d: Data)
    ensures a + (b + c + d) == (a + b) + c + d
  {
  }

  /** Goes back to every recorded position and writes the offset and size of the image; refuses what does
      not fit the packed fields. */
  method PatchPlaces(f: PackageFile, ghost before: Data, revision: int, ghost cs: seq<Component>,
                     positions: seq<nat>, start: nat, images: seq<Data>)
    returns (ok: bool)
    requires |cs| == |positions| == |images|
    requires forall i :: 0 <= i < |cs| ==> ComponentOk(cs[i])
    requires forall i :: 0 <= i < |cs| ==>
      positions[i] == |before| + |Flat(ComponentRecords(revision, cs[..i], Blanks(i)))| + PLACE_POSITION
    requires f.data == before + Flat(ComponentRecords(revision, cs, Blanks(|cs|)))
    modifies f
    ensures ok == PlacesFit(Places(start, images))
    ensures ok ==> f.data == before + Flat(ComponentRecords(revision, cs, Places(start, images)))
  {
    hide Flat, ComponentOk, ComponentRecords, Overwrite, Le, Places;
    ok := true;
    var index, startOffset := 0, start;
    ghost var all, blanks := Places(start, images), Blanks(|cs|);
    assert images[..0] == [] && all[..0] + blanks[0..] == blanks;
    assert Flat([]) == [] by { FlatNone(); }
    while index < |positions|
      invariant 0 <= index <= |positions|
      invariant startOffset == start + |Flat(images[..index])|
      invariant forall i :: 0 <= i < index ==> all[i].offset <= 0xFFFF_FFFF && all[i].size <= 0xFFFF_FFFF
      invariant f.data == before + Flat(ComponentRecords(revision, cs, all[..index] + blanks[index..]))
    {
      var fileSize := |images[index]|;
      f.Seek(positions[index]);
      ok := startOffset <= 0xFFFF_FFFF && fileSize <= 0xFFFF_FFFF;
      if !ok { return; }
      ghost var places := all[..index] + blanks[index..];
      PatchPlace(before, revision, cs, places, index, all[index]);
      assert places[index := all[index]] == all[..index + 1] + blanks[index + 1..];
      f.Write(Le(startOffset, 4) + Le(fileSize, 4));
      FlatSnoc(images, index);
      startOffset := startOffset + fileSize;
      index := index + 1;
    }
    assert all[..|cs|] + blanks[|cs|..] == all;
  }

  function ImagesStart(md: Metadata, areaStart: nat): nat
    requires ComponentsOk(md.components)
  {
    areaStart + |ComponentArea(md, Blanks(|md.components|))| + Checksums(md.revision)
  }

  method WriteComponentImageInfoArea(f: PackageFile, md: Metadata, images: seq<Data>) returns (ok: bool)
    requires f.AtEnd() && |md.components| <= 32 && |images| == |md.components|
    modifies f
    ensures ok == (ComponentsOk(md.components) && PlacesFit(Places(ImagesStart(md, |old(f.data)|), images)))
    ensures ok ==> f.AtEnd()
    ensures ok ==> f.data == old(f.data) + ComponentArea(md, Places(ImagesStart(md, |old(f.data)|), images))
  {
    hide ComponentOk, Flat, Le, Overwrite, ComponentRecords, Places, PlacesFit;
    var components := md.components;
    ghost var before := f.data + Le(|components|, 2);
    f.Write(Le(|components|, 2));
    var positions: seq<nat> := [];
    assert Flat(ComponentRecords(md.revision, components[..0], Blanks(0))) == [] by {
      NoComponents(md.revision, components[..0]);
    }
    for i := 0 to |components|
      invariant f.AtEnd() && |positions| == i
      invariant forall j :: 0 <= j < i ==> ComponentOk(components[j])
      invariant f.data == before + Flat(ComponentRecords(md.revision, components[..i], Blanks(i)))
      invariant forall j :: 0 <= j < i ==>
        positions[j] == |before| + |Flat(ComponentRecords(md.revision, components[..j], Blanks(j)))| + PLACE_POSITION
    {
      positions := positions + [f.pos + PLACE_POSITION];
      ok := WriteComponent(f, md.revision, components[i]);
      if !ok { return; }
      ComponentSnoc(md.revision, components, i);
    }
    assert components[..|components|] == components;
    var startOffset := f.pos + 4;
    if md.revision >= 4 {
      startOffset := startOffset + 4;
    }
    assert startOffset == ImagesStart(md, |old(f.data)|);
    ok := PatchPlaces(f, before, md.revision, components, positions, startOffset, images);
    f.SeekEnd();
  }

  lemma NoComponents(revision: int, cs: seq<Component>)
    requires cs == []
    ensures Flat(ComponentRecords(revision, cs, Blanks(0))) == []
  {
  }

  // ---------------------------------------------------------------- sizes, checksums, images

  method UpdatePkgHeaderSize(f: PackageFile, revision: int) returns (ok: bool)
    requires f.AtEnd() && |f.data| >= 19
    modifies f
    ensures ok == (|old(f.data)| + Checksums(revision) <= 0xFFFF)
    ensures ok ==> f.AtEnd()
    ensures ok ==> f.data == Overwrite(old(f.data), 17, Le(|old(f.data)| + Checksums(revision), 2))
  {
    var fileSize := f.pos + 4;
    if revision >= 4 {
      fileSize := fileSize + 4;
    }
    f.Seek(17);
    ok := fileSize <= 0xFFFF;
    if !ok { return; }
    f.Write(Le(fileSize, 2));
    f.SeekEnd();
  }

  method WritePkgHeaderChecksum(f: PackageFile)
    modifies f
    ensures f.AtEnd() && f.data == old(f.data) + Le(Crc32.Checksum(old(f.data), 0), 4)
  {
    f.Seek(0);
    var all := f.Read();
    f.SeekEnd();
    f.Write(Le(Crc32.Checksum(all, 0), 4));
  }

  method WritePkgPayloadChecksum(f: PackageFile, images: seq<Data>)
    modifies f
    ensures f.AtEnd() && f.data == old(f.data) + Le(Crc32.Checksum(Flat(images), 0), 4)
  {
    hide Crc32.Checksum, Le, Flat;
    BitWidths();
    var checksum: nat := 0;
    for i := 0 to |images|
      invariant checksum < Pow2(32)
      invariant Crc32.ChainAll(images[i..], checksum) == Crc32.ChainAll(images, 0)
    {
      assert images[i..][0] == images[i] && images[i..][1..] == images[i + 1..];
      checksum := Crc32.Checksum(images[i], checksum);
    }
    Crc32.ChainAllIsFlat(images, 0);
    checksum := checksum % 0x1_0000_0000;
    f.SeekEnd();
    f.Write(Le(checksum, 4));
  }

  const NEWLINE: byte := 0x0A

  /** Copies one image line by line, a line ending behind its newline. */
  method AppendImage(f: PackageFile, image: Data)
    requires f.AtEnd()
    modifies f
    ensures f.AtEnd() && f.data == old(f.data) + image
  {
    var at := 0;
    while at < |image|
      invariant at <= |image| && f.AtEnd()
      invariant f.data == old(f.data) + image[..at]
    {
      var end := at;
      while end < |image| && image[end] != NEWLINE
        invariant at <= end <= |image|
      {
        end := end + 1;
      }
      if end < |image| {
        end := end + 1;
      }
      f.Write(image[at..end]);
      assert image[..end] == image[..at] + image[at..end];
      at := end;
    }
    assert image[..at] == image;
  }

  method AppendComponentImages(f: PackageFile, images: seq<Data>)
    requires f.AtEnd()
    modifies f
    ensures f.AtEnd() && f.data == old(f.data) + Flat(images)
  {
    hide Flat, Overwrite;
    assert Flat(images[..0]) == [] by { assert images[..0] == []; FlatNone(); }
    for i := 0 to |images|
      invariant f.AtEnd() && f.data == old(f.data) + Flat(images[..i])
    {
      AppendImage(f, images[i]);
      FlatSnoc(images, i);
    }
    assert images[..|images|] == images;
  }

  // ---------------------------------------------------------------- the script

  lemma NoDownstream(md: Metadata)
    requires md.revision < 2
    ensures DownstreamsOk(md) && DownstreamArea(md) == []
  {
  }

  /** Header information and identification areas, with the package header size still zero. */
  method WriteIdentification(f: PackageFile, md: Metadata) returns (ok: bool)
    requires f.data == [] && f.AtEnd()
    modifies f
    ensures ok == (1 <= md.revision <= 4 && |md.components| <= 32 && Text(md.version) && DevicesOk(md)
                   && DownstreamsOk(md))
    ensures ok ==> f.AtEnd() && f.data == HeaderInfo(md, 0) + DeviceArea(md) + DownstreamArea(md)
  {
    hide DevicesOk, DownstreamsOk, HeaderInfo, DeviceArea, DownstreamArea;
    var bitmapBits;
    ok, bitmapBits := WritePkgHeaderInfo(f, md);
    if !ok { return; }
    ok := 1 <= md.revision <= 4;
    if !ok { return; }
    ok := WriteFwDeviceIdentificationArea(f, md, bitmapBits);
    if !ok { return; }
    if md.revision >= 2 {
      ok := WriteDownstreamDeviceIdentificationArea(f, md, bitmapBits);
    } else {
      NoDownstream(md);
    }
  }

  lemma StartIsHeaderLength(md: Metadata)
    requires MetadataOk(md)
    ensures ImagesStart(md, |HeaderInfo(md, 0) + DeviceArea(md) + DownstreamArea(md)|) == HeaderLength(md)
  {
    hide DevicesOk, DownstreamsOk, ComponentsOk, HeaderInfo, DeviceArea, DownstreamArea, ComponentArea;
  }

  lemma JoinFields(md: Metadata, places: seq<Place>)
    requires MetadataOk(md) && |places| == |md.components|
    ensures HeaderInfo(md, 0) + DeviceArea(md) + DownstreamArea(md) + ComponentArea(md, places) == Fields(md, 0, places)
  {
    hide DevicesOk, DownstreamsOk, ComponentsOk, HeaderInfo, DeviceArea, DownstreamArea, ComponentArea;
  }

  /** Everything in front of the checksums, with the component places patched and the size still zero. */
  method WriteFields(f: PackageFile, md: Metadata, images: seq<Data>) returns (ok: bool)
    requires f.data == [] && f.AtEnd() && |images| == |md.components|
    modifies f
    ensures ok == (MetadataOk(md) && PlacesFit(Places(HeaderLength(md), images)))
    ensures ok ==> f.AtEnd() && f.data == Fields(md, 0, Places(HeaderLength(md), images))
  {
    hide DevicesOk, DownstreamsOk, ComponentOk, PlacesFit, Places, HeaderInfo, DeviceArea, DownstreamArea,
      ComponentArea,
      Fields, HeaderLength, ImagesStart;
    ok := WriteIdentification(f, md);
    if !ok { return; }
    ok := WriteComponentImageInfoArea(f, md, images);
    if ComponentsOk(md.components) {
      StartIsHeaderLength(md);
      if ok {
        JoinFields(md, Places(HeaderLength(md), images));
      }
    }
  }

  /** Checksums over what is written so far, then the images. */
  method WriteBehindFields(f: PackageFile, revision: int, images: seq<Data>)
    requires f.AtEnd()
    modifies f
    ensures f.data == Seal(revision, old(f.data), images)
  {
    hide Crc32.Checksum, Flat, Le, Overwrite;
    WritePkgHeaderChecksum(f);
    if revision >= 4 {
      WritePkgPayloadChecksum(f, images);
    }
    AppendComponentImages(f, images);
  }

  /** The package file that is left behind, or none when the script stops with an error and removes it. */
  method CreatePackage(md: Metadata, images: seq<Data>) returns (package: Option<Data>)
    ensures package == if Accepted(md, images) then Some(Package(md, images)) else None
  {
    hide MetadataOk, Places, PlacesFit, Fields, HeaderLength, Seal, Le, Overwrite;
    package := None;
    if images == [] || |images| != |md.components| { return; }
    var f := new PackageFile();
    var ok := WriteFields(f, md, images);
    if !ok { return; }
    FieldsLength(md, 0, Places(HeaderLength(md), images));
    FieldsAreRecords(md, Places(HeaderLength(md), images));
    ok := UpdatePkgHeaderSize(f, md.revision);
    if !ok { return; }
    WriteBehindFields(f, md.revision, images);
    package := Some(f.data);
  }
}
