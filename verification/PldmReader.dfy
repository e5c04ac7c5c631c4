/** A reader of firmware update packages, following the package header of DSP0267 (package header information,
    firmware device identification area, downstream device identification area, component image information
    area). It finds its way by the counts and lengths in the bytes alone, takes each record to be exactly as
    long as its RecordLength says, and finds each image by the offset and size recorded for it. */
module PldmReader {
  import opened Bytes
  import F = FrameCheck

  datatype Date = Date(
    utcOffset: nat, microsecond: nat, second: nat, minute: nat, hour: nat, day: nat, month: nat, year: nat,
    resolution: nat)

  datatype Descriptor =
    | Standard(kind: nat, data: Data)
    | Vendor(titleType: nat, title: Data, data: Data)

  datatype Device = Device(
    options: seq<bool>, versionType: nat, version: Data, applicable: seq<bool>, descriptors: seq<Descriptor>,
    packageData: Data, manifest: Data)

  datatype Downstream = Downstream(
    options: seq<bool>, minVersionType: nat, minVersion: Data, minStamp: Option<nat>, applicable: seq<bool>,
    descriptors: seq<Descriptor>, packageData: Data, manifest: Data)

  datatype Component = Component(
    classification: nat, identifier: nat, stamp: nat, options: seq<bool>, activation: seq<bool>,
    versionType: nat, version: Data, opaqueData: Data, image: Data)

  datatype Package = Package(
    identifier: Data, revision: nat, headerSize: nat, released: Date, versionType: nat, version: Data,
    devices: seq<Device>, downstream: seq<Downstream>, components: seq<Component>)

  // ---------------------------------------------------------------- package header information

  function ReadDate(b: Data): Option<(Date, Data)> {
    var (utcOffset, b) :- TakeLe(b, 2);
    var (microsecond, b) :- TakeLe(b, 3);
    var (second, b) :- TakeLe(b, 1);
    var (minute, b) :- TakeLe(b, 1);
    var (hour, b) :- TakeLe(b, 1);
    var (day, b) :- TakeLe(b, 1);
    var (month, b) :- TakeLe(b, 1);
    var (year, b) :- TakeLe(b, 2);
    var (resolution, b) :- TakeLe(b, 1);
    Some((Date(utcOffset, microsecond, second, minute, hour, day, month, year, resolution), b))
  }

  datatype Info = Info(
    identifier: Data, revision: nat, headerSize: nat, released: Date, bitmapBits: nat, versionType: nat,
    version: Data)

  const IDENTIFIER_SIZE := 16

  /** The package header information behind an identifier of `n` bytes. */
  function ReadInfo(n: nat, b: Data): Option<(Info, Data)> {
    var (identifier, b) :- Take(b, n);
    var (revision, b) :- TakeLe(b, 1);
    var (headerSize, b) :- TakeLe(b, 2);
    var (released, b) :- ReadDate(b);
    var (bitmapBits, b) :- TakeLe(b, 2);
    var (versionType, b) :- TakeLe(b, 1);
    var (versionLength, b) :- TakeLe(b, 1);
    var (version, b) :- Take(b, versionLength);
    Some((Info(identifier, revision, headerSize, released, bitmapBits, versionType, version), b))
  }

  // ---------------------------------------------------------------- identification areas

  /** How many bytes each descriptor type has: PCI and IANA and UUID and PnP and ACPI identifiers, and the additional
      ones. */
  const DESCRIPTOR_LENGTHS: map<nat, nat> :=
    map[0x0000 := 2, 0x0001 := 4, 0x0002 := 16, 0x0003 := 3, 0x0004 := 4, 0x0005 := 3, 0x0006 := 8,
        0x0100 := 2, 0x0101 := 2, 0x0102 := 2, 0x0103 := 1, 0x0104 := 4, 0x0105 := 4, 0x0106 := 40, 0x0107 := 10,
        0x0108 := 16, 0x0109 := 4, 0x010A := 8, 0x010B := 2]

  function ReadDescriptor(b: Data): Option<(Descriptor, Data)> {
    var (kind, b) :- TakeLe(b, 2);
    var (length, b) :- TakeLe(b, 2);
    var (value, rest) :- Take(b, length);
    if kind == 0xFFFF then
      var (titleType, v) :- TakeLe(value, 1);
      var (titleLength, v) :- TakeLe(v, 1);
      var (title, data) :- Take(v, titleLength);
      Some((Vendor(titleType, title, data), rest))
    else if kind in DESCRIPTOR_LENGTHS && DESCRIPTOR_LENGTHS[kind] == length then
      Some((Standard(kind, value), rest))
    else None
  }

  function ReadDescriptors(count: nat, b: Data): Option<(seq<Descriptor>, Data)> {
    if count == 0 then Some(([], b))
    else
      var (d, b) :- ReadDescriptor(b);
      var (ds, b) :- ReadDescriptors(count - 1, b);
      Some(([d] + ds, b))
  }

  /** The 4-byte manifest length exists from format revision 4 on. */
  function ReadManifestLength(revision: nat, b: Data): Option<(nat, Data)> {
    if revision >= 4 then TakeLe(b, 4) else Some((0, b))
  }

  /** Splits off one record, whose first two bytes hold its whole length. */
  function TakeRecord(b: Data): Option<(Data, Data)> {
    var (length, _) :- TakeLe(b, 2);
    var (record, rest) :- Take(b, length);
    var (_, body) :- Take(record, 2);
    Some((body, rest))
  }

  /** The fixed fields that open every identification record. */
  datatype Counts = Counts(
    descriptors: nat, options: seq<bool>, textType: nat, textLength: nat, packageData: nat, manifest: nat)

  function ReadCounts(revision: nat, b: Data): (r: Option<(Counts, Data)>)
    ensures r.Some? ==> |r.value.0.options| == 32
  {
    var (descriptors, b) :- TakeLe(b, 1);
    var (options, b) :- TakeLe(b, 4);
    var (textType, b) :- TakeLe(b, 1);
    var (textLength, b) :- TakeLe(b, 1);
    var (packageData, b) :- TakeLe(b, 2);
    var (manifest, b) :- ReadManifestLength(revision, b);
    Some((Counts(descriptors, NatToBits(options, 32), textType, textLength, packageData, manifest), b))
  }

  function ReadDeviceBody(revision: nat, bitmapBits: nat, b: Data): Option<Device> {
    var (counts, b) :- ReadCounts(revision, b);
    var (applicable, b) :- Take(b, bitmapBits / 8);
    var (version, b) :- Take(b, counts.textLength);
    var (descriptors, b) :- ReadDescriptors(counts.descriptors, b);
    var (packageData, b) :- Take(b, counts.packageData);
    var (manifest, b) :- Take(b, counts.manifest);
    if b != [] then None else
    Some(Device(counts.options, counts.textType, version, UnpackBits(applicable), descriptors, packageData, manifest))
  }

  function ReadDevices(count: nat, revision: nat, bitmapBits: nat, b: Data): Option<(seq<Device>, Data)> {
    if count == 0 then Some(([], b))
    else
      var (body, b) :- TakeRecord(b);
      var d :- ReadDeviceBody(revision, bitmapBits, body);
      var (ds, b) :- ReadDevices(count - 1, revision, bitmapBits, b);
      Some(([d] + ds, b))
  }

  /** The comparison stamp is present when bit 0 of the update option flags is set. */
  function ReadMinStamp(options: seq<bool>, b: Data): Option<(Option<nat>, Data)>
    requires |options| == 32
  {
    if options[0] then
      var (stamp, b) :- TakeLe(b, 4);
      Some((Some(stamp), b))
    else
      Some((None, b))
  }

  function ReadDownstreamBody(revision: nat, bitmapBits: nat, b: Data): Option<Downstream> {
    var (counts, b) :- ReadCounts(revision, b);
    var (applicable, b) :- Take(b, bitmapBits / 8);
    var (minVersion, b) :- Take(b, counts.textLength);
    var (minStamp, b) :- ReadMinStamp(counts.options, b);
    var (descriptors, b) :- ReadDescriptors(counts.descriptors, b);
    var (packageData, b) :- Take(b, counts.packageData);
    var (manifest, b) :- Take(b, counts.manifest);
    if b != [] then None else
    Some(Downstream(counts.options, counts.textType, minVersion, minStamp, UnpackBits(applicable), descriptors,
                    packageData, manifest))
  }

  function ReadDownstreams(count: nat, revision: nat, bitmapBits: nat, b: Data): Option<(seq<Downstream>, Data)> {
    if count == 0 then Some(([], b))
    else
      var (body, b) :- TakeRecord(b);
      var d :- ReadDownstreamBody(revision, bitmapBits, body);
      var (ds, b) :- ReadDownstreams(count - 1, revision, bitmapBits, b);
      Some(([d] + ds, b))
  }

  function ReadDeviceArea(info: Info, b: Data): Option<(seq<Device>, Data)> {
    var (count, b) :- TakeLe(b, 1);
    ReadDevices(count, info.revision, info.bitmapBits, b)
  }

  /** The downstream area exists from format revision 2 on. */
  function ReadDownstreamArea(info: Info, b: Data): Option<(seq<Downstream>, Data)> {
    if info.revision < 2 then Some(([], b))
    else
      var (count, b) :- TakeLe(b, 1);
      ReadDownstreams(count, info.revision, info.bitmapBits, b)
  }

  // ---------------------------------------------------------------- component image information

  function ReadOpaque(revision: nat, b: Data): Option<(Data, Data)> {
    if revision >= 3 then
      var (length, b) :- TakeLe(b, 4);
      Take(b, length)
    else
      Some(([], b))
  }

  /** The bytes of the package that a recorded offset and size stand for. */
  function Slice(package: Data, offset: nat, size: nat): Option<Data> {
    if offset + size <= |package| then Some(package[offset..offset + size]) else None
  }

  datatype ComponentInfo = ComponentInfo(
    classification: nat, identifier: nat, stamp: nat, options: seq<bool>, activation: seq<bool>)

  function ReadComponentInfo(b: Data): Option<(ComponentInfo, Data)> {
    var (classification, b) :- TakeLe(b, 2);
    var (identifier, b) :- TakeLe(b, 2);
    var (stamp, b) :- TakeLe(b, 4);
    var (options, b) :- TakeLe(b, 2);
    var (activation, b) :- TakeLe(b, 2);
    Some((ComponentInfo(classification, identifier, stamp, NatToBits(options, 16), NatToBits(activation, 16)), b))
  }

  datatype Placed = Placed(offset: nat, size: nat, versionType: nat, version: Data, opaqueData: Data)

  function ReadPlaced(revision: nat, b: Data): Option<(Placed, Data)> {
    var (offset, b) :- TakeLe(b, 4);
    var (size, b) :- TakeLe(b, 4);
    var (versionType, b) :- TakeLe(b, 1);
    var (versionLength, b) :- TakeLe(b, 1);
    var (version, b) :- Take(b, versionLength);
    var (opaqueData, b) :- ReadOpaque(revision, b);
    Some((Placed(offset, size, versionType, version, opaqueData), b))
  }

  function ReadComponent(package: Data, revision: nat, b: Data): Option<(Component, Data)> {
    var (info, b) :- ReadComponentInfo(b);
    var (placed, b) :- ReadPlaced(revision, b);
    var image :- Slice(package, placed.offset, placed.size);
    Some((Component(info.classification, info.identifier, info.stamp, info.options, info.activation,
                    placed.versionType, placed.version, placed.opaqueData, image), b))
  }

  function ReadComponents(count: nat, package: Data, revision: nat, b: Data): Option<(seq<Component>, Data)> {
    if count == 0 then Some(([], b))
    else
      var (c, b) :- ReadComponent(package, revision, b);
      var (cs, b) :- ReadComponents(count - 1, package, revision, b);
      Some(([c] + cs, b))
  }

  function ReadComponentArea(package: Data, info: Info, b: Data): Option<(seq<Component>, Data)> {
    var (count, b) :- TakeLe(b, 2);
    ReadComponents(count, package, info.revision, b)
  }

  // ---------------------------------------------------------------- checksums and the whole package

  /** Both checksums hold and the header is as long as the package says; the rest is payload. */
  predicate Intact(package: Data, info: Info, b: Data)
    requires |b| <= |package|
  {
    var fields := package[..|package| - |b|];
    match TakeLe(b, 4)
    case None => false
    case Some((headerChecksum, b1)) =>
      && headerChecksum == F.FrameCheckSequence(fields)
      && if info.revision >= 4 then
        match TakeLe(b1, 4)
        case None => false
        case Some((payloadChecksum, payload)) =>
          && payloadChecksum == F.FrameCheckSequence(payload)
          && |package| - |payload| == info.headerSize
      else
        |package| - |b1| == info.headerSize
  }

  /** A reader that is told how long the identifier is. */
  function ReadPackageFrom(n: nat, package: Data): Option<Package> {
    var (info, b) :- ReadInfo(n, package);
    var (devices, b) :- ReadDeviceArea(info, b);
    var (downstream, b) :- ReadDownstreamArea(info, b);
    var (components, b) :- ReadComponentArea(package, info, b);
    if |b| > |package| || !Intact(package, info, b) then None else
    Some(Package(info.identifier, info.revision, info.headerSize, info.released, info.versionType, info.version,
                 devices, downstream, components))
  }

  /** The reader of DSP0267, for which the identifier has 16 bytes. */
  function ReadPackage(package: Data): Option<Package> {
    ReadPackageFrom(IDENTIFIER_SIZE, package)
  }
}
