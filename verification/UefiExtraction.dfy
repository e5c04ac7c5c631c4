/** What the walker extracts: on every image only a matching file's payload, on a well-formed image exactly the
    first one. */
module UefiExtraction {
  import opened Bytes
  import opened UefiFv

  // ---------------------------------------------------------------- any image

  /** {8C8CE578-8A3D-4F1C-9935-896185C32DD3}: three little-endian fields, then eight bytes. */
  function Ffs2Guid(): (guid: Data)
    ensures |guid| == 16
  {
    Le(0x8C8C_E578, 4) + (Le(0x8A3D, 2) + (Le(0x4F1C, 2) + [0x99, 0x35, 0x89, 0x61, 0x85, 0xC3, 0x2D, 0xD3]))
  }

  lemma Ffs2GuidBytes()
    ensures Ffs2Guid() == FFS2_GUID
  {
    TwoBytes(0x8A3D);
    TwoBytes(0x4F1C);
    FourBytes(0x8C8C_E578);
    hide Le;
  }

  lemma FourBytes(n: nat)
    requires n < 0x1_0000_0000
    ensures Le(n, 4) == [n % 256, n / 256 % 256, n / 0x1_0000 % 256, n / 0x100_0000]
  {
    assert Le(n, 4) == [n % 256] + ([n / 256 % 256] + Le(n / 256 / 256, 2));
    assert n / 256 / 256 == n / 0x1_0000 && n / 0x1_0000 / 256 == n / 0x100_0000;
    TwoBytes(n / 0x1_0000);
  }

  lemma SignatureBytes()
    ensures Le(FVH_SIGNATURE, 4) == Ascii("_FVH")
  {
    FourBytes(FVH_SIGNATURE);
    hide Le;
  }

  /** The signature field read as a number. */
  lemma Signature(field: Data)
    requires |field| == 4
    ensures FromLe(field) == FVH_SIGNATURE <==> field == Ascii("_FVH")
  {
    hide Le, FromLe, Ascii;
    SignatureBytes();
    Widths();
    LeInverse(FVH_SIGNATURE, 4);
    FromLeInverse(field);
  }

  /** An FFS2 volume called `fvGuid` starts at `v`. */
  predicate VolumeAt(rom: Data, v: nat, fvGuid: Data) {
    && v % 0x1_0000 == 0 && v + 56 <= |rom|
    && var header := rom[v..v + 56];
    && header[40..44] == Ascii("_FVH") && header[16..32] == Ffs2Guid() && Field(header, 52, 2) != 0
    && var ext := v + Field(header, 52, 2);
    && ext + 20 <= |rom| && rom[ext..ext + 16] == fvGuid
  }

  /** Where the file list of the volume at `v` begins. */
  function ListStart(rom: Data, v: nat): nat
    requires v + 56 <= |rom|
    requires v + Field(rom[v..v + 56], 52, 2) + 20 <= |rom|
  {
    var ext := v + Field(rom[v..v + 56], 52, 2);
    ext + FromLe(rom[ext + 16..ext + 20])
  }

  /** What is stripped from the file at `f`: from a free-form file with a section in it 4 bytes of a raw section or 20
      of a GUID-defined one, and nothing from any other file. */
  function Strip(rom: Data, f: nat): nat
    requires f + 24 <= |rom|
  {
    var header, section := rom[f..f + 24], f + 24 + 3;
    if header[18] != 0x02 || Field(header, 20, 3) <= 24 + 4 then 0
    else if section >= |rom| then 0
    else if rom[section] == 0x19 then 4
    else if rom[section] == 0x02 then 20
    else 0
  }

  /** A wanted file starts at `f`, and `data` is all of it behind the file header and what is stripped. */
  predicate FileAt(rom: Data, f: nat, fileGuid: Data, data: Data) {
    && f % 8 == 0 && f + 24 <= |rom|
    && var header := rom[f..f + 24];
    && header[..16] == fileGuid && header[19] % 2 == 0
    && 24 + Strip(rom, f) <= Field(header, 20, 3) <= |rom| - f
    && data == rom[f + 24 + Strip(rom, f)..f + Field(header, 20, 3)]
  }

  lemma PayloadIsSlice(rom: Data, f: nat, fileGuid: Data)
    requires f % 8 == 0 && f + 24 <= |rom|
    requires Field(rom[f..f + 24], 20, 3) >= 24
    requires Wanted(rom[f..f + 24], fileGuid)
    requires ReadPayload(rom, f, rom[f..f + 24]).Bytes?
    ensures FileAt(rom, f, fileGuid, ReadPayload(rom, f, rom[f..f + 24]).data)
  {
    hide FromLe;
  }

  /** The bound is checked before the alignment, so the last header may reach up to six bytes beyond the end. */
  lemma {:induction false} WalkFindsFile(rom: Data, fileOffset: nat, fvEnd: nat, fileGuid: Data) returns (f: nat)
    requires WalkFiles(rom, fileOffset, fvEnd, fileGuid).Found?
    ensures fileOffset <= f && f + 24 <= fvEnd + 6
    ensures FileAt(rom, f, fileGuid, WalkFiles(rom, fileOffset, fvEnd, fileGuid).data)
    decreases if fileOffset <= |rom| then |rom| - fileOffset else 0
  {
    hide FromLe, FileAt, ReadPayload, AllFf;
    f := Align8(fileOffset);
    var header := rom[f..f + 24];
    if Wanted(header, fileGuid) {
      PayloadIsSlice(rom, f, fileGuid);
    } else {
      f := WalkFindsFile(rom, f + Field(header, 20, 3), fvEnd, fileGuid);
    }
  }

  /** A file starts in the file list of the volume at `v`: behind the extended header, in front of the volume's end. */
  predicate InVolume(rom: Data, romSize: nat, v: nat, f: nat)
    requires v + 56 <= |rom|
    requires v + Field(rom[v..v + 56], 52, 2) + 20 <= |rom|
  {
    var length := Field(rom[v..v + 56], 32, 8);
    ListStart(rom, v) <= f && f + 18 <= v + length && f + 18 <= romSize
  }

  lemma {:induction false} ScanFindsFile(rom: Data, romSize: nat, fvOffset: nat, fvGuid: Data, fileGuid: Data)
    returns (v: nat, f: nat)
    requires fvOffset % 0x1_0000 == 0 && ScanVolumes(rom, romSize, fvOffset, fvGuid, fileGuid) != []
    ensures fvOffset <= v && VolumeAt(rom, v, fvGuid) && InVolume(rom, romSize, v, f)
    ensures FileAt(rom, f, fileGuid, ScanVolumes(rom, romSize, fvOffset, fvGuid, fileGuid))
    decreases if fvOffset <= romSize then romSize - fvOffset else 0
  {
    hide FromLe, FileAt, WalkFiles, Ffs2Guid, Ascii;
    var header := rom[fvOffset..fvOffset + 56];
    Ffs2GuidBytes();
    Signature(header[40..44]);
    if Field(header, 40, 4) != FVH_SIGNATURE {
      v, f := ScanFindsFile(rom, romSize, fvOffset + 0x1_0000, fvGuid, fileGuid);
    } else {
      var next := fvOffset + VolumeStep(Field(header, 32, 8));
      var ext := fvOffset + Field(header, 52, 2);
      if !HasExtHeader(header) || rom[ext..ext + 16] != fvGuid {
        v, f := ScanFindsFile(rom, romSize, next, fvGuid, fileGuid);
      } else {
        var start, end := ext + FromLe(rom[ext + 16..ext + 20]), FvEnd(romSize, fvOffset, header);
        if WalkFiles(rom, start, end, fileGuid).Found? {
          v := fvOffset;
          f := WalkFindsFile(rom, start, end, fileGuid);
        } else {
          v, f := ScanFindsFile(rom, romSize, next, fvGuid, fileGuid);
        }
      }
    }
  }

  /** Whatever the bytes, a non-empty result is the payload of a file with the wanted GUID, less exactly its section
      header, and the file starts 8-byte aligned inside the file list of an FFS2 volume with the wanted name on a
      64 KiB boundary. */
  lemma ExtractedIsWanted(rom: Data, romSize: nat, fvGuid: Data, fileGuid: Data) returns (v: nat, f: nat)
    requires ScanVolumes(rom, romSize, 0, fvGuid, fileGuid) != []
    ensures VolumeAt(rom, v, fvGuid) && InVolume(rom, romSize, v, f)
    ensures FileAt(rom, f, fileGuid, ScanVolumes(rom, romSize, 0, fvGuid, fileGuid))
  {
    v, f := ScanFindsFile(rom, romSize, 0, fvGuid, fileGuid);
  }

  // ---------------------------------------------------------------- well-formed images

  datatype File = File(name: Data, kind: byte, attributes: byte, body: Data)

  /** What the 64 KiB blocks of an image are taken up by. */
  datatype Item =
    | Gap(block: Data)
    | OtherVolume(length: nat, guid: Data, extHeader: nat)
    | Volume(length: nat, name: Data, files: seq<File>)

  /** The files lie one behind the other, 8-byte aligned, up to a header of FF bytes or the volume's end. */
  predicate HoldsFiles(rom: Data, offset: nat, end: nat, files: seq<File>)
    decreases |files|
  {
    var at := Align8(offset);
    if files == [] then
      offset + 24 >= end || (at + 24 <= |rom| && AllFf(rom[at..at + 16]))
    else
      var file := files[0];
      var size := 24 + |file.body|;
      && offset + 24 < end && at + size <= |rom|
      && var header := rom[at..at + 24];
      && header[..16] == file.name && !AllFf(file.name)
      && header[18] == file.kind && header[19] == file.attributes
      && Field(header, 20, 3) == size
      && rom[at + 24..at + size] == file.body
      && HoldsFiles(rom, at + size, end, files[1..])
  }

  predicate HoldsVolume(rom: Data, romSize: nat, offset: nat, volume: Item)
    requires volume.Volume? && offset + 56 <= |rom|
  {
    var header := rom[offset..offset + 56];
    var ext := offset + Field(header, 52, 2);
    && HasExtHeader(header) && ext + 20 <= |rom| && rom[ext..ext + 16] == volume.name
    && HoldsFiles(rom, ext + FromLe(rom[ext + 16..ext + 20]), FvEnd(romSize, offset, header), volume.files)
  }

  predicate HoldsItems(rom: Data, romSize: nat, offset: nat, items: seq<Item>)
    decreases |items|
  {
    if items == [] then offset + 56 >= romSize
    else
      && offset + 56 < romSize && offset + 56 <= |rom|
      && var header := rom[offset..offset + 56];
      match items[0]
      case Gap(_) =>
        Field(header, 40, 4) != FVH_SIGNATURE && HoldsItems(rom, romSize, offset + 0x1_0000, items[1..])
      case OtherVolume(length, _, _) =>
        && Field(header, 40, 4) == FVH_SIGNATURE && Field(header, 32, 8) == length && !HasExtHeader(header)
        && HoldsItems(rom, romSize, offset + VolumeStep(length), items[1..])
      case Volume(length, _, _) =>
        && Field(header, 40, 4) == FVH_SIGNATURE && Field(header, 32, 8) == length
        && HoldsVolume(rom, romSize, offset, items[0])
        && HoldsItems(rom, romSize, offset + VolumeStep(length), items[1..])
  }

  // ---------------------------------------------------------------- what should be extracted

  predicate Matches(file: File, fileGuid: Data) {
    file.name == fileGuid && file.attributes % 2 == 0
  }

  /** The payload of a file: 4 bytes of a raw section or 20 of a GUID-defined one are stripped from a free-form
      file; a GUID-defined section with nothing behind its header has none. */
  function PayloadOf(file: File): Option<Data> {
    if file.kind == 0x02 && |file.body| > 4 then
      if file.body[3] == 0x19 then Some(file.body[4..])
      else if file.body[3] == 0x02 then
        if |file.body| <= 20 then None else Some(file.body[20..])
      else Some(file.body)
    else Some(file.body)
  }

  function FirstMatch(files: seq<File>, fileGuid: Data): Option<File> {
    if files == [] then None
    else if Matches(files[0], fileGuid) then Some(files[0])
    else FirstMatch(files[1..], fileGuid)
  }

  /** The payload of the first matching file in the first volume with the name that has one. */
  function Expected(items: seq<Item>, fvGuid: Data, fileGuid: Data): Data {
    if items == [] then []
    else
      var rest := Expected(items[1..], fvGuid, fileGuid);
      if !items[0].Volume? || items[0].name != fvGuid then rest
      else
        var file := FirstMatch(items[0].files, fileGuid);
        if file.None? || PayloadOf(file.value).None? then rest else PayloadOf(file.value).value
  }

  lemma PayloadRead(rom: Data, at: nat, file: File)
    requires at + 24 + |file.body| <= |rom|
    requires Field(rom[at..at + 24], 20, 3) == 24 + |file.body|
    requires rom[at..at + 24][18] == file.kind
    requires rom[at + 24..at + 24 + |file.body|] == file.body
    ensures ReadPayload(rom, at, rom[at..at + 24])
         == if PayloadOf(file).Some? then Bytes(PayloadOf(file).value) else TooShort
  {
    hide FromLe;
    var start, end := at + 24, at + 24 + |file.body|;
    assert forall k :: 0 <= k <= |file.body| ==> rom[start + k..end] == rom[start..end][k..];
    assert |file.body| > 4 ==> rom[start + 3] == file.body[3];
    assert file.body[0..] == file.body;
  }

  lemma {:induction false} WalkFirst(rom: Data, offset: nat, end: nat, files: seq<File>, fileGuid: Data)
    requires HoldsFiles(rom, offset, end, files)
    ensures var file := FirstMatch(files, fileGuid);
      WalkFiles(rom, offset, end, fileGuid)
      == if file.Some? && PayloadOf(file.value).Some? then Found(PayloadOf(file.value).value) else GoOn(true)
    decreases |files|
  {
    hide FromLe, ReadPayload, PayloadOf, AllFf, Align8;
    var at := Align8(offset);
    if files == [] {
      if offset + 24 < end {
        assert rom[at..at + 24][..16] == rom[at..at + 16];
      }
    } else {
      if Matches(files[0], fileGuid) {
        PayloadRead(rom, at, files[0]);
      } else {
        WalkFirst(rom, at + 24 + |files[0].body|, end, files[1..], fileGuid);
      }
    }
  }

  lemma {:induction false} ScanFirst(rom: Data, romSize: nat, offset: nat, items: seq<Item>, fvGuid: Data,
                                     fileGuid: Data)
    requires HoldsItems(rom, romSize, offset, items)
    ensures ScanVolumes(rom, romSize, offset, fvGuid, fileGuid) == Expected(items, fvGuid, fileGuid)
    decreases |items|
  {
    hide FromLe, WalkFiles, HoldsFiles, HasExtHeader, FvEnd, PayloadOf, FirstMatch;
    if items != [] {
      var header := rom[offset..offset + 56];
      match items[0] {
        case Gap(_) => ScanFirst(rom, romSize, offset + 0x1_0000, items[1..], fvGuid, fileGuid);
        case OtherVolume(length, _, _) =>
          ScanFirst(rom, romSize, offset + VolumeStep(length), items[1..], fvGuid, fileGuid);
        case Volume(length, name, files) =>
          var ext := offset + Field(header, 52, 2);
          WalkFirst(rom, ext + FromLe(rom[ext + 16..ext + 20]), FvEnd(romSize, offset, header), files, fileGuid);
          ScanFirst(rom, romSize, offset + VolumeStep(length), items[1..], fvGuid, fileGuid);
      }
    }
  }

  /** On an image made of gaps, other volumes and FFS2 volumes, the walker extracts exactly what is expected. */
  lemma ExtractsFirst(rom: Data, romSize: nat, items: seq<Item>, fvGuid: Data, fileGuid: Data)
    requires HoldsItems(rom, romSize, 0, items)
    ensures ScanVolumes(rom, romSize, 0, fvGuid, fileGuid) == Expected(items, fvGuid, fileGuid)
  {
    ScanFirst(rom, romSize, 0, items, fvGuid, fileGuid);
  }
}
