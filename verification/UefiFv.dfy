/** The firmware volume walker: 64 KiB scan for FFS2 volumes, walk of the file list, section header stripped
    (UEFI PI Specification, Volume 3, section 3.2). Offsets are natural numbers. */
module UefiFv {
  import opened Bytes
  import opened Stream

  const FV_HEADER_SIZE := 56
  const EXT_HEADER_SIZE := 20
  const FILE_HEADER_SIZE := 24
  const SECTION_HEADER_SIZE := 4
  const GUID_SECTION_HEADER_SIZE := 20
  const VOLUME_ALIGN := 0x1_0000

  const FVH_SIGNATURE := 0x4856_465F
  const FILE_TYPE_FREEFORM: byte := 0x02
  const SECTION_RAW: byte := 0x19
  const SECTION_GUID_DEFINED: byte := 0x02

  /** {8C8CE578-8A3D-4F1C-9935-896185C32DD3} as it lies in memory. */
  const FFS2_GUID: Data :=
    [0x78, 0xE5, 0x8C, 0x8C, 0x3D, 0x8A, 0x1C, 0x4F, 0x99, 0x35, 0x89, 0x61, 0x85, 0xC3, 0x2D, 0xD3]

  // ---------------------------------------------------------------- headers

  /** The field of `width` bytes at `at` inside a header. */
  function Field(header: Data, at: nat, width: nat): (n: nat)
    requires at + width <= |header|
  {
    FromLe(header[at..at + width])
  }

  /** A volume length rounded up to a whole number of 64 KiB blocks, at least one. */
  function VolumeStep(fvLength: nat): (step: nat)
    ensures step > 0 && step % VOLUME_ALIGN == 0
    ensures fvLength > 0 ==> fvLength <= step < fvLength + VOLUME_ALIGN
    ensures fvLength == 0 ==> step == VOLUME_ALIGN
  {
    var up := if fvLength % VOLUME_ALIGN != 0 then fvLength / VOLUME_ALIGN * VOLUME_ALIGN + VOLUME_ALIGN else fvLength;
    if up == 0 then VOLUME_ALIGN else up
  }

  function Align8(n: nat): (a: nat)
    ensures a % 8 == 0 && n <= a < n + 8
  {
    if n % 8 != 0 then n / 8 * 8 + 8 else n
  }

  predicate AllFf(guid: Data) {
    forall i :: 0 <= i < |guid| ==> guid[i] == 0xFF
  }

  predicate Wanted(header: Data, fileGuid: Data)
    requires |header| == FILE_HEADER_SIZE
  {
    header[..16] == fileGuid && header[19] % 2 == 0
  }

  // ---------------------------------------------------------------- the walk

  /** How reading the file under a matching header ends. */
  datatype Payload = Bytes(data: Data) | Unreadable | TooShort

  function ReadPayload(rom: Data, at: nat, header: Data): Payload
    requires |header| == FILE_HEADER_SIZE && Field(header, 20, 3) >= FILE_HEADER_SIZE
  {
    var size, offset := Field(header, 20, 3) - FILE_HEADER_SIZE, at + FILE_HEADER_SIZE;
    if header[18] == FILE_TYPE_FREEFORM && size > SECTION_HEADER_SIZE then
      if offset + SECTION_HEADER_SIZE > |rom| then Unreadable
      else if rom[offset + 3] == SECTION_RAW then Slice(rom, offset + SECTION_HEADER_SIZE, size - SECTION_HEADER_SIZE)
      else if rom[offset + 3] == SECTION_GUID_DEFINED then
        if size <= GUID_SECTION_HEADER_SIZE then TooShort
        else Slice(rom, offset + GUID_SECTION_HEADER_SIZE, size - GUID_SECTION_HEADER_SIZE)
      else Slice(rom, offset, size)
    else Slice(rom, offset, size)
  }

  function Slice(rom: Data, offset: nat, size: nat): Payload {
    if offset + size <= |rom| then Bytes(rom[offset..offset + size]) else Unreadable
  }

  /** How the walk over one volume's files ends: with data, by giving up, or by going on to the next volume,
      on a stream that may have failed. */
  datatype Walk = Found(data: Data) | GiveUp | GoOn(good: bool)

  function WalkFiles(rom: Data, fileOffset: nat, fvEnd: nat, fileGuid: Data): Walk
    decreases if fileOffset <= |rom| then |rom| - fileOffset else 0
  {
    if fileOffset + FILE_HEADER_SIZE >= fvEnd then GoOn(true)
    else
      var at := Align8(fileOffset);
      if at + FILE_HEADER_SIZE > |rom| then GoOn(false)
      else
        var header := rom[at..at + FILE_HEADER_SIZE];
        if AllFf(header[..16]) || Field(header, 20, 3) < FILE_HEADER_SIZE then GoOn(true)
        else if Wanted(header, fileGuid) then
          match ReadPayload(rom, at, header)
          case Bytes(data) => Found(data)
          case Unreadable => GiveUp
          case TooShort => GoOn(true)
        else WalkFiles(rom, at + Field(header, 20, 3), fvEnd, fileGuid)
  }

  /** The header of an FFS2 volume with an extended header. */
  predicate HasExtHeader(header: Data)
    requires |header| == FV_HEADER_SIZE
  {
    header[16..32] == FFS2_GUID && Field(header, 52, 2) != 0
  }

  function FvEnd(romSize: nat, fvOffset: nat, header: Data): nat
    requires |header| == FV_HEADER_SIZE
  {
    if fvOffset + Field(header, 32, 8) > romSize then romSize else fvOffset + Field(header, 32, 8)
  }

  /** What the scan from `fvOffset` on extracts, on a stream that is good. */
  function ScanVolumes(rom: Data, romSize: nat, fvOffset: nat, fvGuid: Data, fileGuid: Data): Data
    decreases if fvOffset <= romSize then romSize - fvOffset else 0
  {
    if fvOffset + FV_HEADER_SIZE >= romSize || fvOffset + FV_HEADER_SIZE > |rom| then []
    else
      var header := rom[fvOffset..fvOffset + FV_HEADER_SIZE];
      if Field(header, 40, 4) != FVH_SIGNATURE then
        ScanVolumes(rom, romSize, fvOffset + VOLUME_ALIGN, fvGuid, fileGuid)
      else
        var next := fvOffset + VolumeStep(Field(header, 32, 8));
        if !HasExtHeader(header) then ScanVolumes(rom, romSize, next, fvGuid, fileGuid)
        else
          var ext := fvOffset + Field(header, 52, 2);
          if ext + EXT_HEADER_SIZE > |rom| then []
          else if rom[ext..ext + 16] != fvGuid then ScanVolumes(rom, romSize, next, fvGuid, fileGuid)
          else
            match WalkFiles(rom, ext + FromLe(rom[ext + 16..ext + 20]), FvEnd(romSize, fvOffset, header), fileGuid)
            case Found(data) => data
            case GiveUp => []
            case GoOn(good) => if good then ScanVolumes(rom, romSize, next, fvGuid, fileGuid) else []
  }

  // ---------------------------------------------------------------- the code

  method ReadFile(rom: InputStream, at: nat, header: Data) returns (p: Payload)
    requires rom.good && |header| == FILE_HEADER_SIZE && Field(header, 20, 3) >= FILE_HEADER_SIZE
    modifies rom
    ensures p == ReadPayload(rom.data, at, header)
    ensures p.TooShort? ==> rom.good
  {
    var dataSize := Field(header, 20, 3) - FILE_HEADER_SIZE;
    var dataOffset := at + FILE_HEADER_SIZE;
    if header[18] == FILE_TYPE_FREEFORM && dataSize > SECTION_HEADER_SIZE {
      rom.Seek(dataOffset);
      var section := rom.Read(SECTION_HEADER_SIZE);
      if !rom.good { return Unreadable; }
      if section[3] == SECTION_RAW {
        dataOffset := dataOffset + SECTION_HEADER_SIZE;
        dataSize := dataSize - SECTION_HEADER_SIZE;
      } else if section[3] == SECTION_GUID_DEFINED {
        if dataSize <= GUID_SECTION_HEADER_SIZE { return TooShort; }
        dataOffset := dataOffset + GUID_SECTION_HEADER_SIZE;
        dataSize := dataSize - GUID_SECTION_HEADER_SIZE;
      }
    }
    rom.Seek(dataOffset);
    var data := rom.Read(dataSize);
    if !rom.good { return Unreadable; }
    return Bytes(data);
  }

  method WalkVolume(rom: InputStream, start: nat, fvEnd: nat, fileGuid: Data) returns (walk: Walk)
    requires rom.good
    modifies rom
    ensures walk == WalkFiles(rom.data, start, fvEnd, fileGuid)
    ensures walk.GoOn? ==> rom.good == walk.good
  {
    hide FromLe, AllFf, Align8, ReadPayload;
    var fileOffset := start;
    while fileOffset + FILE_HEADER_SIZE < fvEnd
      invariant rom.good
      invariant WalkFiles(rom.data, fileOffset, fvEnd, fileGuid) == WalkFiles(rom.data, start, fvEnd, fileGuid)
      decreases if fileOffset <= |rom.data| then |rom.data| - fileOffset else 0
    {
      var at := Align8(fileOffset);
      rom.Seek(at);
      var header := rom.Read(FILE_HEADER_SIZE);
      if !rom.good { return GoOn(false); }
      if AllFf(header[..16]) { return GoOn(true); }
      var fileSize := Field(header, 20, 3);
      if fileSize < FILE_HEADER_SIZE { return GoOn(true); }
      if Wanted(header, fileGuid) {
        var p := ReadFile(rom, at, header);
        match p {
          case Bytes(data) => return Found(data);
          case Unreadable => return GiveUp;
          case TooShort => return GoOn(true);
        }
      }
      fileOffset := at + fileSize;
    }
    return GoOn(true);
  }

  lemma ExtHeaderFields(rom: Data, ext: nat)
    requires ext + EXT_HEADER_SIZE <= |rom|
    ensures var header := rom[ext..ext + EXT_HEADER_SIZE];
      header[..16] == rom[ext..ext + 16] && header[16..20] == rom[ext + 16..ext + 20]
  {
    SliceOfSlice(rom, ext, EXT_HEADER_SIZE, 0, 16);
    SliceOfSlice(rom, ext, EXT_HEADER_SIZE, 16, 4);
    assert rom[ext..ext + EXT_HEADER_SIZE][0..16] == rom[ext..ext + EXT_HEADER_SIZE][..16];
  }

  method ExtractFfsFile(rom: InputStream, romSize: nat, fvGuid: Data, fileGuid: Data) returns (data: Data)
    requires rom.good
    modifies rom
    ensures data == ScanVolumes(rom.data, romSize, 0, fvGuid, fileGuid)
  {
    hide FromLe, WalkFiles, HasExtHeader, FvEnd, Field, VolumeStep;
    var fvOffset := 0;
    ghost var result := ScanVolumes(rom.data, romSize, 0, fvGuid, fileGuid);
    while fvOffset + FV_HEADER_SIZE < romSize
      invariant rom.good ==> result == ScanVolumes(rom.data, romSize, fvOffset, fvGuid, fileGuid)
      invariant !rom.good ==> result == []
      decreases romSize - fvOffset
    {
      rom.Seek(fvOffset);
      var header := rom.Read(FV_HEADER_SIZE);
      if !rom.good { break; }
      if Field(header, 40, 4) != FVH_SIGNATURE {
        fvOffset := fvOffset + VOLUME_ALIGN;
        continue;
      }
      var fvLen := VolumeStep(Field(header, 32, 8));
      if !HasExtHeader(header) {
        fvOffset := fvOffset + fvLen;
        continue;
      }
      var ext := fvOffset + Field(header, 52, 2);
      rom.Seek(ext);
      var extHeader := rom.Read(EXT_HEADER_SIZE);
      if !rom.good {
        fvOffset := fvOffset + fvLen;
        continue;
      }
      ExtHeaderFields(rom.data, ext);
      if extHeader[..16] != fvGuid {
        fvOffset := fvOffset + fvLen;
        continue;
      }
      var walk := WalkVolume(rom, ext + FromLe(extHeader[16..20]), FvEnd(romSize, fvOffset, header), fileGuid);
      match walk {
        case Found(found) => return found;
        case GiveUp => return [];
        case GoOn(_) =>
      }
      fvOffset := fvOffset + fvLen;
    }
    return [];
  }
}
