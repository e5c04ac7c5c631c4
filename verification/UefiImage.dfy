/** Firmware images laid out from their parts, and that the walker finds the parts again. */
module UefiImage {
  import opened Bytes
  import opened UefiFv
  import opened UefiExtraction

  // ---------------------------------------------------------------- laying out an image

  function Ones(n: nat): (b: Data)
    ensures |b| == n && forall i :: 0 <= i < n ==> b[i] == 0xFF
  {
    seq(n, _ => 0xFF)
  }

  predicate WellFormedFile(file: File) {
    |file.name| == 16 && !AllFf(file.name) && 24 + |file.body| < 0x100_0000
  }

  predicate Aligned(n: nat) {
    n % 8 == 0
  }

  /** Header and body, filled up to a multiple of eight. */
  function PrintFile(file: File): (b: Data)
    requires WellFormedFile(file)
    ensures Aligned(|b|)
  {
    var size := 24 + |file.body|;
    file.name + ([0, 0, file.kind, file.attributes] + (Le(size, 3) + ([0xF8] + (file.body + Ones((8 - size % 8) % 8)))))
  }

  predicate AllWellFormed(files: seq<File>) {
    forall i :: 0 <= i < |files| ==> WellFormedFile(files[i])
  }

  lemma AlignedSum(a: nat, b: nat)
    requires Aligned(a) && Aligned(b)
    ensures Aligned(a + b)
  {
    assert a + b == 8 * (a / 8 + b / 8);
  }

  function PrintFiles(files: seq<File>): (b: Data)
    requires AllWellFormed(files)
    ensures Aligned(|b|)
  {
    if files == [] then []
    else
      AlignedSum(|PrintFile(files[0])|, |PrintFiles(files[1..])|);
      PrintFile(files[0]) + PrintFiles(files[1..])
  }

  const LIST_OFFSET := 80

  predicate WellFormedItem(item: Item) {
    match item
    case Gap(block) => |block| == 0x1_0000 && block[40..44] != Ascii("_FVH")
    case OtherVolume(length, guid, extHeader) =>
      && 56 <= length < 0x1_0000_0000 && |guid| == 16 && extHeader < 0x1_0000
      && (guid != Ffs2Guid() || extHeader == 0)
    case Volume(length, name, files) =>
      && |name| == 16 && AllWellFormed(files)
      && LIST_OFFSET + |PrintFiles(files)| + 24 <= length < 0x1_0000_0000
  }

  /** A volume header; an extended header, if there is one, starts right behind it. */
  function PrintHeader(guid: Data, length: nat, extHeader: nat): (b: Data)
    requires |guid| == 16
    ensures |b| == 56
  {
    Zeros(16) + (guid + (Le(length, 8) + (Ascii("_FVH") + (Zeros(4) + (Le(56, 2) + (Zeros(2) +
    (Le(extHeader, 2) + Zeros(2))))))))
  }

  /** The extended header takes 24 bytes, four of them unused, so that the file list starts aligned. */
  function PrintExtHeader(name: Data): (b: Data)
    requires |name| == 16
    ensures |b| == 24
  {
    name + (Le(24, 4) + Zeros(4))
  }

  /** What fills a volume of `length` bytes up to whole 64 KiB blocks, `used` of them being taken. */
  function Filling(used: nat, length: nat): (b: Data)
    requires used <= length
  {
    Ones(length - used + (0x1_0000 - length % 0x1_0000) % 0x1_0000)
  }

  function PrintItem(item: Item): Data
    requires WellFormedItem(item)
  {
    match item
    case Gap(block) => block
    case OtherVolume(length, guid, extHeader) => PrintHeader(guid, length, extHeader) + Filling(56, length)
    case Volume(length, name, files) =>
      PrintHeader(Ffs2Guid(), length, 56) +
      (PrintExtHeader(name) + (PrintFiles(files) + Filling(LIST_OFFSET + |PrintFiles(files)|, length)))
  }

  predicate AllWellFormedItems(items: seq<Item>) {
    forall i :: 0 <= i < |items| ==> WellFormedItem(items[i])
  }

  function PrintItems(items: seq<Item>): Data
    requires AllWellFormedItems(items)
  {
    if items == [] then [] else PrintItem(items[0]) + PrintItems(items[1..])
  }

  // ---------------------------------------------------------------- sizes

  lemma StepCovers(length: nat)
    requires length > 0
    ensures length + (0x1_0000 - length % 0x1_0000) % 0x1_0000 == VolumeStep(length)
  {
    var over := length % 0x1_0000;
    assert length == length / 0x1_0000 * 0x1_0000 + over;
    assert over == 0 ==> (0x1_0000 - over) % 0x1_0000 == 0;
    assert over > 0 ==> (0x1_0000 - over) % 0x1_0000 == 0x1_0000 - over;
  }

  function ItemSize(item: Item): (n: nat)
    ensures n > 0 && n % 0x1_0000 == 0
  {
    if item.Gap? then 0x1_0000 else VolumeStep(item.length)
  }

  lemma ItemLength(item: Item)
    requires WellFormedItem(item)
    ensures |PrintItem(item)| == ItemSize(item)
  {
    hide PrintHeader, PrintExtHeader, PrintFiles, AllWellFormed, VolumeStep;
    if !item.Gap? {
      StepCovers(item.length);
    }
  }

  // ---------------------------------------------------------------- the parts are where the walker looks

  lemma HeaderFields(guid: Data, length: nat, extHeader: nat)
    requires |guid| == 16 && length < 0x1_0000_0000 && extHeader < 0x1_0000
    ensures var h := PrintHeader(guid, length, extHeader);
      && h[16..32] == guid && Field(h, 32, 8) == length && Field(h, 40, 4) == FVH_SIGNATURE
      && Field(h, 52, 2) == extHeader
  {
    hide Le, FromLe;
    Widths();
    WideEnough();
    LeInverse(length, 8);
    LeInverse(extHeader, 2);
    var h := PrintHeader(guid, length, extHeader);
    Signature(h[40..44]);
    assert h[32..40] == Le(length, 8) && h[40..44] == Ascii("_FVH") && h[52..54] == Le(extHeader, 2);
  }

  lemma WideEnough()
    ensures Pow256(3) == 0x100_0000 && Pow256(8) >= 0x1_0000_0000
  {
    Widths();
    assert Pow256(6) == 0x1_0000 * Pow256(4);
    assert Pow256(8) == 0x1_0000 * Pow256(6);
    assert Pow256(3) == 256 * Pow256(2);
  }

  lemma FileFields(file: File)
    requires WellFormedFile(file)
    ensures var b, size := PrintFile(file), 24 + |file.body|;
      && size <= |b| < size + 8
      && b[..16] == file.name && b[18] == file.kind && b[19] == file.attributes
      && Field(b[..24], 20, 3) == size && b[24..size] == file.body
  {
    hide Le, FromLe, AllFf;
    WideEnough();
    var b, size := PrintFile(file), 24 + |file.body|;
    LeInverse(size, 3);
    assert b[..24][20..23] == Le(size, 3);
  }

  lemma AlignPrinted(at: nat, size: nat, printed: nat)
    requires Aligned(at) && Aligned(printed) && size <= printed < size + 8
    ensures Align8(at) == at && Align8(at + size) == at + printed
  {
  }

  /** A file is found where it was printed. */
  lemma FileHolds(rom: Data, at: nat, file: File)
    requires WellFormedFile(file) && Aligned(at) && at + |PrintFile(file)| <= |rom|
    requires rom[at..at + |PrintFile(file)|] == PrintFile(file)
    ensures var size := 24 + |file.body|;
      && size <= |PrintFile(file)| && Align8(at) == at && Align8(at + size) == at + |PrintFile(file)|
      && var header := rom[at..at + 24];
      && header[..16] == file.name && header[18] == file.kind && header[19] == file.attributes
      && Field(header, 20, 3) == size && rom[at + 24..at + size] == file.body
  {
    FileFields(file);
    AlignPrinted(at, 24 + |file.body|, |PrintFile(file)|);
    hide PrintFile, FromLe, Align8, AllFf, Aligned;
    var b, size := PrintFile(file), 24 + |file.body|;
    SliceOfSlice(rom, at, |b|, 0, 24);
    assert b[0..24] == b[..24];
    SliceOfSlice(rom, at, |b|, 24, |file.body|);
  }

  /** Where the walk goes on does not matter to the file list, as long as it aligns to the same place. */
  lemma HoldsFrom(rom: Data, offset: nat, at: nat, end: nat, files: seq<File>)
    requires offset <= at == Align8(offset) && Align8(at) == at && HoldsFiles(rom, at, end, files)
    requires files != [] ==> offset + 24 < end
    requires files == [] ==> at + 24 <= |rom| && AllFf(rom[at..at + 16])
    ensures HoldsFiles(rom, offset, end, files)
  {
    hide AllFf, FromLe;
  }

  /** The files lie one behind the other, and the free space behind them ends the list. */
  lemma {:induction false} FilesHold(rom: Data, at: nat, stop: nat, end: nat, files: seq<File>)
    requires AllWellFormed(files) && Aligned(at)
    requires stop == at + |PrintFiles(files)| && stop + 24 <= end && end <= |rom|
    requires rom[at..stop] == PrintFiles(files) && AllFf(rom[stop..stop + 16])
    ensures HoldsFiles(rom, at, end, files)
    decreases |files|
  {
    hide PrintFile, FromLe, AllFf, WellFormedFile;
    if files == [] {
      assert Align8(at) == at;
    } else {
      hide Aligned, HoldsFiles, PrintFiles, Align8;
      var next := at + |PrintFile(files[0])|;
      AlignedSum(at, |PrintFile(files[0])|);
      PrintedParts(rom, at, files);
      FilesHold(rom, next, stop, end, files[1..]);
      FileThenFiles(rom, at, stop, end, files);
    }
  }

  lemma FileThenFiles(rom: Data, at: nat, stop: nat, end: nat, files: seq<File>)
    requires AllWellFormed(files) && Aligned(at) && files != []
    requires stop == at + |PrintFiles(files)| && stop + 24 <= end && end <= |rom|
    requires rom[at..stop] == PrintFiles(files) && AllFf(rom[stop..stop + 16])
    requires HoldsFiles(rom, at + |PrintFile(files[0])|, end, files[1..])
    ensures HoldsFiles(rom, at, end, files)
  {
    hide PrintFile, FromLe, AllFf, WellFormedFile, Aligned, HoldsFiles, PrintFiles, Align8;
    var next := at + |PrintFile(files[0])|;
    PrintedParts(rom, at, files);
    FileHolds(rom, at, files[0]);
    NotAllFf(files[0]);
    RestHasRoom(rom, next, files[1..]);
    HoldsFrom(rom, at + 24 + |files[0].body|, next, end, files[1..]);
    HoldsCons(rom, at, end, files);
  }

  lemma RestHasRoom(rom: Data, at: nat, files: seq<File>)
    requires AllWellFormed(files) && at + |PrintFiles(files)| <= |rom|
    requires rom[at..at + |PrintFiles(files)|] == PrintFiles(files)
    ensures if files == [] then PrintFiles(files) == [] else |PrintFiles(files)| >= 24
  {
    hide PrintFile;
    if files != [] {
      PrintedParts(rom, at, files);
    }
  }

  /** Printed files start with the first one, go on with the others, and take at least a file header. */
  lemma PrintedParts(rom: Data, at: nat, files: seq<File>)
    requires AllWellFormed(files) && files != [] && at + |PrintFiles(files)| <= |rom|
    requires rom[at..at + |PrintFiles(files)|] == PrintFiles(files)
    ensures var n, rest := |PrintFile(files[0])|, PrintFiles(files[1..]);
      && |PrintFiles(files)| == n + |rest| && n >= 24
      && rom[at..at + n] == PrintFile(files[0]) && rom[at + n..at + n + |rest|] == rest
  {
    hide PrintFile, FromLe, AllFf, WellFormedFile, PrintFiles, Aligned;
    FileFields(files[0]);
    PrintFilesCons(files);
    JoinedSlices(rom, at, PrintFile(files[0]), PrintFiles(files[1..]));
  }

  lemma PrintFilesCons(files: seq<File>)
    requires AllWellFormed(files) && files != []
    ensures PrintFiles(files) == PrintFile(files[0]) + PrintFiles(files[1..])
  {
    hide PrintFile, WellFormedFile;
  }

  lemma NotAllFf(file: File)
    requires WellFormedFile(file)
    ensures !AllFf(file.name)
  {
  }

  lemma HoldsCons(rom: Data, at: nat, end: nat, files: seq<File>)
    requires files != [] && Align8(at) == at
    requires var file := files[0]; var size := 24 + |file.body|;
      && at + 24 < end && at + size <= |rom|
      && var header := rom[at..at + 24];
      && header[..16] == file.name && !AllFf(file.name)
      && header[18] == file.kind && header[19] == file.attributes
      && Field(header, 20, 3) == size
      && rom[at + 24..at + size] == file.body
      && HoldsFiles(rom, at + size, end, files[1..])
    ensures HoldsFiles(rom, at, end, files)
  {
    hide FromLe, AllFf;
  }

  // ---------------------------------------------------------------- volumes and whole images

  predicate Printed(rom: Data, at: nat, b: Data) {
    at + |b| <= |rom| && rom[at..at + |b|] == b
  }

  lemma VolumeParts(rom: Data, at: nat, item: Item) returns (list: nat, stop: nat)
    requires item.Volume? && WellFormedItem(item) && Printed(rom, at, PrintItem(item))
    ensures list == at + LIST_OFFSET && stop == list + |PrintFiles(item.files)|
    ensures stop + 24 <= at + item.length <= at + |PrintItem(item)| <= |rom|
    ensures rom[at..at + 56] == PrintHeader(Ffs2Guid(), item.length, 56)
    ensures rom[at + 56..list] == PrintExtHeader(item.name)
    ensures rom[list..stop] == PrintFiles(item.files) && AllFf(rom[stop..stop + 16])
  {
    hide PrintHeader, PrintExtHeader, PrintFiles, FromLe, AllWellFormed, VolumeStep, Filling;
    FillingIsFree(LIST_OFFSET + |PrintFiles(item.files)|, item.length);
    var header, ext, files := PrintHeader(Ffs2Guid(), item.length, 56), PrintExtHeader(item.name),
      PrintFiles(item.files);
    var filling := Filling(LIST_OFFSET + |files|, item.length);
    JoinedSlices(rom, at, header, ext + (files + filling));
    JoinedSlices(rom, at + 56, ext, files + filling);
    JoinedSlices(rom, at + LIST_OFFSET, files, filling);
    list, stop := at + LIST_OFFSET, at + LIST_OFFSET + |files|;
    FreeSpace(rom, stop, filling);
  }

  lemma FillingIsFree(used: nat, length: nat)
    requires used <= length
    ensures |Filling(used, length)| >= length - used
    ensures forall i :: 0 <= i < |Filling(used, length)| ==> Filling(used, length)[i] == 0xFF
  {
  }

  lemma FreeSpace(rom: Data, at: nat, free: Data)
    requires |free| >= 16 && (forall i :: 0 <= i < |free| ==> free[i] == 0xFF)
    requires at + |free| <= |rom| && rom[at..at + |free|] == free
    ensures AllFf(rom[at..at + 16])
  {
    SliceOfSlice(rom, at, |free|, 0, 16);
  }

  lemma HoldsVolumeFrom(rom: Data, at: nat, item: Item)
    requires item.Volume? && at + LIST_OFFSET <= at + item.length <= |rom|
    requires var header := rom[at..at + 56];
      && header[16..32] == FFS2_GUID && Field(header, 32, 8) == item.length && Field(header, 52, 2) == 56
    requires var ext := at + 56; rom[ext..ext + 16] == item.name && FromLe(rom[ext + 16..ext + 20]) == 24
    requires HoldsFiles(rom, at + LIST_OFFSET, at + item.length, item.files)
    ensures HoldsVolume(rom, |rom|, at, item)
  {
    hide FromLe, HoldsFiles;
  }

  lemma VolumeFiles(rom: Data, at: nat, item: Item)
    requires item.Volume? && WellFormedItem(item) && Aligned(at) && Printed(rom, at, PrintItem(item))
    ensures at + LIST_OFFSET <= at + item.length <= |rom|
    ensures HoldsFiles(rom, at + LIST_OFFSET, at + item.length, item.files)
  {
    hide PrintHeader, PrintExtHeader, PrintFiles, PrintItem, AllFf, HoldsFiles, AllWellFormed, Printed;
    assert Aligned(LIST_OFFSET);
    AlignedSum(at, LIST_OFFSET);
    hide Aligned;
    var list, stop := VolumeParts(rom, at, item);
    FilesHold(rom, list, stop, at + item.length, item.files);
  }

  lemma VolumeHeader(rom: Data, at: nat, item: Item)
    requires item.Volume? && WellFormedItem(item) && Printed(rom, at, PrintItem(item))
    ensures at + LIST_OFFSET <= |rom|
    ensures var header := rom[at..at + 56];
      && header[16..32] == FFS2_GUID && Field(header, 32, 8) == item.length && Field(header, 40, 4) == FVH_SIGNATURE
      && Field(header, 52, 2) == 56
    ensures var ext := at + 56; rom[ext..ext + 16] == item.name && FromLe(rom[ext + 16..ext + 20]) == 24
  {
    hide PrintHeader, PrintExtHeader, PrintFiles, PrintItem, AllFf, AllWellFormed, Field, FromLe, Printed;
    var list, stop := VolumeParts(rom, at, item);
    Ffs2GuidBytes();
    HeaderFields(Ffs2Guid(), item.length, 56);
    ExtFields(rom, at + 56, item.name);
  }

  lemma VolumeHolds(rom: Data, at: nat, item: Item)
    requires item.Volume? && WellFormedItem(item) && Aligned(at) && Printed(rom, at, PrintItem(item))
    ensures at + 56 <= |rom|
    ensures var header := rom[at..at + 56];
      Field(header, 40, 4) == FVH_SIGNATURE && Field(header, 32, 8) == item.length && HoldsVolume(rom, |rom|, at, item)
  {
    hide PrintItem, WellFormedItem, Field, FromLe, HoldsFiles, HoldsVolume, Aligned, Printed;
    VolumeFiles(rom, at, item);
    VolumeHeader(rom, at, item);
    HoldsVolumeFrom(rom, at, item);
  }

  lemma ExtFields(rom: Data, ext: nat, name: Data)
    requires |name| == 16 && ext + 24 <= |rom| && rom[ext..ext + 24] == PrintExtHeader(name)
    ensures rom[ext..ext + 16] == name && FromLe(rom[ext + 16..ext + 20]) == 24
  {
    hide Le, FromLe;
    Widths();
    LeInverse(24, 4);
    JoinedSlices(rom, ext, name, Le(24, 4) + Zeros(4));
    JoinedSlices(rom, ext + 16, Le(24, 4), Zeros(4));
  }

  lemma OtherHolds(rom: Data, at: nat, item: Item)
    requires item.OtherVolume? && WellFormedItem(item) && Printed(rom, at, PrintItem(item))
    ensures at + 56 <= |rom|
    ensures var header := rom[at..at + 56];
      Field(header, 40, 4) == FVH_SIGNATURE && Field(header, 32, 8) == item.length && !HasExtHeader(header)
  {
    hide PrintHeader, FromLe, Ffs2Guid;
    Ffs2GuidBytes();
    HeaderFields(item.guid, item.length, item.extHeader);
    JoinedSlices(rom, at, PrintHeader(item.guid, item.length, item.extHeader), Filling(56, item.length));
  }

  lemma GapHolds(rom: Data, at: nat, item: Item)
    requires item.Gap? && WellFormedItem(item) && Printed(rom, at, PrintItem(item))
    ensures at + 0x1_0000 <= |rom|
    ensures Field(rom[at..at + 56], 40, 4) != FVH_SIGNATURE
  {
    hide FromLe, Ascii;
    SliceOfSlice(rom, at, 56, 40, 4);
    SliceOfSlice(rom, at, 0x1_0000, 40, 4);
    Signature(rom[at..at + 56][40..44]);
  }

  lemma BlockIsAligned(at: nat)
    requires at % 0x1_0000 == 0
    ensures Aligned(at)
  {
    assert at == 8 * (at / 0x1_0000 * 0x2000);
  }

  lemma ItemFits(rom: Data, at: nat, item: Item)
    requires WellFormedItem(item) && Printed(rom, at, PrintItem(item))
    ensures at + ItemSize(item) <= |rom|
  {
    hide PrintItem, WellFormedItem, ItemSize;
    ItemLength(item);
  }

  lemma HoldsItem(rom: Data, at: nat, item: Item, rest: seq<Item>)
    requires at + 56 < |rom| && HoldsItems(rom, |rom|, at + ItemSize(item), rest)
    requires var header := rom[at..at + 56];
      match item
      case Gap(_) => Field(header, 40, 4) != FVH_SIGNATURE
      case OtherVolume(length, _, _) =>
        Field(header, 40, 4) == FVH_SIGNATURE && Field(header, 32, 8) == length && !HasExtHeader(header)
      case Volume(length, _, _) =>
        && Field(header, 40, 4) == FVH_SIGNATURE && Field(header, 32, 8) == length
        && HoldsVolume(rom, |rom|, at, item)
    ensures HoldsItems(rom, |rom|, at, [item] + rest)
  {
    hide Field, HasExtHeader, HoldsVolume, VolumeStep;
    assert ([item] + rest)[1..] == rest;
  }

  /** One printed item stands where the scan looks for it. */
  lemma ItemHolds(rom: Data, at: nat, item: Item, rest: seq<Item>)
    requires WellFormedItem(item) && at % 0x1_0000 == 0 && Printed(rom, at, PrintItem(item))
    requires HoldsItems(rom, |rom|, at + |PrintItem(item)|, rest)
    ensures HoldsItems(rom, |rom|, at, [item] + rest)
  {
    hide Aligned, FromLe, Field, HoldsVolume, HasExtHeader, VolumeStep, PrintItem, Printed, WellFormedItem;
    ItemLength(item);
    BlockIsAligned(at);
    ItemFits(rom, at, item);
    match item {
      case Gap(_) => GapHolds(rom, at, item);
      case OtherVolume(_, _, _) => OtherHolds(rom, at, item);
      case Volume(_, _, _) => VolumeHolds(rom, at, item);
    }
    HoldsItem(rom, at, item, rest);
  }

  lemma MiddlePart(before: Data, first: Data, rest: Data)
    ensures var rom := before + (first + rest);
      rom == before + first + rest && rom[|before|..|before| + |first|] == first
  {
  }

  /** An image laid out from its parts holds them where the walker looks. */
  lemma {:induction false} ImageHolds(before: Data, items: seq<Item>)
    requires AllWellFormedItems(items) && |before| % 0x1_0000 == 0
    ensures var rom := before + PrintItems(items); HoldsItems(rom, |rom|, |before|, items)
    decreases |items|
  {
    hide PrintItem, WellFormedItem;
    var rom := before + PrintItems(items);
    if items != [] {
      hide HoldsItems;
      var first, rest := PrintItem(items[0]), PrintItems(items[1..]);
      ItemLength(items[0]);
      SumOfBlocks(|before|, |first|);
      ImageHolds(before + first, items[1..]);
      MiddlePart(before, first, rest);
      ItemHolds(rom, |before|, items[0], items[1..]);
      assert items == [items[0]] + items[1..];
    }
  }

  lemma SumOfBlocks(a: nat, b: nat)
    requires a % 0x1_0000 == 0 && b % 0x1_0000 == 0
    ensures (a + b) % 0x1_0000 == 0
  {
    assert a + b == 0x1_0000 * (a / 0x1_0000 + b / 0x1_0000);
  }

  /** From every image laid out from gaps, other volumes and FFS2 volumes the walker extracts exactly what is expected
      of its parts. */
  lemma ExtractsFromPrinted(items: seq<Item>, fvGuid: Data, fileGuid: Data)
    requires AllWellFormedItems(items)
    ensures var rom := PrintItems(items);
      ScanVolumes(rom, |rom|, 0, fvGuid, fileGuid) == Expected(items, fvGuid, fileGuid)
  {
    hide PrintItems, HoldsItems, ScanVolumes, Expected;
    ImageHolds([], items);
    assert [] + PrintItems(items) == PrintItems(items);
    ExtractsFirst(PrintItems(items), |PrintItems(items)|, items, fvGuid, fileGuid);
  }
}
