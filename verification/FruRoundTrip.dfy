/** Reading a FRU image back, and where its areas lie. */
module FruRoundTrip {
  import opened Bytes
  import opened Fru

  // ---------------------------------------------------------------- the reader

  /** Fields up to the end mark. Only 8-bit ASCII fields are read; a length of one is the end mark itself. */
  function ReadFields(b: Data): (r: Option<seq<Data>>) {
    if b == [] then None
    else if b[0] == 0xC1 then Some([])
    else
      var length := b[0] % 64;
      if b[0] / 64 != 3 || 1 + length > |b| then None
      else
        var rest :- ReadFields(b[1 + length..]);
        Some([b[1..1 + length]] + rest)
  }

  /** The fixed bytes of an area, and its predefined and custom fields in order. */
  datatype Area = Area(fixed: Data, fields: seq<Data>)

  function ReadArea(b: Data, fixedLength: nat): Option<Area> {
    if |b| < 3 + fixedLength || b[0] != 0x01 then None
    else
      var units: nat := b[1];
      var length := units * 8;
      if length < 3 + fixedLength || length > |b| || Sum(b[..length]) % 256 != 0 then None
      else
        var fields :- ReadFields(b[2 + fixedLength..length - 1]);
        Some(Area(b[2..2 + fixedLength], fields))
  }

  /** An area that is absent is present nowhere; one that is present has to be readable. */
  datatype Slot = Absent | Present(area: Area)

  function ReadSlot(image: Data, block: byte, fixedLength: nat): Option<Slot> {
    if block == 0 then Some(Absent)
    else if block * 8 > |image| then None
    else
      var area :- ReadArea(image[block * 8..], fixedLength);
      Some(Present(area))
  }

  datatype Contents = Contents(chassis: Slot, board: Slot, product: Slot)

  function ReadImage(image: Data): Option<Contents> {
    if |image| < 8 || image[0] != 0x01 || Sum(image[..8]) % 256 != 0 then None
    else
      var chassis :- ReadSlot(image, image[2], 1);
      var board :- ReadSlot(image, image[3], 4);
      var product :- ReadSlot(image, image[4], 1);
      Some(Contents(chassis, board, product))
  }

  // ---------------------------------------------------------------- what it should see

  function KeptAll(fields: seq<Option<Data>>): (kept: seq<Data>)
    ensures |kept| == |fields|
  {
    seq(|fields|, i requires 0 <= i < |fields| => Kept(fields[i]))
  }

  function SeenArea(fixed: Data, fields: seq<Option<Data>>): Area {
    Area(fixed, KeptAll(fields))
  }

  function Seen(c: Option<ChassisInfo>, b: Option<BoardInfo>, p: Option<ProductInfo>): Contents {
    Contents(if c.Some? then Present(SeenArea([c.value.kind], ChassisFields(c.value))) else Absent,
             if b.Some? then Present(SeenArea([0, 0, 0, 0], BoardFields(b.value))) else Absent,
             if p.Some? then Present(SeenArea([0], ProductFields(p.value))) else Absent)
  }

  // ---------------------------------------------------------------- fields

  predicate NoOneByteField(fields: seq<Option<Data>>) {
    forall i :: 0 <= i < |fields| ==> |Kept(fields[i])| != 1
  }

  lemma {:induction false} FieldsBack(fields: seq<Option<Data>>, rest: Data)
    requires NoOneByteField(fields)
    ensures ReadFields(PrintFields(fields) + ([END_OF_FIELDS] + rest)) == Some(KeptAll(fields))
  {
    hide Kept, PrintField;
    var b := PrintFields(fields) + ([END_OF_FIELDS] + rest);
    if fields == [] {
      assert b[0] == END_OF_FIELDS && KeptAll(fields) == [];
    } else {
      hide ReadFields;
      var more := PrintFields(fields[1..]) + ([END_OF_FIELDS] + rest);
      assert b == PrintField(fields[0]) + more;
      FieldBack(fields[0], more);
      FieldsBack(fields[1..], rest);
      assert KeptAll(fields) == [Kept(fields[0])] + KeptAll(fields[1..]);
    }
  }

  lemma FieldBack(v: Option<Data>, more: Data)
    requires |Kept(v)| != 1
    ensures ReadFields(PrintField(v) + more)
         == if ReadFields(more).Some? then Some([Kept(v)] + ReadFields(more).value) else None
  {
    var kept := Kept(v);
    hide Kept;
    var b := PrintField(v) + more;
    assert b == [TYPE_ASCII + |kept|] + (kept + more);
    assert b[0] == 192 + |kept| && b[0] % 64 == |kept| && b[0] / 64 == 3;
    assert b[1..1 + |kept|] == kept && b[1 + |kept|..] == more;
  }

  /** Whatever reads as these fields is their print up to the end mark. */
  lemma {:induction false} FieldsPrinted(b: Data, fields: seq<Option<Data>>)
    requires ReadFields(b) == Some(KeptAll(fields))
    ensures PrintFields(fields) + [END_OF_FIELDS] <= b
  {
    if fields == [] {
      assert b[0] == END_OF_FIELDS;
    } else {
      FirstFieldPrinted(b, fields);
      var first, rest := PrintField(fields[0]), b[|PrintField(fields[0])|..];
      hide ReadFields, PrintField, KeptAll;
      FieldsPrinted(rest, fields[1..]);
      assert b == first + rest;
      assert PrintFields(fields) + [END_OF_FIELDS] == first + (PrintFields(fields[1..]) + [END_OF_FIELDS]);
    }
  }

  lemma FirstFieldPrinted(b: Data, fields: seq<Option<Data>>)
    requires fields != [] && ReadFields(b) == Some(KeptAll(fields))
    ensures PrintField(fields[0]) <= b && ReadFields(b[|PrintField(fields[0])|..]) == Some(KeptAll(fields[1..]))
  {
    var kept := KeptAll(fields);
    assert kept[0] == Kept(fields[0]) && kept[1..] == KeptAll(fields[1..]);
    hide Kept, KeptAll;
    var length := b[0] % 64;
    assert ReadFields(b).value[1..] == ReadFields(b[1 + length..]).value;
    assert b[1..1 + length] == kept[0] && b[0] == 192 + length;
  }

  /** No field that is read has length one, since its type/length byte is the end mark. */
  lemma {:induction false} NeverOneByte(b: Data)
    ensures ReadFields(b).Some? ==> forall i :: 0 <= i < |ReadFields(b).value| ==> |ReadFields(b).value[i]| != 1
    decreases |b|
  {
    if b != [] && b[0] != END_OF_FIELDS && b[0] / 64 == 3 && 1 + b[0] % 64 <= |b| {
      NeverOneByte(b[1 + b[0] % 64..]);
    }
  }

  /** The bytes a list of fields takes. */
  function FieldsSize(fields: seq<Data>): nat {
    if fields == [] then 0 else 1 + |fields[0]| + FieldsSize(fields[1..])
  }

  lemma {:induction false} ReadFieldsSize(b: Data)
    ensures ReadFields(b).Some? ==> FieldsSize(ReadFields(b).value) + 1 <= |b|
    decreases |b|
  {
    if b != [] && b[0] != END_OF_FIELDS && b[0] / 64 == 3 && 1 + b[0] % 64 <= |b| {
      var rest := b[1 + b[0] % 64..];
      ReadFieldsSize(rest);
      if ReadFields(rest).Some? {
        assert ReadFields(b).value[1..] == ReadFields(rest).value;
      }
    }
  }

  lemma {:induction false} PrintFieldsSize(fields: seq<Option<Data>>)
    ensures |PrintFields(fields)| == FieldsSize(KeptAll(fields)) <= 64 * |fields|
  {
    if fields != [] {
      PrintFieldsSize(fields[1..]);
      assert KeptAll(fields)[1..] == KeptAll(fields[1..]);
    }
  }

  // ---------------------------------------------------------------- areas

  /** The block count of an area before it is cut to the length byte. */
  function AreaBlocks(rest: Data): nat {
    |SealArea(rest)| / AREA_ALIGN
  }

  lemma AreaParts(rest: Data)
    ensures var area := SealArea(rest);
      var n := |area|;
      && n == AreaBlocks(rest) * AREA_ALIGN
      && |rest| + 4 <= n <= |rest| + 11
      && area[0] == FRU_VERSION && area[1] == AreaBlocks(rest) % 256
      && area[2..n - 1] == rest + ([END_OF_FIELDS] + Zeros(Padding(|rest| + 3)))
  {
    hide Sum, ZeroChecksumOf;
  }

  lemma AreaBack(fixed: Data, fields: seq<Option<Data>>, more: Data)
    requires AreaBlocks(fixed + PrintFields(fields)) <= 255 && NoOneByteField(fields)
    ensures ReadArea(PrintArea(fixed, fields) + more, |fixed|) == Some(SeenArea(fixed, fields))
  {
    hide Sum, PrintFields, ReadFields, SealArea, Padding, ReadArea;
    var rest := fixed + PrintFields(fields);
    var area := SealArea(rest);
    var b := area + more;
    AreaParts(rest);
    assert b[..|area|] == area;
    var zeros := Zeros(Padding(|rest| + 3));
    var behind := PrintFields(fields) + ([END_OF_FIELDS] + zeros);
    SliceOfSlice(b, 0, |area|, 2, |area| - 3);
    assert b[0..|area|] == area;
    assert area[2..|area| - 1] == fixed + behind;
    JoinedSlices(b, 2, fixed, behind);
    FieldsBack(fields, zeros);
    ReadAreaFrom(b, |area|, fixed, KeptAll(fields));
  }

  lemma ReadAreaFrom(b: Data, length: nat, fixed: Data, fields: seq<Data>)
    requires 3 + |fixed| <= length <= |b| && b[0] == FRU_VERSION && b[1] * AREA_ALIGN == length
    requires Sum(b[..length]) % 256 == 0
    requires b[2..2 + |fixed|] == fixed && ReadFields(b[2 + |fixed|..length - 1]) == Some(fields)
    ensures ReadArea(b, |fixed|) == Some(Area(fixed, fields))
  {
    hide Sum, ReadFields;
  }

  /** Wherever an area is found that reads as these fields, none of them is one byte long and they fit an area. */
  lemma ReadableArea(b: Data, fixed: Data, fields: seq<Option<Data>>)
    requires ReadArea(b, |fixed|) == Some(SeenArea(fixed, fields))
    ensures AreaBlocks(fixed + PrintFields(fields)) <= 255 && NoOneByteField(fields)
  {
    hide Sum, PrintFields, ReadFields, FieldsSize;
    var length := b[1] * AREA_ALIGN;
    var content := b[2 + |fixed|..length - 1];
    NeverOneByte(content);
    ReadFieldsSize(content);
    PrintFieldsSize(fields);
    AreaParts(fixed + PrintFields(fields));
    forall i | 0 <= i < |fields|
      ensures |Kept(fields[i])| != 1
    {
      assert ReadFields(content).value[i] == Kept(fields[i]);
    }
  }

  lemma AreaNotBack(fixed: Data, fields: seq<Option<Data>>, more: Data)
    requires AreaBlocks(fixed + PrintFields(fields)) > 255 || !NoOneByteField(fields)
    ensures ReadArea(PrintArea(fixed, fields) + more, |fixed|) != Some(SeenArea(fixed, fields))
  {
    hide ReadArea, PrintArea, AreaBlocks, NoOneByteField;
    if ReadArea(PrintArea(fixed, fields) + more, |fixed|) == Some(SeenArea(fixed, fields)) {
      ReadableArea(PrintArea(fixed, fields) + more, fixed, fields);
    }
  }

  /** An area is read back exactly when it has no field of one byte and fits its length byte. */
  lemma AreaRoundTrip(fixed: Data, fields: seq<Option<Data>>, more: Data)
    ensures ReadArea(PrintArea(fixed, fields) + more, |fixed|) == Some(SeenArea(fixed, fields))
       <==> AreaBlocks(fixed + PrintFields(fields)) <= 255 && NoOneByteField(fields)
  {
    if AreaBlocks(fixed + PrintFields(fields)) <= 255 && NoOneByteField(fields) {
      AreaBack(fixed, fields, more);
    } else {
      AreaNotBack(fixed, fields, more);
    }
  }

  /** These bytes begin with an area: its version, a length byte that stays within them, the fixed bytes, the print of
      the fields and the end mark, and a sum of zero mod 256 over its blocks. */
  predicate HoldsArea(b: Data, fixed: Data, fields: seq<Option<Data>>) {
    && |b| >= 2 && b[0] == FRU_VERSION
    && var length := b[1] * AREA_ALIGN;
    && 3 + |fixed| <= length <= |b|
    && b[2..2 + |fixed|] == fixed
    && PrintFields(fields) + [END_OF_FIELDS] <= b[2 + |fixed|..length - 1]
    && Sum(b[..length]) % 256 == 0
  }

  /** An area can be read wherever its bytes stand, and nowhere else. */
  lemma ReadsHeldArea(b: Data, fixed: Data, fields: seq<Option<Data>>)
    ensures ReadArea(b, |fixed|) == Some(SeenArea(fixed, fields))
       <==> HoldsArea(b, fixed, fields) && NoOneByteField(fields)
  {
    hide Sum, PrintFields, ReadFields, NoOneByteField, KeptAll, AreaBlocks;
    if ReadArea(b, |fixed|) == Some(SeenArea(fixed, fields)) {
      ReadableArea(b, fixed, fields);
      FieldsPrinted(b[2 + |fixed|..b[1] * AREA_ALIGN - 1], fields);
    }
    if HoldsArea(b, fixed, fields) && NoOneByteField(fields) {
      var length := b[1] * AREA_ALIGN;
      var content, printed := b[2 + |fixed|..length - 1], PrintFields(fields) + [END_OF_FIELDS];
      var tail := content[|printed|..];
      assert content == PrintFields(fields) + ([END_OF_FIELDS] + tail);
      FieldsBack(fields, tail);
      ReadAreaFrom(b, length, fixed, KeptAll(fields));
    }
  }

  /** The area whose bytes stand anywhere fits its own length byte. */
  lemma HeldAreaFits(b: Data, fixed: Data, fields: seq<Option<Data>>)
    requires HoldsArea(b, fixed, fields)
    ensures AreaBlocks(fixed + PrintFields(fields)) <= 255
  {
    AreaParts(fixed + PrintFields(fields));
    hide Sum, PrintFields, SealArea;
    assert |PrintFields(fields) + [END_OF_FIELDS]| <= |b[2 + |fixed|..b[1] * AREA_ALIGN - 1]|;
  }

  // ---------------------------------------------------------------- layout

  function OffsetsOf(c: Option<ChassisInfo>, b: Option<BoardInfo>, p: Option<ProductInfo>): Offsets {
    AreaOffsets(ChassisBytes(c), BoardBytes(b), ProductBytes(p))
  }

  predicate OffsetsFit(o: Offsets) {
    o.chassis <= 255 && o.board <= 255 && o.product <= 255
  }

  lemma AreaLengths(c: Option<ChassisInfo>, b: Option<BoardInfo>, p: Option<ProductInfo>)
    ensures |ChassisBytes(c)| == AREA_ALIGN * Blocks(ChassisBytes(c)) && (ChassisBytes(c) == [] <==> c.None?)
    ensures |BoardBytes(b)| == AREA_ALIGN * Blocks(BoardBytes(b)) && (BoardBytes(b) == [] <==> b.None?)
    ensures |ProductBytes(p)| == AREA_ALIGN * Blocks(ProductBytes(p)) && (ProductBytes(p) == [] <==> p.None?)
  {
    hide SealArea, PrintFields;
  }

  lemma HeaderBytes(o: Offsets)
    ensures CommonHeader(o)[..7] == [0x01, 0x00, o.chassis % 256, o.board % 256, o.product % 256, 0x00, 0x00]
  {
    hide Sum, ZeroChecksumOf;
  }

  /** Header and areas tile the image: the header takes the first block, every present area starts at eight times
      its offset, right behind what comes before it, and the last one ends with the image; header and areas
      each sum to zero mod 256. */
  lemma Layout(c: Option<ChassisInfo>, b: Option<BoardInfo>, p: Option<ProductInfo>)
    ensures var image, o := Image(c, b, p), OffsetsOf(c, b, p);
      && Sum(image[..AREA_ALIGN]) % 256 == 0
      && Sum(ChassisBytes(c)) % 256 == 0 && Sum(BoardBytes(b)) % 256 == 0 && Sum(ProductBytes(p)) % 256 == 0
      && |image| == AREA_ALIGN * (1 + Blocks(ChassisBytes(c)) + Blocks(BoardBytes(b)) + Blocks(ProductBytes(p)))
      && image[..8] == CommonHeader(o)
      && CommonHeader(o)[..7] == [0x01, 0x00, o.chassis % 256, o.board % 256, o.product % 256, 0x00, 0x00]
      && (c.Some? ==>
           8 * o.chassis <= |image| && image[8 * o.chassis..] == ChassisBytes(c) + (BoardBytes(b) + ProductBytes(p)))
      && (b.Some? ==> 8 * o.board <= |image| && image[8 * o.board..] == BoardBytes(b) + ProductBytes(p))
      && (p.Some? ==> 8 * o.product <= |image| && image[8 * o.product..] == ProductBytes(p))
  {
    AreaLengths(c, b, p);
    AreaSums(c, b, p);
    HeaderBytes(OffsetsOf(c, b, p));
    hide Sum, ChassisBytes, BoardBytes, ProductBytes, CommonHeader;
    Tiles(CommonHeader(OffsetsOf(c, b, p)), ChassisBytes(c), BoardBytes(b), ProductBytes(p));
  }

  lemma AreaSums(c: Option<ChassisInfo>, b: Option<BoardInfo>, p: Option<ProductInfo>)
    ensures Sum(ChassisBytes(c)) % 256 == 0 && Sum(BoardBytes(b)) % 256 == 0 && Sum(ProductBytes(p)) % 256 == 0
  {
    hide SealArea, PrintFields;
  }

  lemma Tiles(h: Data, c: Data, b: Data, p: Data)
    requires |h| == 8
    ensures var image := h + (c + (b + p));
      && image[..8] == h
      && image[8..] == c + (b + p)
      && image[8 + |c|..] == b + p
      && image[8 + |c| + |b|..] == p
  {
  }

  lemma {:induction false} FieldsBound(custom: seq<Data>, fixed: seq<Option<Data>>)
    ensures |PrintFields(fixed + Customs(custom))| <= 64 * (|fixed| + |custom|)
  {
    PrintFieldsSize(fixed + Customs(custom));
  }

  function CustomCount(c: Option<ChassisInfo>, b: Option<BoardInfo>, p: Option<ProductInfo>): nat {
    (if c.Some? then |c.value.custom| else 0)
    + (if b.Some? then |b.value.custom| else 0)
    + (if p.Some? then |p.value.custom| else 0)
  }

  predicate AreasFit(c: Option<ChassisInfo>, b: Option<BoardInfo>, p: Option<ProductInfo>) {
    && Blocks(ChassisBytes(c)) <= 255 && Blocks(BoardBytes(b)) <= 255 && Blocks(ProductBytes(p)) <= 255
  }

  lemma ChassisBlocks(c: ChassisInfo)
    ensures Blocks(ChassisArea(c)) <= 17 + 8 * |c.custom|
  {
    hide PrintFields, SealArea;
    FieldsBound(c.custom, [c.partNumber, c.serialNumber]);
    AreaParts([c.kind] + PrintFields(ChassisFields(c)));
  }

  lemma BoardBlocks(b: BoardInfo)
    ensures Blocks(BoardArea(b)) <= 41 + 8 * |b.custom|
  {
    hide PrintFields, SealArea;
    FieldsBound(b.custom, [b.manufacturer, b.productName, b.serialNumber, b.partNumber, b.fruFileId]);
    AreaParts([0x00, 0x00, 0x00, 0x00] + PrintFields(BoardFields(b)));
  }

  lemma ProductBlocks(p: ProductInfo)
    ensures Blocks(ProductArea(p)) <= 57 + 8 * |p.custom|
  {
    hide PrintFields, SealArea;
    FieldsBound(p.custom, [p.manufacturer, p.productName, p.partNumber, p.version, p.serialNumber, p.assetTag,
                           p.fruFileId]);
    AreaParts([0x00] + PrintFields(ProductFields(p)));
  }

  /** Header and fixed fields need at most 116 blocks, so with at most 17 custom fields in all no length byte and
      no offset byte overflows. */
  lemma SeventeenCustomFieldsFit(c: Option<ChassisInfo>, b: Option<BoardInfo>, p: Option<ProductInfo>)
    requires CustomCount(c, b, p) <= 17
    ensures |Image(c, b, p)| <= AREA_ALIGN * (116 + 8 * CustomCount(c, b, p)) <= AREA_ALIGN * 252
    ensures OffsetsFit(OffsetsOf(c, b, p)) && AreasFit(c, b, p)
  {
    Layout(c, b, p);
    BlockBounds(c, b, p);
    hide ChassisBytes, BoardBytes, ProductBytes, Image, Sum, CommonHeader, Blocks;
  }

  lemma BlockBounds(c: Option<ChassisInfo>, b: Option<BoardInfo>, p: Option<ProductInfo>)
    ensures Blocks(ChassisBytes(c)) <= 17 + 8 * (if c.Some? then |c.value.custom| else 0)
    ensures Blocks(BoardBytes(b)) <= 41 + 8 * (if b.Some? then |b.value.custom| else 0)
    ensures Blocks(ProductBytes(p)) <= 57 + 8 * (if p.Some? then |p.value.custom| else 0)
  {
    hide ChassisArea, BoardArea, ProductArea;
    if c.Some? { ChassisBlocks(c.value); }
    if b.Some? { BoardBlocks(b.value); }
    if p.Some? { ProductBlocks(p.value); }
  }

  // ---------------------------------------------------------------- the image

  predicate NoOneByteFields(c: Option<ChassisInfo>, b: Option<BoardInfo>, p: Option<ProductInfo>) {
    && (c.Some? ==> NoOneByteField(ChassisFields(c.value)))
    && (b.Some? ==> NoOneByteField(BoardFields(b.value)))
    && (p.Some? ==> NoOneByteField(ProductFields(p.value)))
  }

  lemma SlotOf(image: Data, block: byte, fixed: Data, fields: seq<Option<Data>>, more: Data)
    requires block > 0 && 8 * block <= |image| && image[8 * block..] == PrintArea(fixed, fields) + more
    ensures ReadSlot(image, block, |fixed|) == Some(Present(SeenArea(fixed, fields)))
       <==> Blocks(PrintArea(fixed, fields)) <= 255 && NoOneByteField(fields)
  {
    hide ReadArea, PrintFields, SealArea, NoOneByteField, KeptAll;
    AreaRoundTrip(fixed, fields, more);
  }

  lemma ChassisSlot(c: Option<ChassisInfo>, b: Option<BoardInfo>, p: Option<ProductInfo>)
    ensures ReadSlot(Image(c, b, p), OffsetsOf(c, b, p).chassis, 1) == Some(Seen(c, b, p).chassis)
       <==> Blocks(ChassisBytes(c)) <= 255 && (c.Some? ==> NoOneByteField(ChassisFields(c.value)))
  {
    Layout(c, b, p);
    AreaLengths(c, b, p);
    hide Image, ReadSlot, PrintArea, NoOneByteField, KeptAll, Sum, CommonHeader, BoardBytes, ProductBytes;
    if c.Some? {
      SlotOf(Image(c, b, p), 1, [c.value.kind], ChassisFields(c.value), BoardBytes(b) + ProductBytes(p));
    } else {
      EmptySlot(Image(c, b, p), 1);
    }
  }

  lemma BoardSlot(c: Option<ChassisInfo>, b: Option<BoardInfo>, p: Option<ProductInfo>)
    requires OffsetsOf(c, b, p).board <= 255
    ensures ReadSlot(Image(c, b, p), OffsetsOf(c, b, p).board, 4) == Some(Seen(c, b, p).board)
       <==> Blocks(BoardBytes(b)) <= 255 && (b.Some? ==> NoOneByteField(BoardFields(b.value)))
  {
    Layout(c, b, p);
    AreaLengths(c, b, p);
    hide Image, ReadSlot, PrintArea, NoOneByteField, KeptAll, Sum, CommonHeader, ChassisBytes, ProductBytes;
    if b.Some? {
      SlotOf(Image(c, b, p), OffsetsOf(c, b, p).board, [0x00, 0x00, 0x00, 0x00], BoardFields(b.value), ProductBytes(p));
    } else {
      EmptySlot(Image(c, b, p), 4);
    }
  }

  lemma ProductSlot(c: Option<ChassisInfo>, b: Option<BoardInfo>, p: Option<ProductInfo>)
    requires OffsetsOf(c, b, p).product <= 255
    ensures ReadSlot(Image(c, b, p), OffsetsOf(c, b, p).product, 1) == Some(Seen(c, b, p).product)
       <==> Blocks(ProductBytes(p)) <= 255 && (p.Some? ==> NoOneByteField(ProductFields(p.value)))
  {
    Layout(c, b, p);
    AreaLengths(c, b, p);
    hide Image, ReadSlot, PrintArea, NoOneByteField, KeptAll, Sum, CommonHeader, ChassisBytes, BoardBytes;
    if p.Some? {
      assert ProductBytes(p) + [] == ProductBytes(p);
      SlotOf(Image(c, b, p), OffsetsOf(c, b, p).product, [0x00], ProductFields(p.value), []);
    } else {
      EmptySlot(Image(c, b, p), 1);
    }
  }

  lemma EmptySlot(image: Data, fixedLength: nat)
    ensures ReadSlot(image, 0, fixedLength) == Some(Absent)
  {
  }

  lemma HeaderBack(c: Option<ChassisInfo>, b: Option<BoardInfo>, p: Option<ProductInfo>)
    ensures var image, o := Image(c, b, p), OffsetsOf(c, b, p);
      && |image| >= AREA_ALIGN && image[0] == FRU_VERSION && Sum(image[..AREA_ALIGN]) % 256 == 0
      && image[2] == o.chassis % 256 && image[3] == o.board % 256 && image[4] == o.product % 256
  {
    Layout(c, b, p);
    hide Image, Sum, ChassisBytes, BoardBytes, ProductBytes, ZeroChecksumOf;
    var image, h := Image(c, b, p), CommonHeader(OffsetsOf(c, b, p));
    assert forall i :: 0 <= i < 8 ==> image[i] == image[..8][i];
    assert image[0] == h[0] && image[2] == h[2] && image[3] == h[3] && image[4] == h[4];
  }

  /** A board offset beyond a byte: either the chassis area is too long to be read, or the offset wraps to zero
      and the board area is gone. */
  lemma OverflowingBoardIsLost(c: Option<ChassisInfo>, b: Option<BoardInfo>, p: Option<ProductInfo>)
    requires OffsetsOf(c, b, p).board > 255
    ensures ReadImage(Image(c, b, p)) != Some(Seen(c, b, p))
  {
    HeaderBack(c, b, p);
    ChassisSlot(c, b, p);
    AreaLengths(c, b, p);
    hide Image, Sum, ChassisBytes, BoardBytes, ProductBytes, ReadArea, ReadSlot, KeptAll, NoOneByteField;
    var image, o := Image(c, b, p), OffsetsOf(c, b, p);
    assert image[2] == o.chassis;
    if o.board == 256 {
      EmptySlot(image, 4);
    } else {
      assert Blocks(ChassisBytes(c)) > 255;
    }
  }

  /** The block that the product offset names after it was cut to a byte begins with the bytes of the product area. */
  predicate CopyAtWrappedOffset(c: Option<ChassisInfo>, b: Option<BoardInfo>, p: Option<ProductInfo>) {
    && p.Some?
    && var image, at := Image(c, b, p), AREA_ALIGN * (OffsetsOf(c, b, p).product % 256);
    && 0 < at <= |image| && HoldsArea(image[at..], [0x00], ProductFields(p.value))
  }

  /** Such a copy exists only for a product whose own area fits its length byte. */
  lemma CopyNeeds(c: Option<ChassisInfo>, b: Option<BoardInfo>, p: Option<ProductInfo>)
    requires CopyAtWrappedOffset(c, b, p)
    ensures p.Some? && Blocks(ProductBytes(p)) <= 255
  {
    hide Image, HoldsArea, SealArea, PrintFields, ProductFields;
    var at := AREA_ALIGN * (OffsetsOf(c, b, p).product % 256);
    HeldAreaFits(Image(c, b, p)[at..], [0x00], ProductFields(p.value));
  }

  lemma WrappedSlot(c: Option<ChassisInfo>, b: Option<BoardInfo>, p: Option<ProductInfo>)
    requires OffsetsOf(c, b, p).product > 255
    ensures p.Some?
    ensures ReadSlot(Image(c, b, p), OffsetsOf(c, b, p).product % 256, 1) == Some(Seen(c, b, p).product)
       <==> CopyAtWrappedOffset(c, b, p) && NoOneByteField(ProductFields(p.value))
  {
    AreaLengths(c, b, p);
    hide Image, ReadArea, HoldsArea, NoOneByteField, KeptAll, ChassisBytes, BoardBytes, ProductBytes, ProductFields;
    var image, block := Image(c, b, p), OffsetsOf(c, b, p).product % 256;
    if 0 < block && block * AREA_ALIGN <= |image| {
      ReadsHeldArea(image[block * AREA_ALIGN..], [0x00], ProductFields(p.value));
    }
  }

  lemma ReadsSlots(image: Data, chassis: byte, board: byte, product: byte, seen: Contents)
    requires |image| >= AREA_ALIGN && image[0] == FRU_VERSION && Sum(image[..AREA_ALIGN]) % 256 == 0
    requires image[2] == chassis && image[3] == board && image[4] == product
    ensures ReadImage(image) == Some(seen)
       <==> && ReadSlot(image, chassis, 1) == Some(seen.chassis)
            && ReadSlot(image, board, 4) == Some(seen.board)
            && ReadSlot(image, product, 1) == Some(seen.product)
  {
    hide ReadSlot, Sum;
  }

  lemma ChassisOffset(c: Option<ChassisInfo>, b: Option<BoardInfo>, p: Option<ProductInfo>)
    ensures OffsetsOf(c, b, p).chassis <= 1
  {
    hide ChassisBytes, BoardBytes, ProductBytes, Blocks;
  }

  lemma SlotsDecide(c: Option<ChassisInfo>, b: Option<BoardInfo>, p: Option<ProductInfo>)
    requires OffsetsOf(c, b, p).board <= 255
    ensures ReadImage(Image(c, b, p)) == Some(Seen(c, b, p))
       <==> && Blocks(ChassisBytes(c)) <= 255 && (c.Some? ==> NoOneByteField(ChassisFields(c.value)))
            && Blocks(BoardBytes(b)) <= 255 && (b.Some? ==> NoOneByteField(BoardFields(b.value)))
            && ReadSlot(Image(c, b, p), OffsetsOf(c, b, p).product % 256, 1) == Some(Seen(c, b, p).product)
  {
    hide Image, ReadImage, ReadSlot, Sum, ChassisBytes, BoardBytes, ProductBytes, NoOneByteField, Seen, OffsetsOf,
      ChassisFields, BoardFields, ProductFields, Blocks;
    ChassisOffset(c, b, p);
    HeaderBack(c, b, p);
    ChassisSlot(c, b, p);
    BoardSlot(c, b, p);
    var o := OffsetsOf(c, b, p);
    ReadsSlots(Image(c, b, p), o.chassis, o.board, o.product % 256, Seen(c, b, p));
  }

  /** For all inputs: the image reads back as the areas that were given exactly when no field is one byte long, every
      length and the board offset fit their bytes, and the product offset fits its byte too or wraps to a block that
      happens to begin with the bytes of the product area. */
  lemma ContentsRoundTrip(c: Option<ChassisInfo>, b: Option<BoardInfo>, p: Option<ProductInfo>)
    ensures ReadImage(Image(c, b, p)) == Some(Seen(c, b, p))
       <==> && NoOneByteFields(c, b, p) && AreasFit(c, b, p) && OffsetsOf(c, b, p).board <= 255
            && (OffsetsOf(c, b, p).product <= 255 || CopyAtWrappedOffset(c, b, p))
  {
    hide Image, ReadImage, Seen, ChassisBytes, BoardBytes, ProductBytes, NoOneByteField, ReadSlot, OffsetsOf, Blocks,
      ChassisFields, BoardFields, ProductFields, CopyAtWrappedOffset;
    if OffsetsOf(c, b, p).board > 255 {
      OverflowingBoardIsLost(c, b, p);
    } else {
      SlotsDecide(c, b, p);
      if OffsetsOf(c, b, p).product <= 255 {
        ProductSlot(c, b, p);
      } else {
        WrappedSlot(c, b, p);
        if CopyAtWrappedOffset(c, b, p) {
          CopyNeeds(c, b, p);
        }
      }
    }
  }
}
