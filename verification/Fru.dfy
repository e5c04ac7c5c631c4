/** The FRU image encoder of the IPMI Platform Management FRU Information Storage Definition v1.0, and a reader
    that follows sections 8 (common header), 10 to 12 (chassis, board, product area) and 13 (type/length). */
module Fru {
  import opened Bytes

  const FRU_VERSION: byte := 0x01
  const END_OF_FIELDS: byte := 0xC1
  const TYPE_ASCII: byte := 0xC0
  const MAX_FIELD_LENGTH := 63
  const AREA_ALIGN := 8

  datatype ChassisInfo = ChassisInfo(
    kind: byte, partNumber: Option<Data>, serialNumber: Option<Data>, custom: seq<Data>)

  datatype BoardInfo = BoardInfo(
    manufacturer: Option<Data>, productName: Option<Data>, serialNumber: Option<Data>, partNumber: Option<Data>,
    fruFileId: Option<Data>, custom: seq<Data>)

  datatype ProductInfo = ProductInfo(
    manufacturer: Option<Data>, productName: Option<Data>, partNumber: Option<Data>, version: Option<Data>,
    serialNumber: Option<Data>, assetTag: Option<Data>, fruFileId: Option<Data>, custom: seq<Data>)

  // ---------------------------------------------------------------- fields

  /** What is kept of a field: nothing of an absent one, at most 63 bytes otherwise. */
  function Kept(v: Option<Data>): (s: Data)
    ensures |s| <= MAX_FIELD_LENGTH
  {
    if v.None? then [] else if |v.value| > MAX_FIELD_LENGTH then v.value[..MAX_FIELD_LENGTH] else v.value
  }

  /** A type/length byte and the field. The type bits 0xC0 and a length below 64 share no bit, so `|` adds them. */
  function PrintField(v: Option<Data>): Data {
    [TYPE_ASCII + |Kept(v)|] + Kept(v)
  }

  function PrintFields(fields: seq<Option<Data>>): Data {
    if fields == [] then [] else PrintField(fields[0]) + PrintFields(fields[1..])
  }

  method AppendField(out: Data, v: Option<Data>) returns (r: Data)
    ensures r == out + PrintField(v)
  {
    if v.None? || v.value == [] {
      r := out + [TYPE_ASCII];
      return;
    }
    var s := v.value;
    if |s| > MAX_FIELD_LENGTH {
      s := s[..MAX_FIELD_LENGTH];
    }
    r := out + [TYPE_ASCII + |s|];
    r := r + s;
  }

  method AppendFields(out: Data, fields: seq<Option<Data>>) returns (r: Data)
    ensures r == out + PrintFields(fields)
  {
    r := out;
    for i := 0 to |fields|
      invariant r + PrintFields(fields[i..]) == out + PrintFields(fields)
    {
      assert fields[i..][1..] == fields[i + 1..];
      r := AppendField(r, fields[i]);
    }
    assert PrintFields(fields[|fields|..]) == [];
  }

  // ---------------------------------------------------------------- checksums and areas

  /** The byte that makes the sum zero mod 256. */
  function ZeroChecksumOf(b: Data): (c: byte)
    ensures (Sum(b) + c) % 256 == 0
  {
    Balancing(Sum(b))
  }

  lemma SumStretch(data: Data, begin: nat, i: nat)
    requires begin <= i < |data|
    ensures Sum(data[begin..i + 1]) == Sum(data[begin..i]) + data[i]
  {
    hide Sum;
    assert data[begin..i + 1] == data[begin..i] + [data[i]];
    SumAppend(data[begin..i], [data[i]]);
    SumOne(data[i]);
  }

  method ZeroChecksum(data: Data, begin: nat, end: nat) returns (c: byte)
    requires begin <= end <= |data|
    ensures c == ZeroChecksumOf(data[begin..end])
  {
    hide Sum;
    SumNone();
    assert data[begin..begin] == [];
    var sum: byte := 0;
    for i := begin to end
      invariant sum == Sum(data[begin..i]) % 256
    {
      SumStretch(data, begin, i);
      ModSum(Sum(data[begin..i]), data[i]);
      sum := (sum + data[i]) % 256;
    }
    hide Balancing;
    BalancingByte(Sum(data[begin..end]));
    c := (256 - sum) % 256;
  }

  /** The zeros that bring a body and its checksum byte to a multiple of 8. */
  function Padding(length: nat): (n: nat)
    ensures n < AREA_ALIGN && (length + n + 1) % AREA_ALIGN == 0
  {
    (AREA_ALIGN - (length + 1) % AREA_ALIGN) % AREA_ALIGN
  }

  /** An area from its version byte, the bytes behind the length byte, and the end mark. */
  function SealArea(rest: Data): (area: Data)
    ensures |area| % AREA_ALIGN == 0 && |area| >= AREA_ALIGN
    ensures Sum(area) % 256 == 0
  {
    var length := 2 + |rest| + 1;
    var blocks := (length + Padding(length) + 1) / AREA_ALIGN;
    var body := [FRU_VERSION, blocks % 256] + (rest + ([END_OF_FIELDS] + Zeros(Padding(length))));
    SumAppend(body, [ZeroChecksumOf(body)]);
    SumOne(ZeroChecksumOf(body));
    body + [ZeroChecksumOf(body)]
  }

  lemma SealParts(area: Data)
    requires |area| >= 2 && area[0] == FRU_VERSION
    ensures var padded := area + [END_OF_FIELDS] + Zeros(Padding(|area| + 1));
      var body := padded[1 := ((|padded| + 1) / AREA_ALIGN) % 256];
      SealArea(area[2..]) == body + [ZeroChecksumOf(body)]
  {
    hide Sum, Balancing, ZeroChecksumOf, Padding;
    var padded := area + [END_OF_FIELDS] + Zeros(Padding(|area| + 1));
    var body := padded[1 := ((|padded| + 1) / AREA_ALIGN) % 256];
    assert body == [FRU_VERSION, body[1]] + (area[2..] + ([END_OF_FIELDS] + Zeros(Padding(|area| + 1))));
  }

  method FinalizeArea(area: Data) returns (r: Data)
    requires |area| >= 2 && area[0] == FRU_VERSION
    ensures r == SealArea(area[2..])
  {
    hide Sum, Balancing, ZeroChecksumOf, SealArea;
    r := area + [END_OF_FIELDS];
    ghost var length := |r|;
    while (|r| + 1) % AREA_ALIGN != 0
      invariant length <= |r| <= length + Padding(length)
      invariant r == area + [END_OF_FIELDS] + Zeros(|r| - length)
      decreases length + Padding(length) - |r|
    {
      r := r + [0x00];
    }
    assert |r| == length + Padding(length);
    r := r[1 := ((|r| + 1) / AREA_ALIGN) % 256];
    SealParts(area);
    var checksum := ZeroChecksum(r, 0, |r|);
    assert r[0..|r|] == r;
    r := r + [checksum];
  }

  function Customs(custom: seq<Data>): (fields: seq<Option<Data>>)
    ensures |fields| == |custom|
  {
    seq(|custom|, i requires 0 <= i < |custom| => Some(custom[i]))
  }

  function ChassisFields(c: ChassisInfo): seq<Option<Data>> {
    [c.partNumber, c.serialNumber] + Customs(c.custom)
  }

  function BoardFields(b: BoardInfo): seq<Option<Data>> {
    [b.manufacturer, b.productName, b.serialNumber, b.partNumber, b.fruFileId] + Customs(b.custom)
  }

  function ProductFields(p: ProductInfo): seq<Option<Data>> {
    [p.manufacturer, p.productName, p.partNumber, p.version, p.serialNumber, p.assetTag, p.fruFileId]
    + Customs(p.custom)
  }

  /** The fixed bytes of an area behind the length byte, then its fields. */
  function PrintArea(fixed: Data, fields: seq<Option<Data>>): Data {
    SealArea(fixed + PrintFields(fields))
  }

  function ChassisArea(c: ChassisInfo): Data {
    PrintArea([c.kind], ChassisFields(c))
  }

  /** Language code English, and three zero bytes for an unspecified manufacturing date. */
  function BoardArea(b: BoardInfo): Data {
    PrintArea([0x00, 0x00, 0x00, 0x00], BoardFields(b))
  }

  function ProductArea(p: ProductInfo): Data {
    PrintArea([0x00], ProductFields(p))
  }

  lemma {:induction false} PrintFieldsAppend(a: seq<Option<Data>>, b: seq<Option<Data>>)
    ensures PrintFields(a + b) == PrintFields(a) + PrintFields(b)
  {
    hide PrintField;
    if a == [] {
      assert a + b == b;
    } else {
      hide PrintFields;
      var first, rest := a[0], a[1..];
      PrintFieldsAppend(rest, b);
      assert a == [first] + rest && a + b == [first] + (rest + b);
      PrintFieldsFront(first, rest);
      PrintFieldsFront(first, rest + b);
      Regroup(PrintField(first), PrintFields(rest), PrintFields(b));
    }
  }

  lemma PrintFieldsFront(first: Option<Data>, rest: seq<Option<Data>>)
    ensures PrintFields([first] + rest) == PrintField(first) + PrintFields(rest)
  {
    hide PrintField;
    assert ([first] + rest)[1..] == rest;
  }

  method BuildChassisArea(c: ChassisInfo) returns (a: Data)
    ensures a == ChassisArea(c)
  {
    hide PrintFields, SealArea;
    a := [FRU_VERSION, 0x00, c.kind];
    a := AppendFields(a, [c.partNumber, c.serialNumber]);
    a := AppendFields(a, Customs(c.custom));
    PrintFieldsAppend([c.partNumber, c.serialNumber], Customs(c.custom));
    assert a[2..] == [c.kind] + PrintFields(ChassisFields(c));
    a := FinalizeArea(a);
  }

  method BuildBoardArea(b: BoardInfo) returns (a: Data)
    ensures a == BoardArea(b)
  {
    hide PrintFields, SealArea;
    var fixed := [b.manufacturer, b.productName, b.serialNumber, b.partNumber, b.fruFileId];
    a := [FRU_VERSION, 0x00, 0x00, 0x00, 0x00, 0x00];
    a := AppendFields(a, fixed);
    a := AppendFields(a, Customs(b.custom));
    PrintFieldsAppend(fixed, Customs(b.custom));
    assert a[2..] == [0x00, 0x00, 0x00, 0x00] + PrintFields(BoardFields(b));
    a := FinalizeArea(a);
  }

  method BuildProductArea(p: ProductInfo) returns (a: Data)
    ensures a == ProductArea(p)
  {
    hide PrintFields, SealArea;
    var fixed := [p.manufacturer, p.productName, p.partNumber, p.version, p.serialNumber, p.assetTag, p.fruFileId];
    a := [FRU_VERSION, 0x00, 0x00];
    a := AppendFields(a, fixed);
    a := AppendFields(a, Customs(p.custom));
    PrintFieldsAppend(fixed, Customs(p.custom));
    assert a[2..] == [0x00] + PrintFields(ProductFields(p));
    a := FinalizeArea(a);
  }

  // ---------------------------------------------------------------- the image

  /** One byte slot in the common header for each kind of area. */
  datatype Offsets = Offsets(chassis: nat, board: nat, product: nat)

  function Blocks(area: Data): nat {
    |area| / AREA_ALIGN
  }

  /** The block each area starts at, or 0 for an absent one, before the values are cut to a byte. */
  function AreaOffsets(chassis: Data, board: Data, product: Data): Offsets {
    Offsets(if chassis != [] then 1 else 0,
            if board != [] then 1 + Blocks(chassis) else 0,
            if product != [] then 1 + Blocks(chassis) + Blocks(board) else 0)
  }

  function CommonHeader(o: Offsets): (h: Data)
    ensures |h| == AREA_ALIGN && Sum(h) % 256 == 0
  {
    var h := [FRU_VERSION, 0x00, o.chassis % 256, o.board % 256, o.product % 256, 0x00, 0x00];
    SumAppend(h, [ZeroChecksumOf(h)]);
    SumOne(ZeroChecksumOf(h));
    h + [ZeroChecksumOf(h)]
  }

  function ChassisBytes(c: Option<ChassisInfo>): Data {
    if c.Some? then ChassisArea(c.value) else []
  }

  function BoardBytes(b: Option<BoardInfo>): Data {
    if b.Some? then BoardArea(b.value) else []
  }

  function ProductBytes(p: Option<ProductInfo>): Data {
    if p.Some? then ProductArea(p.value) else []
  }

  function Image(c: Option<ChassisInfo>, b: Option<BoardInfo>, p: Option<ProductInfo>): Data {
    CommonHeader(AreaOffsets(ChassisBytes(c), BoardBytes(b), ProductBytes(p)))
    + (ChassisBytes(c) + (BoardBytes(b) + ProductBytes(p)))
  }

  method Build(chassis: Option<ChassisInfo>, board: Option<BoardInfo>, product: Option<ProductInfo>)
    returns (out: Data)
    ensures out == Image(chassis, board, product)
  {
    hide ChassisArea, BoardArea, ProductArea, Sum, CommonHeader;
    var chassisArea, boardArea, productArea: Data := [], [], [];
    if chassis.Some? {
      chassisArea := BuildChassisArea(chassis.value);
    }
    if board.Some? {
      boardArea := BuildBoardArea(board.value);
    }
    if product.Some? {
      productArea := BuildProductArea(product.value);
    }
    out := BuildHeader(chassisArea, boardArea, productArea);
    out := out + chassisArea;
    out := out + boardArea;
    out := out + productArea;
  }

  method BuildHeader(chassisArea: Data, boardArea: Data, productArea: Data) returns (out: Data)
    ensures out == CommonHeader(AreaOffsets(chassisArea, boardArea, productArea))
  {
    hide Sum;
    out := Zeros(AREA_ALIGN);
    out := out[0 := FRU_VERSION];
    var blockOffset := 1;
    if chassisArea != [] {
      out := out[2 := blockOffset % 256];
      blockOffset := blockOffset + |chassisArea| / AREA_ALIGN;
    }
    if boardArea != [] {
      out := out[3 := blockOffset % 256];
      blockOffset := blockOffset + |boardArea| / AREA_ALIGN;
    }
    if productArea != [] {
      out := out[4 := blockOffset % 256];
      blockOffset := blockOffset + |productArea| / AREA_ALIGN;
    }
    ghost var o := AreaOffsets(chassisArea, boardArea, productArea);
    ghost var seven := [FRU_VERSION, 0x00, o.chassis % 256, o.board % 256, o.product % 256, 0x00, 0x00];
    assert out == seven + [0x00];
    assert out[0..7] == seven;
    var checksum := ZeroChecksum(out, 0, 7);
    out := out[7 := checksum];
    assert out == seven + [checksum];
  }
}
