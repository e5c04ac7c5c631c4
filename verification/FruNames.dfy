/** The fields of a FRU image under the names that the storage definition gives their places. */
module FruNames {
  import opened Bytes
  import opened Fru
  import opened FruRoundTrip

  // ---------------------------------------------------------------- the reader

  /** Section 10: the chassis type, then part number and serial number, then custom fields. */
  datatype Chassis = Chassis(kind: byte, partNumber: Data, serialNumber: Data, custom: seq<Data>)

  /** Section 11: language and date of manufacturing, then the fields in this order. */
  datatype Board = Board(
    language: byte, minutes: nat, manufacturer: Data, productName: Data, serialNumber: Data, partNumber: Data,
    fruFileId: Data, custom: seq<Data>)

  /** Section 12: the language, then the fields in this order. */
  datatype Product = Product(
    language: byte, manufacturer: Data, productName: Data, partNumber: Data, version: Data, serialNumber: Data,
    assetTag: Data, fruFileId: Data, custom: seq<Data>)

  datatype Record = Record(chassis: Option<Chassis>, board: Option<Board>, product: Option<Product>)

  function ChassisOf(area: Area): Option<Chassis> {
    var f := area.fields;
    if |area.fixed| != 1 || |f| < 2 then None else Some(Chassis(area.fixed[0], f[0], f[1], f[2..]))
  }

  function BoardOf(area: Area): Option<Board> {
    var f := area.fields;
    if |area.fixed| != 4 || |f| < 5 then None
    else Some(Board(area.fixed[0], FromLe(area.fixed[1..4]), f[0], f[1], f[2], f[3], f[4], f[5..]))
  }

  function ProductOf(area: Area): Option<Product> {
    var f := area.fields;
    if |area.fixed| != 1 || |f| < 7 then None
    else Some(Product(area.fixed[0], f[0], f[1], f[2], f[3], f[4], f[5], f[6], f[7..]))
  }

  /** An absent area gives no record; a present one has to have all its predefined fields. */
  function Named<T>(slot: Slot, name: Area -> Option<T>): Option<Option<T>> {
    if slot.Absent? then Some(None)
    else
      var t :- name(slot.area);
      Some(Some(t))
  }

  function ReadRecord(image: Data): Option<Record> {
    var contents :- ReadImage(image);
    var chassis :- Named(contents.chassis, ChassisOf);
    var board :- Named(contents.board, BoardOf);
    var product :- Named(contents.product, ProductOf);
    Some(Record(chassis, board, product))
  }

  // ---------------------------------------------------------------- what it should see

  /** What the encoder promises of a field: nothing of an absent one, the first 63 bytes of a longer one. */
  function Text(v: Option<Data>): Data {
    match v
    case None => []
    case Some(text) => if |text| > 63 then text[..63] else text
  }

  function Texts(custom: seq<Data>): (texts: seq<Data>)
    ensures |texts| == |custom|
  {
    seq(|custom|, i requires 0 <= i < |custom| => Text(Some(custom[i])))
  }

  function GivenChassis(c: ChassisInfo): Chassis {
    Chassis(c.kind, Text(c.partNumber), Text(c.serialNumber), Texts(c.custom))
  }

  /** English, and a date left unspecified. */
  function GivenBoard(b: BoardInfo): Board {
    Board(0, 0, Text(b.manufacturer), Text(b.productName), Text(b.serialNumber), Text(b.partNumber),
          Text(b.fruFileId), Texts(b.custom))
  }

  function GivenProduct(p: ProductInfo): Product {
    Product(0, Text(p.manufacturer), Text(p.productName), Text(p.partNumber), Text(p.version), Text(p.serialNumber),
            Text(p.assetTag), Text(p.fruFileId), Texts(p.custom))
  }

  function Given(c: Option<ChassisInfo>, b: Option<BoardInfo>, p: Option<ProductInfo>): Record {
    Record(if c.Some? then Some(GivenChassis(c.value)) else None,
           if b.Some? then Some(GivenBoard(b.value)) else None,
           if p.Some? then Some(GivenProduct(p.value)) else None)
  }

  // ---------------------------------------------------------------- each name stands for one place

  lemma KeptIsText(v: Option<Data>)
    ensures Kept(v) == Text(v)
  {
  }

  lemma KeptCustoms(custom: seq<Data>)
    ensures KeptAll(Customs(custom)) == Texts(custom)
  {
    hide Kept, Text;
    forall i | 0 <= i < |custom|
      ensures Kept(Some(custom[i])) == Text(Some(custom[i]))
    {
      KeptIsText(Some(custom[i]));
    }
  }

  /** The fields in front of the custom ones, and the custom ones. */
  lemma KeptFields(fixed: seq<Option<Data>>, custom: seq<Data>)
    ensures var kept := KeptAll(fixed + Customs(custom));
      && |kept| == |fixed| + |custom| && kept[|fixed|..] == Texts(custom)
      && forall i :: 0 <= i < |fixed| ==> kept[i] == Text(fixed[i])
  {
    hide Kept, Text;
    KeptCustoms(custom);
    var kept := KeptAll(fixed + Customs(custom));
    assert kept[|fixed|..] == KeptAll(Customs(custom));
    forall i | 0 <= i < |fixed|
      ensures kept[i] == Text(fixed[i])
    {
      KeptIsText(fixed[i]);
    }
  }

  lemma SeenChassis(c: ChassisInfo, area: Area)
    requires |area.fixed| == 1
    ensures area == SeenArea([c.kind], ChassisFields(c)) <==> ChassisOf(area) == Some(GivenChassis(c))
  {
    hide Text, KeptAll;
    KeptFields([c.partNumber, c.serialNumber], c.custom);
    if ChassisOf(area) == Some(GivenChassis(c)) {
      SameFields(area.fields, KeptAll(ChassisFields(c)), 2);
    }
  }

  lemma SeenBoard(b: BoardInfo, area: Area)
    requires |area.fixed| == 4
    ensures area == SeenArea([0, 0, 0, 0], BoardFields(b)) <==> BoardOf(area) == Some(GivenBoard(b))
  {
    hide Text, KeptAll, FromLe;
    KeptFields([b.manufacturer, b.productName, b.serialNumber, b.partNumber, b.fruFileId], b.custom);
    ZeroDate(area.fixed[1..4]);
    if BoardOf(area) == Some(GivenBoard(b)) {
      assert area.fixed == [area.fixed[0]] + area.fixed[1..4];
      SameFields(area.fields, KeptAll(BoardFields(b)), 5);
    }
  }

  lemma SeenProduct(p: ProductInfo, area: Area)
    requires |area.fixed| == 1
    ensures area == SeenArea([0], ProductFields(p)) <==> ProductOf(area) == Some(GivenProduct(p))
  {
    hide Text, KeptAll;
    KeptFields([p.manufacturer, p.productName, p.partNumber, p.version, p.serialNumber, p.assetTag, p.fruFileId],
               p.custom);
    if ProductOf(area) == Some(GivenProduct(p)) {
      SameFields(area.fields, KeptAll(ProductFields(p)), 7);
    }
  }

  lemma SameFields(f: seq<Data>, g: seq<Data>, n: nat)
    requires n <= |f| && n <= |g| && f[n..] == g[n..] && forall i :: 0 <= i < n ==> f[i] == g[i]
    ensures f == g
  {
    assert f == f[..n] + f[n..] && g == g[..n] + g[n..];
  }

  lemma ZeroDate(date: Data)
    requires |date| == 3
    ensures FromLe(date) == 0 <==> date == [0, 0, 0]
  {
    assert FromLe(date) == date[0] + 256 * FromLe(date[1..]);
    assert FromLe(date[1..]) == date[1] + 256 * FromLe(date[2..]);
    assert FromLe(date[2..]) == date[2];
  }

  lemma SlotShape(image: Data, block: byte, fixedLength: nat)
    ensures var slot := ReadSlot(image, block, fixedLength);
      slot.Some? && slot.value.Present? ==> |slot.value.area.fixed| == fixedLength
  {
    hide ReadFields, Sum;
  }

  /** The records read are those given exactly when the areas are. */
  lemma NamesDecide(image: Data, c: Option<ChassisInfo>, b: Option<BoardInfo>, p: Option<ProductInfo>)
    ensures ReadRecord(image) == Some(Given(c, b, p)) <==> ReadImage(image) == Some(Seen(c, b, p))
  {
    hide ReadSlot, SeenArea, ChassisOf, BoardOf, ProductOf, GivenChassis, GivenBoard, GivenProduct, Sum;
    if ReadImage(image).Some? {
      var contents := ReadImage(image).value;
      SlotShape(image, image[2], 1);
      SlotShape(image, image[3], 4);
      SlotShape(image, image[4], 1);
      if contents.chassis.Present? && c.Some? { SeenChassis(c.value, contents.chassis.area); }
      if contents.board.Present? && b.Some? { SeenBoard(b.value, contents.board.area); }
      if contents.product.Present? && p.Some? { SeenProduct(p.value, contents.product.area); }
    }
  }

  // ---------------------------------------------------------------- the round trip

  /** For all inputs: a reader finds the chassis type, every predefined field under its own name, and all custom fields
      in order, exactly when no field is one byte long, every length and the board offset fit their bytes, and the
      product offset fits its byte too or wraps to a block that happens to begin with the bytes of the product area. */
  lemma RoundTrip(c: Option<ChassisInfo>, b: Option<BoardInfo>, p: Option<ProductInfo>)
    ensures ReadRecord(Image(c, b, p)) == Some(Given(c, b, p))
       <==> && NoOneByteFields(c, b, p) && AreasFit(c, b, p) && OffsetsOf(c, b, p).board <= 255
            && (OffsetsOf(c, b, p).product <= 255 || CopyAtWrappedOffset(c, b, p))
  {
    hide *;
    ContentsRoundTrip(c, b, p);
    NamesDecide(Image(c, b, p), c, b, p);
  }

  /** With at most 17 custom fields a one-byte field is the only thing that can be lost. */
  lemma RoundTripUpToSeventeenCustoms(c: Option<ChassisInfo>, b: Option<BoardInfo>, p: Option<ProductInfo>)
    requires CustomCount(c, b, p) <= 17
    ensures ReadRecord(Image(c, b, p)) == Some(Given(c, b, p)) <==> NoOneByteFields(c, b, p)
  {
    SeventeenCustomFieldsFit(c, b, p);
    RoundTrip(c, b, p);
    hide Image, AreasFit, NoOneByteFields, ReadRecord, Given;
  }
}
