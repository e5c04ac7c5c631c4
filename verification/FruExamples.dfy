/** Inputs on either side of the conditions under which a FRU image reads back. */
module FruExamples {
  import opened Bytes
  import opened Fru
  import opened FruRoundTrip
  import opened FruNames

  /** What is written of fields depends only on what is kept of them. */
  lemma {:induction false} KeptDecides(a: seq<Option<Data>>, b: seq<Option<Data>>)
    requires |a| == |b| && forall i :: 0 <= i < |a| ==> Kept(a[i]) == Kept(b[i])
    ensures PrintFields(a) == PrintFields(b)
  {
    hide Kept;
    if a != [] {
      KeptDecides(a[1..], b[1..]);
    }
  }

  lemma {:induction false} EqualFieldsSize(fields: seq<Option<Data>>, length: nat)
    requires forall i :: 0 <= i < |fields| ==> |Kept(fields[i])| == length
    ensures |PrintFields(fields)| == |fields| * (1 + length)
  {
    hide Kept;
    if fields != [] {
      EqualFieldsSize(fields[1..], length);
      assert |fields| * (1 + length) == |fields[1..]| * (1 + length) + (1 + length);
    }
  }

  // ---------------------------------------------------------------- a product offset that wraps

  /** Seven empty fields behind one byte: an area of two blocks. */
  function ShortChassis(kind: byte): ChassisInfo {
    ChassisInfo(kind, None, None, [[], [], [], [], []])
  }

  /** Sixty-three custom fields of 31 bytes: an area of 254 blocks. */
  function LongBoard(): BoardInfo {
    BoardInfo(None, None, None, None, None, seq(63, _ => Zeros(31)))
  }

  function BlankProduct(): ProductInfo {
    ProductInfo(None, None, None, None, None, None, None, [])
  }

  lemma ShortAreas(kind: byte)
    ensures PrintFields(ChassisFields(ShortChassis(kind))) == PrintFields(ProductFields(BlankProduct()))
    ensures NoOneByteField(ChassisFields(ShortChassis(kind))) && NoOneByteField(ProductFields(BlankProduct()))
    ensures Blocks(ChassisArea(ShortChassis(kind))) == 2 && Blocks(ProductArea(BlankProduct())) == 2
  {
    hide SealArea, PrintFields;
    var chassis, product := ChassisFields(ShortChassis(kind)), ProductFields(BlankProduct());
    KeptDecides(chassis, product);
    EqualFieldsSize(product, 0);
    AreaParts([kind] + PrintFields(chassis));
    AreaParts([0x00] + PrintFields(product));
  }

  lemma LongArea()
    ensures Blocks(BoardArea(LongBoard())) == 254 && NoOneByteField(BoardFields(LongBoard()))
  {
    hide SealArea, PrintFields;
    var blank, custom := [None, None, None, None, None], Customs(LongBoard().custom);
    EqualFieldsSize(blank, 0);
    EqualFieldsSize(custom, 31);
    PrintFieldsAppend(blank, custom);
    AreaParts([0x00, 0x00, 0x00, 0x00] + PrintFields(BoardFields(LongBoard())));
  }

  lemma WrappedOffset(kind: byte)
    ensures var c, b, p := Some(ShortChassis(kind)), Some(LongBoard()), Some(BlankProduct());
      && OffsetsOf(c, b, p) == Offsets(1, 3, 257)
      && AreasFit(c, b, p) && NoOneByteFields(c, b, p)
  {
    ShortAreas(kind);
    LongArea();
    AreaLengths(Some(ShortChassis(kind)), Some(LongBoard()), Some(BlankProduct()));
    hide PrintArea, NoOneByteField, ChassisFields, BoardFields, ProductFields, ShortChassis, LongBoard, BlankProduct,
      ChassisArea, BoardArea, ProductArea;
  }

  lemma ChassisAsProduct(kind: byte, more: Data)
    ensures HoldsArea(ChassisArea(ShortChassis(kind)) + more, [0x00], ProductFields(BlankProduct())) <==> kind == 0
  {
    ShortAreas(kind);
    var chassis, product := ChassisFields(ShortChassis(kind)), ProductFields(BlankProduct());
    var b := ChassisArea(ShortChassis(kind)) + more;
    AreaParts([kind] + PrintFields(chassis));
    hide Sum, SealArea, PrintFields, NoOneByteField, ReadArea, ChassisFields, ProductFields;
    assert b[2] == kind;
    if kind == 0 {
      hide HoldsArea;
      AreaBack([0x00], product, more);
      ReadsHeldArea(b, [0x00], product);
    }
  }

  lemma WrappedCopy(kind: byte)
    ensures var c, b, p := Some(ShortChassis(kind)), Some(LongBoard()), Some(BlankProduct());
      CopyAtWrappedOffset(c, b, p) <==> kind == 0
  {
    var c, b, p := Some(ShortChassis(kind)), Some(LongBoard()), Some(BlankProduct());
    WrappedOffset(kind);
    Layout(c, b, p);
    ChassisAsProduct(kind, BoardBytes(b) + ProductBytes(p));
    hide Image, HoldsArea, Sum, AreasFit, NoOneByteFields, OffsetsOf, ChassisArea, BoardBytes, ProductBytes,
      ShortChassis, LongBoard, BlankProduct, ProductFields, CommonHeader;
  }

  /** The product area starts at block 257 and the header names block 1, where the chassis area starts. The product
      is lost unless the chassis kind is zero, when the two areas are the same bytes. */
  lemma WrappedProduct(kind: byte)
    ensures var c, b, p := Some(ShortChassis(kind)), Some(LongBoard()), Some(BlankProduct());
      && OffsetsOf(c, b, p).product == 257
      && (CopyAtWrappedOffset(c, b, p) <==> kind == 0)
      && (ReadRecord(Image(c, b, p)) == Some(Given(c, b, p)) <==> kind == 0)
  {
    var c, b, p := Some(ShortChassis(kind)), Some(LongBoard()), Some(BlankProduct());
    WrappedOffset(kind);
    WrappedCopy(kind);
    RoundTrip(c, b, p);
    hide *;
  }

  // ---------------------------------------------------------------- a field of one byte

  /** A manufacturer name of one byte is lost, whatever the byte. */
  lemma OneByteManufacturer(x: byte)
    ensures var p := Some(BlankProduct().(manufacturer := Some([x])));
      ReadRecord(Image(None, None, p)) != Some(Given(None, None, p))
  {
    var product := BlankProduct().(manufacturer := Some([x]));
    RoundTripUpToSeventeenCustoms(None, None, Some(product));
    hide ReadRecord, Image, Given;
    assert |Kept(ProductFields(product)[0])| == 1;
  }
}
