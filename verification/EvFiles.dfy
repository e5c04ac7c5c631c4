/** The EV file byte by byte: what a save writes, and what a load takes from any file. */
module EvFiles {
  import opened Bytes
  import opened EvEntries
  import P = EvPersistence

  // ---------------------------------------------------------------- the layout

  /** An entry of a file, whatever it holds: the 32 bytes of its name field, and its data behind their length. */
  datatype Raw = Raw(nameField: Data, data: Data)

  predicate WellFormed(r: Raw) {
    |r.nameField| == 32 && |r.data| < 0x1_0000
  }

  predicate AllWellFormed(rs: seq<Raw>) {
    forall i :: 0 <= i < |rs| ==> WellFormed(rs[i])
  }

  function PrintRaw(r: Raw): Data {
    r.nameField + (Le(|r.data|, 2) + r.data)
  }

  function PrintRaws(rs: seq<Raw>): Data {
    if rs == [] then [] else PrintRaw(rs[0]) + PrintRaws(rs[1..])
  }

  function File(magic: Data, count: nat, body: Data): Data {
    magic + (Le(count, 4) + body)
  }

  /** A name of at most 31 bytes, filled up with NUL bytes. */
  function RawOf(e: Entry): Raw
    requires |e.name| < 32
  {
    Raw(e.name + Zeros(32 - |e.name|), e.data)
  }

  function RawsOf(es: seq<Entry>): (rs: seq<Raw>)
    requires forall i :: 0 <= i < |es| ==> |es[i].name| < 32
    ensures |rs| == |es|
  {
    seq(|es|, i requires 0 <= i < |es| => RawOf(es[i]))
  }

  // ---------------------------------------------------------------- saving

  lemma MagicBytes()
    ensures Le(FILE_MAGIC, 4) == Ascii("EVS1")
  {
    assert Le(FILE_MAGIC, 4) == [FILE_MAGIC % 256] + ([FILE_MAGIC / 256 % 256] + Le(0x3153, 2));
    TwoBytes(0x3153);
  }

  lemma ImageOfEntry(e: Entry)
    requires P.GoodEntry(e)
    ensures EntryImage(e) == PrintRaw(RawOf(e))
  {
    hide Le, NameField;
    P.EntryImageParts(e);
    P.NameFieldIs(e.name);
    Regroup(NameField(e.name), Le(|e.data|, 2), e.data);
  }

  lemma {:induction false} ImagesOfEntries(es: seq<Entry>)
    requires forall i :: 0 <= i < |es| ==> P.GoodEntry(es[i]) && |es[i].name| < 32
    ensures Flat(EntryImages(es)) == PrintRaws(RawsOf(es))
  {
    hide EntryImage, PrintRaw, RawOf, Flat;
    if es == [] {
      FlatNone();
      assert EntryImages(es) == [];
    } else {
      P.ImagesCons(es);
      ImageOfEntry(es[0]);
      ImagesOfEntries(es[1..]);
      assert RawsOf(es)[1..] == RawsOf(es[1..]);
    }
  }

  /** A save writes the four characters `EVS1`, the number of entries, and each entry with its name in 32 bytes, the
      length of its data in two, and its data. */
  lemma SavedLayout(es: seq<Entry>)
    requires GoodEntries(es)
    ensures Image(es) == File(Ascii("EVS1"), |es|, PrintRaws(RawsOf(es)))
  {
    hide Le, Flat, EntryImages, PrintRaws, RawsOf, Ascii, SerializedSize, Image;
    CountBound(es);
    P.ImageShape(es);
    MagicBytes();
    ImagesOfEntries(es);
  }

  // ---------------------------------------------------------------- loading

  /** The leading entries within the count whose data are no longer than 3966 bytes and which together fit `room`. */
  function Taken(rs: seq<Raw>, count: nat, room: nat): seq<Entry>
    decreases |rs|
  {
    if rs == [] || count == 0 || |rs[0].data| > 3966 || 34 + |rs[0].data| > room || |rs[0].nameField| != 32 then []
    else [Entry(CString(rs[0].nameField[..31]), rs[0].data)] + Taken(rs[1..], count - 1, room - (34 + |rs[0].data|))
  }

  /** The bytes hold no whole entry. */
  predicate CutOff(tail: Data) {
    |tail| < 34 || |tail| < 34 + FromLe(tail[32..34])
  }

  lemma FirstRaw(r: Raw, rest: Data)
    requires WellFormed(r)
    ensures var b := PrintRaw(r) + rest;
      && |b| >= 34 + |r.data| && b[..31] == r.nameField[..31] && FromLe(b[32..34]) == |r.data|
      && b[34..34 + |r.data|] == r.data && b[34 + |r.data|..] == rest
  {
    hide Le, FromLe;
    Widths();
    LeInverse(|r.data|, 2);
    var b := PrintRaw(r) + rest;
    assert b[32..34] == Le(|r.data|, 2);
  }

  lemma LoadRaw(r: Raw, rest: Data, count: nat, totalRead: nat)
    requires WellFormed(r) && count > 0
    ensures var size := 34 + |r.data|;
      LoadEntries(PrintRaw(r) + rest, count, totalRead)
      == if |r.data| > 3966 || totalRead + size > 65536 then []
         else [Entry(CString(r.nameField[..31]), r.data)] + LoadEntries(rest, count - 1, totalRead + size)
  {
    FirstRaw(r, rest);
    hide FromLe, CString, PrintRaw;
  }

  lemma LoadNoRaw(tail: Data, count: nat, totalRead: nat)
    requires count == 0 || CutOff(tail)
    ensures LoadEntries(tail, count, totalRead) == []
  {
    hide FromLe, CString;
  }

  lemma {:induction false} LoadsTaken(rs: seq<Raw>, tail: Data, count: nat, totalRead: nat)
    requires AllWellFormed(rs) && totalRead <= 65536 && (|rs| >= count || CutOff(tail))
    ensures LoadEntries(PrintRaws(rs) + tail, count, totalRead) == Taken(rs, count, 65536 - totalRead)
    decreases |rs|
  {
    hide CString, PrintRaw, LoadEntries, CutOff;
    if rs == [] || count == 0 {
      assert rs == [] ==> PrintRaws(rs) + tail == tail;
      LoadNoRaw(PrintRaws(rs) + tail, count, totalRead);
    } else {
      var rest := PrintRaws(rs[1..]) + tail;
      Regroup(PrintRaw(rs[0]), PrintRaws(rs[1..]), tail);
      LoadRaw(rs[0], rest, count, totalRead);
      var size := 34 + |rs[0].data|;
      if |rs[0].data| <= 3966 && totalRead + size <= 65536 {
        LoadsTaken(rs[1..], tail, count - 1, totalRead + size);
      }
    }
  }

  lemma HeaderRead(magic: Data, count: nat, body: Data)
    requires |magic| == 4 && count < 0x1_0000_0000
    ensures var b := File(magic, count, body);
      && |b| >= 8 && b[8..] == body
      && (PartialField(b, 0, 4) == FILE_MAGIC <==> magic == Ascii("EVS1")) && PartialField(b, 4, 4) == count
  {
    hide Le, FromLe, Ascii;
    Widths();
    LeInverse(count, 4);
    LeInverse(FILE_MAGIC, 4);
    FromLeInverse(magic);
    MagicBytes();
    var b := File(magic, count, body);
    assert b[0..4] == magic && b[4..8] == Le(count, 4);
  }

  /** Any file with a whole header: another magic or a count beyond 10000 is an error that leaves the store empty; else
      the leading entries are taken that are whole, within the count and within the limits. Every body is a list of
      whole entries with a cut-off one behind it. */
  lemma LoadOfFile(magic: Data, count: nat, rs: seq<Raw>, tail: Data)
    requires |magic| == 4 && count < 0x1_0000_0000
    requires AllWellFormed(rs) && (|rs| >= count || CutOff(tail))
    ensures Load(Some(File(magic, count, PrintRaws(rs) + tail)))
         == if magic != Ascii("EVS1") || count > 10000 then (-1, []) else (0, Taken(rs, count, 65528))
  {
    hide LoadEntries, PrintRaws, Taken, PartialField, File, Ascii, CutOff;
    HeaderRead(magic, count, PrintRaws(rs) + tail);
    LoadsTaken(rs, tail, count, 8);
  }

  /** Every body is such a list: whole entries, and a cut-off one behind them. */
  lemma {:induction false} EveryBody(body: Data) returns (rs: seq<Raw>, tail: Data)
    ensures AllWellFormed(rs) && CutOff(tail) && body == PrintRaws(rs) + tail
    decreases |body|
  {
    if CutOff(body) {
      rs, tail := [], body;
    } else {
      hide FromLe, Le;
      U16(body[32..34]);
      FromLeInverse(body[32..34]);
      var size := 34 + FromLe(body[32..34]);
      var first := Raw(body[..32], body[34..size]);
      assert body == PrintRaw(first) + body[size..];
      rs, tail := EveryBody(body[size..]);
      Regroup(PrintRaw(first), PrintRaws(rs), tail);
      assert ([first] + rs)[1..] == rs;
      rs := [first] + rs;
    }
  }

  /** A file cut inside its header: an error if not even the magic is there, or if the bytes of the count that are there
      say more than 10000; an empty store otherwise. */
  lemma LoadOfShortFile(b: Data)
    requires |b| < 8
    ensures Load(Some(b))
         == if |b| < 4 || b[..4] != Ascii("EVS1") || FromLe(b[4..]) > 10000 then (-1, []) else (0, [])
  {
    hide FromLe, Ascii;
    Widths();
    LeInverse(FILE_MAGIC, 4);
    MagicBytes();
    if |b| < 4 {
      FromLeInverse(b);
      P.PowersGrow(|b|);
      assert b[0..|b|] == b;
    } else {
      FromLeInverse(b[..4]);
      assert b[0..4] == b[..4] && b[4..|b|] == b[4..] && (|b| == 4 ==> b[4..] == []);
      P.Empty();
    }
  }
}
