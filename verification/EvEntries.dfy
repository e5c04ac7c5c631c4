/** The entry list of the EV store: lookup, update within the file limit, and its image on disk. */
module EvEntries {
  import opened Bytes

  datatype Entry = Entry(name: Data, data: Data)

  const MAX_FILE_SIZE := 65536
  const MAX_NAME_LENGTH := 32
  const MAX_DATA_SIZE := 3966
  const FILE_MAGIC := 0x3153_5645
  const ENTRY_OVERHEAD := MAX_NAME_LENGTH + 2
  const HEADER_SIZE := 8
  const MAX_COUNT := 10000

  // ---------------------------------------------------------------- lookup and update

  /** The index of the first entry called `name`, or the length when there is none. */
  function Find(es: seq<Entry>, name: Data): (k: nat)
    ensures k <= |es|
    ensures k < |es| ==> es[k].name == name
    ensures forall j :: 0 <= j < k ==> es[j].name != name
  {
    if es == [] || es[0].name == name then 0 else 1 + Find(es[1..], name)
  }

  function Lookup(es: seq<Entry>, name: Data): (e: Option<Entry>)
  {
    if Find(es, name) < |es| then Some(es[Find(es, name)]) else None
  }

  function SerializedSize(es: seq<Entry>): (n: nat)
    ensures n >= HEADER_SIZE
  {
    if es == [] then HEADER_SIZE else ENTRY_OVERHEAD + |es[0].data| + SerializedSize(es[1..])
  }

  /** What is left of the file limit. */
  function RemainingSize(es: seq<Entry>): nat {
    if SerializedSize(es) < MAX_FILE_SIZE then MAX_FILE_SIZE - SerializedSize(es) else 0
  }

  /** The list after setting `name`, or nothing when the store refuses. */
  function SetEntries(es: seq<Entry>, name: Data, data: Data): Option<seq<Entry>> {
    if name == [] || |name| >= MAX_NAME_LENGTH || |data| > MAX_DATA_SIZE then None
    else
      var k := Find(es, name);
      if k < |es| then
        if |data| > |es[k].data| && SerializedSize(es) + (|data| - |es[k].data|) > MAX_FILE_SIZE then None
        else Some(es[k := Entry(es[k].name, data)])
      else if SerializedSize(es) + ENTRY_OVERHEAD + |data| > MAX_FILE_SIZE then None
      else Some(es + [Entry(name, data)])
  }

  function DelEntries(es: seq<Entry>, name: Data): Option<seq<Entry>> {
    var k := Find(es, name);
    if k < |es| then Some(es[..k] + es[k + 1..]) else None
  }

  // ---------------------------------------------------------------- what every reachable list satisfies

  predicate Unique(es: seq<Entry>) {
    forall i, j :: 0 <= i < j < |es| ==> es[i].name != es[j].name
  }

  predicate GoodName(name: Data) {
    0 < |name| < MAX_NAME_LENGTH && 0 !in name
  }

  predicate GoodEntries(es: seq<Entry>) {
    && Unique(es)
    && (forall i :: 0 <= i < |es| ==> GoodName(es[i].name) && |es[i].data| <= MAX_DATA_SIZE)
    && SerializedSize(es) <= MAX_FILE_SIZE
  }

  lemma UniqueOfGood(es: seq<Entry>)
    requires GoodEntries(es)
    ensures Unique(es)
  {
  }

  lemma {:induction false} SizeAppend(a: seq<Entry>, b: seq<Entry>)
    ensures SerializedSize(a + b) == SerializedSize(a) + SerializedSize(b) - HEADER_SIZE
  {
    if a == [] {
      assert a + b == b;
    } else {
      SizeAppend(a[1..], b);
      assert (a + b)[1..] == a[1..] + b;
    }
  }

  lemma SizeSplit(es: seq<Entry>, k: nat)
    requires k < |es|
    ensures SerializedSize(es) ==
      SerializedSize(es[..k]) + ENTRY_OVERHEAD + |es[k].data| + SerializedSize(es[k + 1..]) - HEADER_SIZE
  {
    SizeAppend(es[..k], es[k..]);
    assert es == es[..k] + es[k..] && es[k..][1..] == es[k + 1..];
  }

  lemma SetKeepsGood(es: seq<Entry>, name: Data, data: Data)
    requires GoodEntries(es) && 0 !in name && SetEntries(es, name, data).Some?
    ensures GoodEntries(SetEntries(es, name, data).value)
  {
    hide SerializedSize, Find;
    var k := Find(es, name);
    var after := SetEntries(es, name, data).value;
    if k < |es| {
      SizeSplit(es, k);
      SizeSplit(after, k);
      assert after[..k] == es[..k] && after[k + 1..] == es[k + 1..];
    } else {
      SizeSplit(after, |es|);
      assert after[..|es|] == es && after[|es| + 1..] == [];
      SizeOfNone();
    }
  }

  lemma SizeOfNone()
    ensures SerializedSize([]) == HEADER_SIZE
  {
  }

  lemma DelKeepsGood(es: seq<Entry>, name: Data)
    requires GoodEntries(es) && DelEntries(es, name).Some?
    ensures GoodEntries(DelEntries(es, name).value)
  {
    hide SerializedSize, Find;
    var k := Find(es, name);
    var after := DelEntries(es, name).value;
    SizeSplit(es, k);
    SizeAppend(es[..k], es[k + 1..]);
    forall i, j | 0 <= i < j < |after|
      ensures after[i].name != after[j].name
    {
      assert after[i] == es[if i < k then i else i + 1] && after[j] == es[if j < k then j else j + 1];
    }
  }

  lemma NoneIsGood()
    ensures GoodEntries([])
  {
  }

  lemma {:induction false} CountTimesOverhead(es: seq<Entry>)
    ensures HEADER_SIZE + ENTRY_OVERHEAD * |es| <= SerializedSize(es)
  {
    if es != [] {
      CountTimesOverhead(es[1..]);
    }
  }

  /** The file limit leaves room for 1927 entries, far below the count `load` takes for unreasonable. */
  lemma CountBound(es: seq<Entry>)
    requires SerializedSize(es) <= MAX_FILE_SIZE
    ensures |es| <= 1927 < MAX_COUNT
  {
    CountTimesOverhead(es);
  }

  // ---------------------------------------------------------------- the file image

  /** A C string: the bytes in front of the first NUL. */
  function CString(b: Data): (s: Data)
    ensures |s| <= |b| && 0 !in s && s == b[..|s|]
    ensures |s| < |b| ==> b[|s|] == 0
  {
    if b == [] || b[0] == 0 then [] else [b[0]] + CString(b[1..])
  }

  /** A name in its NUL-padded 32-byte field. */
  function NameField(name: Data): (b: Data)
    ensures |b| == MAX_NAME_LENGTH
  {
    var s := CString(name);
    var kept := if |s| < MAX_NAME_LENGTH then s else s[..MAX_NAME_LENGTH - 1];
    kept + Zeros(MAX_NAME_LENGTH - |kept|)
  }

  function EntryImage(e: Entry): Data {
    var length := |e.data| % 0x1_0000;
    NameField(e.name) + (Le(length, 2) + e.data[..length])
  }

  function EntryImages(es: seq<Entry>): (parts: seq<Data>)
    ensures |parts| == |es|
  {
    seq(|es|, i requires 0 <= i < |es| => EntryImage(es[i]))
  }

  /** What `save` writes. */
  function Image(es: seq<Entry>): Data {
    Le(FILE_MAGIC, 4) + (Le(|es| % 0x1_0000_0000, 4) + Flat(EntryImages(es)))
  }

  /** What `load` takes from the bytes behind the header: entries as long as they are whole and fit. */
  function LoadEntries(b: Data, count: nat, totalRead: nat): (es: seq<Entry>)
  {
    if count == 0 || |b| < ENTRY_OVERHEAD then []
    else
      var length := FromLe(b[32..34]);
      var size := ENTRY_OVERHEAD + length;
      if length > MAX_DATA_SIZE || totalRead + size > MAX_FILE_SIZE || |b| < size then []
      else [Entry(CString(b[..31]), b[34..size])] + LoadEntries(b[size..], count - 1, totalRead + size)
  }

  /** A field read from a stream that may end inside it: the missing bytes stay zero. */
  function PartialField(b: Data, at: nat, width: nat): nat {
    if at >= |b| then 0 else FromLe(b[at..if at + width <= |b| then at + width else |b|])
  }

  /** The result code of `load` and the entries it leaves in memory, from a file that can be opened if it is there. */
  function Load(file: Option<Data>): (r: (int, seq<Entry>))
  {
    match file
    case None => (0, [])
    case Some(b) =>
      if PartialField(b, 0, 4) != FILE_MAGIC || PartialField(b, 4, 4) > MAX_COUNT then (-1, [])
      else if |b| < HEADER_SIZE then (0, [])
      else (0, LoadEntries(b[8..], PartialField(b, 4, 4), HEADER_SIZE))
  }

  /** A file that is there and cannot be opened is an error, and leaves the store empty. */
  function LoadFile(file: Option<Data>, opens: bool): (int, seq<Entry>) {
    if file.Some? && !opens then (-1, []) else Load(file)
  }
}
