/** Loading what was saved, whole or cut short. */
module EvPersistence {
  import opened Bytes
  import opened EvEntries

  lemma {:induction false} CStringPadded(name: Data, n: nat)
    requires 0 !in name
    ensures CString(name + Zeros(n)) == name
  {
    if name == [] {
      assert name + Zeros(n) == Zeros(n);
    } else {
      assert (name + Zeros(n))[1..] == name[1..] + Zeros(n);
      CStringPadded(name[1..], n);
    }
  }

  lemma CStringWhole(name: Data)
    requires 0 !in name
    ensures CString(name) == name
  {
    CStringPadded(name, 0);
    assert name + Zeros(0) == name;
  }

  lemma NameFieldIs(name: Data)
    requires GoodName(name)
    ensures NameField(name) == name + Zeros(32 - |name|)
  {
    CStringWhole(name);
  }

  predicate GoodEntry(e: Entry) {
    GoodName(e.name) && |e.data| <= MAX_DATA_SIZE
  }

  lemma NameBack(name: Data)
    requires GoodName(name)
    ensures CString(NameField(name)[..31]) == name
  {
    hide CString;
    CStringWhole(name);
    CStringPadded(name, 31 - |name|);
    assert NameField(name)[..31] == name + Zeros(31 - |name|);
  }

  lemma EntryImageParts(e: Entry)
    requires GoodEntry(e)
    ensures EntryImage(e) == NameField(e.name) + Le(|e.data|, 2) + e.data
    ensures |EntryImage(e)| == ENTRY_OVERHEAD + |e.data|
  {
    hide NameField, Le;
    assert e.data[..|e.data|] == e.data;
  }

  /** The fields of the first entry, read from an image that reaches past its length field. */
  lemma FirstEntry(e: Entry, b: Data, more: Data)
    requires GoodEntry(e) && |b| >= ENTRY_OVERHEAD && b <= EntryImage(e) + more
    ensures FromLe(b[32..34]) == |e.data| && CString(b[..31]) == e.name
    ensures |b| >= |EntryImage(e)| ==> b[34..|EntryImage(e)|] == e.data
  {
    hide NameField, Le, FromLe, CString, EntryImage;
    Widths();
    EntryImageParts(e);
    NameBack(e.name);
    LeInverse(|e.data|, 2);
    var whole := NameField(e.name) + Le(|e.data|, 2) + e.data + more;
    assert b == whole[..|b|];
    assert b[32..34] == whole[32..34] == Le(|e.data|, 2);
    assert b[..31] == whole[..31] == NameField(e.name)[..31];
    if |b| >= |EntryImage(e)| {
      assert b[34..|EntryImage(e)|] == whole[34..|EntryImage(e)|] == e.data;
    }
  }

  /** How many leading entries lie wholly inside the first `k` bytes behind the header. */
  function WholeEntries(es: seq<Entry>, k: nat): (n: nat)
    ensures n <= |es|
  {
    if es == [] || |EntryImage(es[0])| > k then 0 else 1 + WholeEntries(es[1..], k - |EntryImage(es[0])|)
  }

  lemma ImagesCons(es: seq<Entry>)
    requires es != []
    ensures Flat(EntryImages(es)) == EntryImage(es[0]) + Flat(EntryImages(es[1..]))
  {
    hide Flat, EntryImage;
    FlatCons(EntryImages(es));
    assert EntryImages(es)[1..] == EntryImages(es[1..]);
  }

  lemma {:induction false} LoadPrefix(es: seq<Entry>, k: nat, totalRead: nat)
    requires forall i :: 0 <= i < |es| ==> GoodEntry(es[i])
    requires totalRead + SerializedSize(es) - HEADER_SIZE <= MAX_FILE_SIZE
    requires k <= |Flat(EntryImages(es))|
    ensures LoadEntries(Flat(EntryImages(es))[..k], |es|, totalRead) == es[..WholeEntries(es, k)]
    decreases |es|
  {
    hide Flat, EntryImage, EntryImages, GoodEntry, LoadEntries, SerializedSize;
    if es == [] {
      LoadsNothing(Flat(EntryImages(es))[..k], totalRead);
    } else {
      hide WholeEntries;
      var size := |EntryImage(es[0])|;
      EntryImageParts(es[0]);
      SizeCons(es);
      LoadStep(es, k, totalRead);
      WholeCons(es, k);
      if k >= size {
        LoadPrefix(es[1..], k - size, totalRead + size);
        TakeCons(es, WholeEntries(es[1..], k - size));
      }
    }
  }

  lemma LoadsNothing(b: Data, totalRead: nat)
    ensures LoadEntries(b, 0, totalRead) == []
  {
  }

  lemma SizeCons(es: seq<Entry>)
    requires es != []
    ensures SerializedSize(es) == ENTRY_OVERHEAD + |es[0].data| + SerializedSize(es[1..])
  {
  }

  lemma WholeCons(es: seq<Entry>, k: nat)
    requires es != []
    ensures WholeEntries(es, k)
         == if k < |EntryImage(es[0])| then 0 else 1 + WholeEntries(es[1..], k - |EntryImage(es[0])|)
  {
    hide EntryImage;
  }

  lemma TakeCons(es: seq<Entry>, n: nat)
    requires es != [] && n < |es|
    ensures es[..1 + n] == [es[0]] + es[1..][..n]
  {
  }

  lemma LoadStep(es: seq<Entry>, k: nat, totalRead: nat)
    requires es != [] && GoodEntry(es[0]) && totalRead + |EntryImage(es[0])| <= MAX_FILE_SIZE
    requires k <= |Flat(EntryImages(es))|
    ensures |EntryImage(es[0])| == ENTRY_OVERHEAD + |es[0].data|
    ensures |Flat(EntryImages(es))| == |EntryImage(es[0])| + |Flat(EntryImages(es[1..]))|
    ensures LoadEntries(Flat(EntryImages(es))[..k], |es|, totalRead)
         == if k < |EntryImage(es[0])| then []
            else [es[0]] + LoadEntries(Flat(EntryImages(es[1..]))[..k - |EntryImage(es[0])|], |es| - 1,
                                       totalRead + |EntryImage(es[0])|)
  {
    hide Flat, EntryImage, EntryImages, LoadEntries;
    var rest := Flat(EntryImages(es[1..]));
    EntryImageParts(es[0]);
    ImagesCons(es);
    if k < |EntryImage(es[0])| {
      LoadNothing(es[0], (EntryImage(es[0]) + rest)[..k], rest, |es|, totalRead);
    } else {
      PrefixOfSum(EntryImage(es[0]), rest, k);
      LoadFirst(es[0], (EntryImage(es[0]) + rest)[..k], rest, |es|, totalRead);
    }
  }

  lemma PrefixOfSum(a: Data, rest: Data, k: nat)
    requires |a| <= k <= |a| + |rest|
    ensures (a + rest)[..k] <= a + rest && (a + rest)[..k][|a|..] == rest[..k - |a|]
  {
  }

  lemma LoadNothing(e: Entry, b: Data, more: Data, count: nat, totalRead: nat)
    requires GoodEntry(e) && b <= EntryImage(e) + more && |b| < |EntryImage(e)|
    ensures LoadEntries(b, count, totalRead) == []
  {
    hide EntryImage, CString, FromLe;
    EntryImageParts(e);
    if |b| >= ENTRY_OVERHEAD {
      FirstEntry(e, b, more);
    }
  }

  lemma LoadFirst(e: Entry, b: Data, more: Data, count: nat, totalRead: nat)
    requires GoodEntry(e) && b <= EntryImage(e) + more && |b| >= |EntryImage(e)| && count > 0
    requires totalRead + |EntryImage(e)| <= MAX_FILE_SIZE
    ensures LoadEntries(b, count, totalRead)
         == [e] + LoadEntries(b[|EntryImage(e)|..], count - 1, totalRead + |EntryImage(e)|)
  {
    hide EntryImage, CString, FromLe;
    EntryImageParts(e);
    FirstEntry(e, b, more);
  }

  lemma {:induction false} AllWhole(es: seq<Entry>)
    requires forall i :: 0 <= i < |es| ==> GoodEntry(es[i])
    ensures WholeEntries(es, |Flat(EntryImages(es))|) == |es|
    ensures |Flat(EntryImages(es))| == SerializedSize(es) - HEADER_SIZE
    decreases |es|
  {
    if es != [] {
      hide Flat, EntryImage;
      EntryImageParts(es[0]);
      ImagesCons(es);
      AllWhole(es[1..]);
    } else {
      assert Flat(EntryImages(es)) == [];
    }
  }

  /** A partial count or magic is the low end of the number: never more than the number itself. */
  lemma {:induction false} LowBytes(b: Data, k: nat)
    requires k <= |b|
    ensures FromLe(b[..k]) <= FromLe(b) && FromLe(b[..k]) < Pow256(k)
  {
    if k > 0 {
      LowBytes(b[1..], k - 1);
      assert b[..k][1..] == b[1..][..k - 1];
    }
  }

  /** Loading any prefix of a saved image: the entries that are wholly in the prefix, in order, and an error
      code exactly when even the magic number is cut. */
  lemma LoadOfTruncation(es: seq<Entry>, k: nat)
    requires GoodEntries(es) && k <= |Image(es)|
    ensures Load(Some(Image(es)[..k]))
         == (if k < 4 then -1 else 0, if k < HEADER_SIZE then [] else es[..WholeEntries(es, k - HEADER_SIZE)])
  {
    CountBound(es);
    HeaderFields(es, k);
    hide Image, LoadEntries, WholeEntries, PartialField, SerializedSize, Unique;
    if k >= HEADER_SIZE {
      LoadBody(es, k);
    }
  }

  lemma LoadBody(es: seq<Entry>, k: nat)
    requires GoodEntries(es) && HEADER_SIZE <= k <= |Image(es)|
    ensures LoadEntries(Image(es)[..k][8..], |es|, HEADER_SIZE) == es[..WholeEntries(es, k - HEADER_SIZE)]
  {
    hide Flat, Le, EntryImages, LoadEntries, WholeEntries;
    var body := Flat(EntryImages(es));
    AllWhole(es);
    assert Image(es)[..k][8..] == body[..k - HEADER_SIZE];
    LoadPrefix(es, k - HEADER_SIZE, HEADER_SIZE);
  }

  lemma ImageShape(es: seq<Entry>)
    requires |es| <= MAX_COUNT
    ensures Image(es) == Le(FILE_MAGIC, 4) + (Le(|es|, 4) + Flat(EntryImages(es)))
  {
    assert |es| % 0x1_0000_0000 == |es|;
  }

  lemma HeaderFields(es: seq<Entry>, k: nat)
    requires |es| <= MAX_COUNT && k <= |Image(es)|
    ensures (PartialField(Image(es)[..k], 0, 4) == FILE_MAGIC) == (k >= 4)
    ensures PartialField(Image(es)[..k], 4, 4) <= |es|
    ensures k >= 8 ==> PartialField(Image(es)[..k], 4, 4) == |es|
  {
    hide Flat, EntryImages, FromLe, Le;
    Widths();
    hide Image;
    ImageShape(es);
    var b := Image(es)[..k];
    var magic, count := Le(FILE_MAGIC, 4), Le(|es|, 4);
    LeInverse(FILE_MAGIC, 4);
    LeInverse(|es|, 4);
    if k < 4 {
      assert b[0..k] == magic[..k];
      LowBytes(magic, k);
      PowersGrow(k);
    } else {
      assert b[0..4] == magic;
      if k > 4 {
        var n := if k < 8 then k - 4 else 4;
        assert Image(es)[4..8] == count;
        SliceOfPrefix(Image(es), k, 4, 8, n);
        assert count[..4] == count;
        LowBytes(count, n);
      }
    }
    Empty();
  }

  lemma SliceOfPrefix(b: Data, k: nat, lo: nat, hi: nat, n: nat)
    requires lo + n <= k <= |b| && lo + n <= hi <= |b|
    ensures b[..k][lo..lo + n] == b[lo..hi][..n]
  {
    var left, right := b[..k][lo..lo + n], b[lo..hi][..n];
    assert forall i :: 0 <= i < n ==> left[i] == right[i];
  }

  lemma PowersGrow(k: nat)
    requires k < 4
    ensures Pow256(k) <= 0x100_0000
  {
    if k > 0 {
      PowersGrow(k - 1);
    }
    assert Pow256(0) == 1 && Pow256(1) == 0x100 && Pow256(2) == 0x1_0000;
    assert Pow256(3) == 256 * Pow256(2);
  }

  lemma Empty()
    ensures FromLe([]) == 0
  {
  }

  /** What `save` writes, `load` reads back. */
  lemma LoadOfSave(es: seq<Entry>)
    requires GoodEntries(es)
    ensures Load(Some(Image(es))) == (0, es)
    ensures |Image(es)| == SerializedSize(es)
  {
    hide Flat, SerializedSize, EntryImages, LoadEntries, Load;
    var k := |Image(es)|;
    AllWhole(es);
    LoadOfTruncation(es, k);
    assert Image(es)[..k] == Image(es) && es[..|es|] == es;
  }
}
