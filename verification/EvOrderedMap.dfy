/** The EV store seen from outside: an insertion-ordered map with a byte capacity. */
module EvOrderedMap {
  import opened Bytes
  import opened EvEntries

  datatype OrderedMap = OrderedMap(keys: seq<Data>, values: map<Data, Data>) {
    predicate Valid() {
      && (forall i, j :: 0 <= i < j < |keys| ==> keys[i] != keys[j])
      && (forall k :: k in keys ==> k in values) && (forall k :: k in values ==> k in keys)
    }

    /** The bytes the contents take on disk. */
    function Used(): nat
      requires forall k :: k in keys ==> k in values
      decreases |keys|
    {
      if keys == [] then 8
      else 34 + |values[keys[0]]| + OrderedMap(keys[1..], values).Used()
    }

    function Put(key: Data, value: Data): OrderedMap {
      OrderedMap(if key in values then keys else keys + [key], values[key := value])
    }

    function Remove(key: Data): OrderedMap {
      OrderedMap(Without(keys, key), values - {key})
    }

    /** A value is admitted when the whole map still fits the file afterwards. */
    predicate Admits(key: Data, value: Data)
      requires Valid()
    {
      && 0 < |key| < 32 && |value| <= 3966
      && (PutStaysValid(key, value); Put(key, value).Used() <= 65536)
    }

    lemma PutStaysValid(key: Data, value: Data)
      requires Valid()
      ensures Put(key, value).Valid()
    {
      var after := Put(key, value);
      if key !in values {
        assert forall k :: k in after.keys <==> k in keys || k == key;
      }
    }
  }

  function Without(keys: seq<Data>, key: Data): seq<Data> {
    if keys == [] then []
    else if keys[0] == key then keys[1..]
    else [keys[0]] + Without(keys[1..], key)
  }

  // ---------------------------------------------------------------- the map an entry list stands for

  function Names(es: seq<Entry>): (names: seq<Data>)
    ensures |names| == |es| && forall i :: 0 <= i < |es| ==> names[i] == es[i].name
  {
    seq(|es|, i requires 0 <= i < |es| => es[i].name)
  }

  function Values(es: seq<Entry>): (values: map<Data, Data>) {
    if es == [] then map[] else Values(es[1..])[es[0].name := es[0].data]
  }

  function Abstract(es: seq<Entry>): OrderedMap {
    OrderedMap(Names(es), Values(es))
  }

  lemma {:induction false} ValuesAt(es: seq<Entry>, name: Data)
    ensures name in Values(es) <==> Find(es, name) < |es|
    ensures name in Values(es) <==> name in Names(es)
    ensures name in Values(es) ==> Values(es)[name] == es[Find(es, name)].data
  {
    if es != [] {
      ValuesAt(es[1..], name);
      assert Names(es) == [es[0].name] + Names(es[1..]);
    }
  }

  lemma AbstractIsValid(es: seq<Entry>)
    requires Unique(es)
    ensures Abstract(es).Valid()
  {
    forall name
      ensures name in Names(es) <==> name in Values(es)
    {
      ValuesAt(es, name);
    }
  }

  lemma {:induction false} SizeIsUsed(es: seq<Entry>, values: map<Data, Data>)
    requires forall i :: 0 <= i < |es| ==> es[i].name in values && values[es[i].name] == es[i].data
    ensures OrderedMap(Names(es), values).Used() == SerializedSize(es)
  {
    if es != [] {
      SizeIsUsed(es[1..], values);
      assert Names(es)[1..] == Names(es[1..]);
    }
  }

  lemma {:induction false} FindAt(es: seq<Entry>, i: nat)
    requires i < |es| && forall j :: 0 <= j < i ==> es[j].name != es[i].name
    ensures Find(es, es[i].name) == i
  {
    if i > 0 {
      FindAt(es[1..], i - 1);
    }
  }

  lemma AbstractSize(es: seq<Entry>)
    requires Unique(es)
    ensures Abstract(es).Valid() && Abstract(es).Used() == SerializedSize(es)
  {
    AbstractIsValid(es);
    forall i | 0 <= i < |es|
      ensures es[i].name in Values(es) && Values(es)[es[i].name] == es[i].data
    {
      FindAt(es, i);
      ValuesAt(es, es[i].name);
    }
    SizeIsUsed(es, Values(es));
  }

  // ---------------------------------------------------------------- updates

  /** The list after a set that the limits allow. */
  function Update(es: seq<Entry>, name: Data, data: Data): seq<Entry> {
    var k := Find(es, name);
    if k < |es| then es[k := Entry(name, data)] else es + [Entry(name, data)]
  }

  lemma UpdateCons(es: seq<Entry>, name: Data, data: Data)
    requires es != []
    ensures Update(es, name, data)
         == if es[0].name == name then [Entry(name, data)] + es[1..] else [es[0]] + Update(es[1..], name, data)
  {
  }

  lemma ValuesCons(e: Entry, es: seq<Entry>)
    ensures Values([e] + es) == Values(es)[e.name := e.data]
  {
    assert ([e] + es)[1..] == es;
  }

  lemma {:induction false} UpdateValues(es: seq<Entry>, name: Data, data: Data)
    ensures Values(Update(es, name, data)) == Values(es)[name := data]
  {
    if es == [] {
      assert Update(es, name, data) == [Entry(name, data)] + es;
      ValuesCons(Entry(name, data), es);
    } else {
      hide Update;
      UpdateValues(es[1..], name, data);
      UpdateCons(es, name, data);
      ValuesCons(Entry(name, data), es[1..]);
      ValuesCons(es[0], Update(es[1..], name, data));
    }
  }

  lemma UpdateIsPut(es: seq<Entry>, name: Data, data: Data)
    ensures Abstract(Update(es, name, data)) == Abstract(es).Put(name, data)
  {
    UpdateValues(es, name, data);
    ValuesAt(es, name);
    var k := Find(es, name);
    if k < |es| {
      assert Names(Update(es, name, data)) == Names(es);
    } else {
      assert Names(Update(es, name, data)) == Names(es) + [name];
    }
  }

  lemma UpdateSize(es: seq<Entry>, name: Data, data: Data)
    ensures Find(es, name) < |es| ==>
      SerializedSize(Update(es, name, data)) == SerializedSize(es) - |es[Find(es, name)].data| + |data|
    ensures Find(es, name) == |es| ==>
      SerializedSize(Update(es, name, data)) == SerializedSize(es) + ENTRY_OVERHEAD + |data|
  {
    hide SerializedSize;
    var k, after := Find(es, name), Update(es, name, data);
    if k < |es| {
      SizeSplit(es, k);
      SizeSplit(after, k);
      assert after[..k] == es[..k] && after[k + 1..] == es[k + 1..];
    } else {
      SizeSplit(after, |es|);
      assert after[..|es|] == es && after[|es| + 1..] == [];
      SizeOfNone();
    }
  }

  /** Setting a name is the map's put, admitted exactly when the map says so. */
  lemma SetRefinesPut(es: seq<Entry>, name: Data, data: Data)
    requires GoodEntries(es) && 0 !in name
    ensures Abstract(es).Valid()
    ensures SetEntries(es, name, data).Some? <==> Abstract(es).Admits(name, data)
    ensures SetEntries(es, name, data).Some? ==>
      Abstract(SetEntries(es, name, data).value) == Abstract(es).Put(name, data)
  {
    hide SerializedSize, Values, Find;
    AbstractSize(es);
    var m, after := Abstract(es), Update(es, name, data);
    UpdateIsPut(es, name, data);
    UpdateSize(es, name, data);
    m.PutStaysValid(name, data);
    UpdateIsUnique(es, name, data);
    AbstractSize(after);
  }

  lemma UpdateIsUnique(es: seq<Entry>, name: Data, data: Data)
    requires Unique(es)
    ensures Unique(Update(es, name, data))
  {
  }

  /** The list after a delete, whether or not the name was there. */
  function Dropped(es: seq<Entry>, name: Data): seq<Entry> {
    DelEntries(es, name).GetOr(es)
  }

  lemma DroppedCons(es: seq<Entry>, name: Data)
    requires es != []
    ensures Dropped(es, name) == if es[0].name == name then es[1..] else [es[0]] + Dropped(es[1..], name)
  {
    var k := Find(es, name);
    if 0 < k < |es| {
      assert es[..k] == [es[0]] + es[1..][..k - 1] && es[k + 1..] == es[1..][k..];
    }
  }

  lemma NamesCons(e: Entry, es: seq<Entry>)
    ensures Names([e] + es) == [e.name] + Names(es)
  {
  }

  lemma WithoutCons(first: Data, keys: seq<Data>, key: Data)
    ensures Without([first] + keys, key) == (if first == key then keys else [first] + Without(keys, key))
  {
    assert ([first] + keys)[1..] == keys;
  }

  lemma {:induction false} DropNames(es: seq<Entry>, name: Data)
    ensures Names(Dropped(es, name)) == Without(Names(es), name)
  {
    if es == [] {
      assert Names(es) == [];
    } else {
      hide Dropped, Names, Without;
      DropNames(es[1..], name);
      DroppedCons(es, name);
      assert es == [es[0]] + es[1..];
      NamesCons(es[0], es[1..]);
      NamesCons(es[0], Dropped(es[1..], name));
      WithoutCons(es[0].name, Names(es[1..]), name);
    }
  }

  lemma UniqueTail(es: seq<Entry>)
    requires es != [] && Unique(es)
    ensures Unique(es[1..]) && Find(es[1..], es[0].name) == |es| - 1
  {
  }

  lemma TakeOut(values: map<Data, Data>, key: Data, value: Data)
    requires key !in values
    ensures values[key := value] - {key} == values
  {
  }

  lemma TakeOutOther(values: map<Data, Data>, key: Data, other: Data, value: Data)
    requires key != other
    ensures (values - {key})[other := value] == values[other := value] - {key}
  {
  }

  lemma {:induction false} DropValues(es: seq<Entry>, name: Data)
    requires Unique(es)
    ensures Values(Dropped(es, name)) == Values(es) - {name}
  {
    if es == [] {
      assert Dropped(es, name) == es && Values(es) == map[];
    } else {
      hide Dropped, Values, Unique, Find;
      var first, rest := es[0], es[1..];
      assert es == [first] + rest;
      UniqueTail(es);
      DropValues(rest, name);
      DroppedCons(es, name);
      ValuesCons(first, rest);
      if first.name == name {
        ValuesAt(rest, name);
        TakeOut(Values(rest), name, first.data);
      } else {
        ValuesCons(first, Dropped(rest, name));
        TakeOutOther(Values(rest), name, first.name, first.data);
      }
    }
  }

  /** Deleting a name is the map's removal, done exactly when the name is there. */
  lemma DelRefinesRemove(es: seq<Entry>, name: Data)
    requires Unique(es)
    ensures DelEntries(es, name).Some? <==> name in Abstract(es).values
    ensures Abstract(Dropped(es, name)) == Abstract(es).Remove(name)
  {
    hide Values, Without, Names;
    ValuesAt(es, name);
    DropValues(es, name);
    DropNames(es, name);
  }
}
