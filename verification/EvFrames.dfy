/** What a change of one entry leaves alone, and the exact effect of a synchronisation on the entry list. */
module EvFrames {
  import opened Bytes
  import opened EvEntries
  import opened EvOrderedMap
  import B = BootOptions
  import opened EvWorld

  // ---------------------------------------------------------------- lookups after a change

  lemma SetIsUpdate(es: seq<Entry>, name: Data, data: Data)
    ensures SetEntries(es, name, data).Some? ==> SetEntries(es, name, data).value == Update(es, name, data)
  {
  }

  lemma LookupCons(e: Entry, es: seq<Entry>, name: Data)
    ensures Lookup([e] + es, name) == if e.name == name then Some(e) else Lookup(es, name)
  {
    assert ([e] + es)[1..] == es;
  }

  lemma {:induction false} LookupUpdate(es: seq<Entry>, name: Data, data: Data, other: Data)
    ensures Lookup(Update(es, name, data), other)
         == if other == name then Some(Entry(name, data)) else Lookup(es, other)
  {
    hide Find, Lookup;
    if es == [] {
      assert Update(es, name, data) == [Entry(name, data)] + es;
      LookupCons(Entry(name, data), es, other);
      LookupNone(other);
    } else {
      assert es == [es[0]] + es[1..];
      LookupCons(es[0], es[1..], other);
      LookupCons(Entry(name, data), es[1..], other);
      LookupUpdate(es[1..], name, data, other);
      UpdateCons(es, name, data);
      LookupCons(es[0], Update(es[1..], name, data), other);
    }
  }

  lemma LookupNone(name: Data)
    ensures Lookup([], name) == None
  {
  }

  lemma NamesDiffer(es: seq<Entry>)
    requires es != [] && Unique(es)
    ensures Unique(es[1..]) && Lookup(es[1..], es[0].name) == None
  {
    assert forall j :: 0 <= j < |es[1..]| ==> es[1..][j].name != es[0].name;
  }

  lemma {:induction false} LookupDropped(es: seq<Entry>, name: Data, other: Data)
    requires Unique(es)
    ensures Lookup(Dropped(es, name), other) == if other == name then None else Lookup(es, other)
  {
    if es == [] {
      LookupNone(other);
    } else {
      hide Find, Lookup, Dropped;
      assert es == [es[0]] + es[1..];
      NamesDiffer(es);
      LookupCons(es[0], es[1..], other);
      LookupDropped(es[1..], name, other);
      DroppedCons(es, name);
      LookupCons(es[0], Dropped(es[1..], name), other);
    }
  }

  lemma DroppedIsGood(es: seq<Entry>, name: Data)
    requires GoodEntries(es)
    ensures GoodEntries(Dropped(es, name))
  {
    hide GoodEntries, SerializedSize;
    if DelEntries(es, name).Some? {
      DelKeepsGood(es, name);
    }
  }

  // ---------------------------------------------------------------- boot options after a change of another entry

  predicate NoBootOption(name: Data) {
    B.OptionNumber(name).None? && B.BootOptionId(name).None?
  }

  lemma OptionsCons(e: Entry, es: seq<Entry>)
    ensures Options([e] + es) ==
      (if B.OptionNumber(e.name).Some? && B.ParseBootOptionName(e.data).Some?
       then [B.BootOption(B.OptionNumber(e.name).value, B.ParseBootOptionName(e.data).value)] else [])
      + Options(es)
    ensures NoBootOption(e.name) ==> Options([e] + es) == Options(es) && Ours([e] + es) == Ours(es)
    ensures Ours([e] + es) ==
      if B.BootOptionId(e.name).Some? && B.ParseBootOptionName(e.data).Some?
      then Ours(es)[BOOT_KEY_PREFIX + B.BootOptionId(e.name).value :=
                    BootAttribute(B.ParseBootOptionName(e.data).value)]
      else Ours(es)
  {
    hide B.OptionNumber, B.BootOptionId, B.ParseBootOptionName;
    assert ([e] + es)[1..] == es;
  }

  lemma {:induction false} UpdateKeepsOptions(es: seq<Entry>, name: Data, data: Data)
    requires NoBootOption(name)
    ensures Options(Update(es, name, data)) == Options(es) && Ours(Update(es, name, data)) == Ours(es)
  {
    hide B.OptionNumber, B.BootOptionId, B.ParseBootOptionName, Options, Ours, Find;
    if es == [] {
      assert Update(es, name, data) == [Entry(name, data)] + es;
      OptionsCons(Entry(name, data), es);
    } else {
      hide Update;
      assert es == [es[0]] + es[1..];
      UpdateKeepsOptions(es[1..], name, data);
      UpdateCons(es, name, data);
      OptionsCons(es[0], es[1..]);
      OptionsCons(Entry(name, data), es[1..]);
      OptionsCons(es[0], Update(es[1..], name, data));
    }
  }

  lemma {:induction false} DroppedKeepsOptions(es: seq<Entry>, name: Data)
    requires NoBootOption(name)
    ensures Options(Dropped(es, name)) == Options(es) && Ours(Dropped(es, name)) == Ours(es)
  {
    hide B.OptionNumber, B.BootOptionId, B.ParseBootOptionName, Options, Ours;
    if es != [] {
      hide Dropped;
      assert es == [es[0]] + es[1..];
      DroppedKeepsOptions(es[1..], name);
      DroppedCons(es, name);
      OptionsCons(es[0], es[1..]);
      OptionsCons(es[0], Dropped(es[1..], name));
    }
  }

  // ---------------------------------------------------------------- one synchronisation

  function StoreOr(es: seq<Entry>, name: Data, data: Data): seq<Entry> {
    SetEntries(es, name, data).GetOr(es)
  }

  function Persisted(es: seq<Entry>, option: u16): seq<Entry> {
    var e := Lookup(es, B.BOOT_ORDER);
    if e.None? || |e.value.data| < 2 then es else StoreOr(es, B.BOOT_ORDER, B.Reorder(e.value.data, option))
  }

  /** The entry list after a synchronisation that resolved to `option`. */
  function Synced(es: seq<Entry>, option: Option<u16>, oneTime: bool): seq<Entry> {
    if option.None? then Dropped(es, B.BOOT_NEXT)
    else if oneTime then StoreOr(es, B.BOOT_NEXT, B.EncodeOption(option.value))
    else Persisted(Dropped(es, B.BOOT_NEXT), option.value)
  }

  lemma OwnNamesAreNoOptions()
    ensures NoBootOption(B.BOOT_NEXT) && NoBootOption(B.BOOT_ORDER) && B.BOOT_NEXT != B.BOOT_ORDER
    ensures GoodName(B.BOOT_NEXT) && GoodName(B.BOOT_ORDER)
    ensures !(B.BOOT_PREFIX <= B.BOOT_NEXT) && !(B.BOOT_PREFIX <= B.BOOT_ORDER)
  {
    B.OwnNames();
  }

  lemma ClearOneTimeShape(w: World, save: Save, io: Io)
    ensures var after := ClearOneTime(w, save, io);
      after == w.(entries := Dropped(w.entries, B.BOOT_NEXT), file := after.file)
  {
    hide Find;
    OwnNamesAreNoOptions();
  }

  lemma ApplyOneTimeShape(w: World, option: u16, save: Save, io: Io)
    ensures var after := ApplyOneTime(w, option, save, io);
      after == w.(entries := StoreOr(w.entries, B.BOOT_NEXT, B.EncodeOption(option)), file := after.file)
  {
    hide SetEntries, Lookup, ClearOverride, Publish, FileAfter, B.EncodeOption;
    OwnNamesAreNoOptions();
    SetIsUpdate(w.entries, B.BOOT_NEXT, B.EncodeOption(option));
    LookupUpdate(w.entries, B.BOOT_NEXT, B.EncodeOption(option), B.BOOT_NEXT);
  }

  lemma ApplyPersistentShape(w: World, option: u16, save: Save, io: Io)
    ensures var after := ApplyPersistent(w, option, save, io);
      after == w.(entries := Persisted(w.entries, option), file := after.file)
  {
    hide SetEntries, Lookup, ClearOverride, Publish, FileAfter, B.Reorder;
    OwnNamesAreNoOptions();
  }

  /** A synchronisation rewrites the two boot entries and the file, and nothing else: no setting, no signal,
      no table entry changes, whatever fails on the way. */
  lemma SyncShape(w: World, io: Io)
    ensures var option := ResolveTarget(w.entries, BootSource(w, io), BootMode(w, io));
      var after := SyncEffective(w, io);
      after == w.(entries := Synced(w.entries, option, OneTimeEnabled(w, io)), file := after.file)
  {
    hide ClearOneTime, ApplyOneTime, ApplyPersistent, ResolveTarget, Persisted, StoreOr, Dropped;
    var option := ResolveTarget(w.entries, BootSource(w, io), BootMode(w, io));
    ClearOneTimeShape(w, io.save, io);
    if option.Some? {
      ApplyOneTimeShape(w, option.value, io.save, io);
      ApplyPersistentShape(ClearOneTime(w, io.save, io), option.value, io.save2, io);
    }
  }
}
