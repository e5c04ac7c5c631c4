/** Changes that could not be saved or published: when the BIOS table still agrees with the store. */
module EvUnsaved {
  import opened Bytes
  import opened EvEntries
  import opened EvProtocol
  import B = BootOptions
  import opened EvWorld
  import opened EvTableRuns

  // ---------------------------------------------------------------- what is displayed for an option

  function Or(a: Option<Data>, b: Option<Data>): Option<Data> {
    if a.Some? then a else b
  }

  /** What one entry displays for the option with these two digits. */
  function Displays(e: Entry, id: Data): Option<Data> {
    if B.BootOptionId(e.name) == Some(id) then B.ParseBootOptionName(e.data) else None
  }

  /** What the list displays: the first entry that displays anything decides. */
  function Display(es: seq<Entry>, id: Data): Option<Data> {
    if es == [] then None else Or(Displays(es[0], id), Display(es[1..], id))
  }

  lemma {:induction false} DisplayAppend(a: seq<Entry>, b: seq<Entry>, id: Data)
    ensures Display(a + b, id) == Or(Display(a, id), Display(b, id))
  {
    hide Displays;
    if a == [] {
      assert a + b == b;
    } else {
      DisplayAppend(a[1..], b, id);
      assert (a + b)[1..] == a[1..] + b;
    }
  }

  lemma DisplayOne(e: Entry, id: Data)
    ensures Display([e], id) == Displays(e, id)
  {
    hide Displays;
    assert Display([e], id) == Or(Displays(e, id), Display([], id));
  }

  lemma {:induction false} OursIsDisplay(es: seq<Entry>, id: Data)
    ensures var key := BOOT_KEY_PREFIX + id;
      && (key in Ours(es) <==> Display(es, id).Some?)
      && (key in Ours(es) ==> Ours(es)[key] == BootAttribute(Display(es, id).value))
  {
    if es != [] {
      hide B.BootOptionId, B.ParseBootOptionName;
      OursIsDisplay(es[1..], id);
      var own := B.BootOptionId(es[0].name);
      if own.Some? {
        SameKey(own.value, id);
      }
    }
  }

  lemma SameKey(a: Data, b: Data)
    ensures BOOT_KEY_PREFIX + a == BOOT_KEY_PREFIX + b <==> a == b
  {
    assert (BOOT_KEY_PREFIX + a)[|BOOT_KEY_PREFIX|..] == a && (BOOT_KEY_PREFIX + b)[|BOOT_KEY_PREFIX|..] == b;
  }

  ghost predicate SameDisplays(a: seq<Entry>, b: seq<Entry>) {
    forall id: Data :: Display(a, id) == Display(b, id)
  }

  lemma SameOursDisplay(a: seq<Entry>, b: seq<Entry>, id: Data)
    requires Ours(a) == Ours(b)
    ensures Display(a, id) == Display(b, id)
  {
    hide Ours, Display;
    OursIsDisplay(a, id);
    OursIsDisplay(b, id);
  }

  lemma SameDisplaysOurs(a: seq<Entry>, b: seq<Entry>)
    requires SameDisplays(a, b)
    ensures Ours(a) == Ours(b)
  {
    hide Ours, Display;
    OursAreBootKeys(a);
    OursAreBootKeys(b);
    forall key | IsBootKey(key)
      ensures key in Ours(a) <==> key in Ours(b)
      ensures key in Ours(a) && key in Ours(b) ==> Ours(a)[key] == Ours(b)[key]
    {
      var id := key[|BOOT_KEY_PREFIX|..];
      assert key == BOOT_KEY_PREFIX + id;
      OursIsDisplay(a, id);
      OursIsDisplay(b, id);
    }
    hide IsBootKey;
    assert forall key :: key in Ours(a) <==> key in Ours(b);
  }

  /** Two lists give rise to the same attributes exactly when they display the same for every option. */
  lemma SameOurs(a: seq<Entry>, b: seq<Entry>)
    ensures Ours(a) == Ours(b) <==> SameDisplays(a, b)
  {
    hide Ours, Display;
    if Ours(a) == Ours(b) {
      forall id: Data
        ensures Display(a, id) == Display(b, id)
      {
        SameOursDisplay(a, b, id);
      }
    } else if SameDisplays(a, b) {
      SameDisplaysOurs(a, b);
    }
  }

  // ---------------------------------------------------------------- a change at one place of the list

  /** Putting `now` in the place of `was`: what is displayed for an option changes exactly when no entry in front
      decides and the two differ in what they leave displayed. */
  lemma DisplayReplaced(front: seq<Entry>, was: seq<Entry>, now: seq<Entry>, back: seq<Entry>, id: Data)
    ensures Display(front + was + back, id) == Display(front + now + back, id)
       <==> Display(front, id).Some?
            || Or(Display(was, id), Display(back, id)) == Or(Display(now, id), Display(back, id))
  {
    hide Display, Or;
    DisplayAppend(front + was, back, id);
    DisplayAppend(front, was, id);
    DisplayAppend(front + now, back, id);
    DisplayAppend(front, now, id);
    OrReplaced(Display(front, id), Display(was, id), Display(now, id), Display(back, id));
  }

  lemma OrReplaced(front: Option<Data>, was: Option<Data>, now: Option<Data>, back: Option<Data>)
    ensures Or(Or(front, was), back) == Or(Or(front, now), back) <==> front.Some? || Or(was, back) == Or(now, back)
  {
  }

  /** Whether it makes no difference between `front` and `back` that an entry called `name` displays `now` instead of
      `was`. */
  predicate SameShown(front: seq<Entry>, was: Option<Data>, now: Option<Data>, back: seq<Entry>, name: Data) {
    var id := B.BootOptionId(name);
    id.None? || Display(front, id.value).Some?
    || Or(was, Display(back, id.value)) == Or(now, Display(back, id.value))
  }

  function NameShown(data: Option<Data>): Option<Data> {
    if data.None? then None else B.ParseBootOptionName(data.value)
  }

  function AtMostOne(name: Data, data: Option<Data>): seq<Entry> {
    if data.None? then [] else [Entry(name, data.value)]
  }

  lemma DisplayAtMostOne(name: Data, data: Option<Data>, id: Data)
    ensures Display(AtMostOne(name, data), id) == if B.BootOptionId(name) == Some(id) then NameShown(data) else None
  {
    hide B.BootOptionId, B.ParseBootOptionName, Display;
    if data.Some? {
      DisplayOne(Entry(name, data.value), id);
    } else {
      NothingDisplayed(id);
    }
  }

  lemma NothingDisplayed(id: Data)
    ensures Display([], id) == None
  {
  }

  lemma OursReplaced(front: seq<Entry>, name: Data, was: Option<Data>, now: Option<Data>, back: seq<Entry>)
    ensures Ours(front + AtMostOne(name, was) + back) == Ours(front + AtMostOne(name, now) + back)
       <==> SameShown(front, NameShown(was), NameShown(now), back, name)
  {
    hide Ours, Display, B.BootOptionId, AtMostOne, NameShown;
    var a, b := front + AtMostOne(name, was) + back, front + AtMostOne(name, now) + back;
    SameOurs(a, b);
    var own := B.BootOptionId(name);
    forall id: Data
      ensures own != Some(id) ==> Display(a, id) == Display(b, id)
      ensures own == Some(id) ==>
        (Display(a, id) == Display(b, id) <==> SameShown(front, NameShown(was), NameShown(now), back, name))
    {
      DisplayReplaced(front, AtMostOne(name, was), AtMostOne(name, now), back, id);
      DisplayAtMostOne(name, was, id);
      DisplayAtMostOne(name, now, id);
    }
    if own.Some? {
      assert Display(a, own.value) == Display(b, own.value)
        <==> SameShown(front, NameShown(was), NameShown(now), back, name);
    } else {
      assert SameDisplays(a, b);
    }
  }

  // ---------------------------------------------------------------- a request whose change is not saved

  function DataAt(es: seq<Entry>, name: Data): Option<Data> {
    var e := Lookup(es, name);
    if e.None? then None else Some(e.value.data)
  }

  function Front(es: seq<Entry>, name: Data): seq<Entry> {
    es[..Find(es, name)]
  }

  function Back(es: seq<Entry>, name: Data): seq<Entry> {
    if Find(es, name) < |es| then es[Find(es, name) + 1..] else []
  }

  /** Whether the request leaves every displayed option as it is, told from the list before it. */
  predicate LeavesShown(es: seq<Entry>, r: Request) {
    match r
    case Set(name, data) =>
      SetEntries(es, name, data).None?
      || SameShown(Front(es, name), NameShown(DataAt(es, name)), B.ParseBootOptionName(data), Back(es, name), name)
    case SetEmpty(name) =>
      DataAt(es, name).None? || SameShown(Front(es, name), NameShown(DataAt(es, name)), None, Back(es, name), name)
    case Delete(name) =>
      DataAt(es, name).None? || SameShown(Front(es, name), NameShown(DataAt(es, name)), None, Back(es, name), name)
    case DeleteAll => Ours(es) == map[]
    case _ => true
  }

  lemma ListParts(es: seq<Entry>, name: Data, data: Data)
    ensures es == Front(es, name) + AtMostOne(name, DataAt(es, name)) + Back(es, name)
    ensures SetEntries(es, name, data).Some? ==>
      SetEntries(es, name, data).value == Front(es, name) + AtMostOne(name, Some(data)) + Back(es, name)
    ensures DelEntries(es, name).Some? == DataAt(es, name).Some?
    ensures DelEntries(es, name).Some? ==>
      DelEntries(es, name).value == Front(es, name) + AtMostOne(name, None) + Back(es, name)
  {
    hide SerializedSize;
    var k := Find(es, name);
    if k < |es| {
      assert es == es[..k] + [es[k]] + es[k + 1..];
      assert es[k := Entry(es[k].name, data)] == es[..k] + [Entry(name, data)] + es[k + 1..];
    }
  }

  lemma ChangeShown(es: seq<Entry>, r: Request)
    ensures Change(es, r).None? ==> LeavesShown(es, r)
    ensures Change(es, r).Some? ==> (Ours(Change(es, r).value) == Ours(es) <==> LeavesShown(es, r))
  {
    hide Ours, SameShown, SetEntries, DelEntries, Front, Back, AtMostOne, B.ParseBootOptionName, DataAt;
    match r {
      case Set(name, data) =>
        ListParts(es, name, data);
        OursReplaced(Front(es, name), name, DataAt(es, name), Some(data), Back(es, name));
      case SetEmpty(name) =>
        ListParts(es, name, []);
        OursReplaced(Front(es, name), name, DataAt(es, name), None, Back(es, name));
      case Delete(name) =>
        ListParts(es, name, []);
        OursReplaced(Front(es, name), name, DataAt(es, name), None, Back(es, name));
      case DeleteAll => NothingOurs();
      case _ =>
    }
  }

  lemma NothingOurs()
    ensures Ours([]) == map[]
  {
  }

  lemma SameTableSameOurs(w: World, after: World)
    requires TableMatches(w) && after.table == w.table && after.managed == w.managed
    ensures TableMatches(after) <==> Ours(after.entries) == Ours(w.entries)
  {
    OursAreBootKeys(w.entries);
    OursAreBootKeys(after.entries);
    hide Ours, IsBootKey;
    if TableMatches(after) {
      assert forall key :: key in Ours(w.entries) <==> key in Ours(after.entries);
    }
  }

  lemma CommitAgrees(w: World, change: Option<seq<Entry>>, name: Data, io: Io)
    requires TableMatches(w) && (!Announced(name) && change.Some? ==> Ours(change.value) == Ours(w.entries))
    ensures TableMatches(Commit(w, change, name, io.save, false, io).0)
       <==> change.None? || (io.save.Saved? && io.writeTable) || Ours(change.value) == Ours(w.entries)
  {
    hide Ours, IsBootKey, FileAfter, Lookup, Publish;
    if change.Some? {
      var changed := w.(entries := change.value, file := FileAfter(w.file, change.value, io.save));
      var notified := BootNotified(changed, name, false, io);
      assert notified.table == w.table && notified.managed == w.managed && notified.entries == change.value;
      SameTableSameOurs(w, changed);
      SameTableSameOurs(w, notified);
      PublishMatches(notified, io);
      ShownSameOurs(w, notified);
    }
  }

  lemma ShownSameOurs(w: World, after: World)
    requires TableMatches(w) && after.table == w.table
    ensures ShowsStore(after) <==> Ours(after.entries) == Ours(w.entries)
  {
    OursAreBootKeys(w.entries);
    OursAreBootKeys(after.entries);
    hide Ours, IsBootKey;
    if ShowsStore(after) {
      assert forall key :: key in Ours(w.entries) <==> key in Ours(after.entries);
    }
  }

  /** From a table that agrees, a host request leaves agreement exactly when its change is both saved and written to
      the table, or leaves every option displayed as it was: it is refused, its name is no option's, an entry in front
      decides already, or what was there and what comes instead leave the same displayed; a clearing leaves it only if
      nothing was displayed. */
  lemma TableAfterRequest(w: World, r: Request, io: Io)
    requires TableMatches(w)
    ensures TableMatches(Execute(w, r, io).0)
       <==> (io.save.Saved? && io.writeTable) || LeavesShown(w.entries, r)
  {
    ChangeShown(w.entries, r);
    hide Ours, TableMatches, Commit, SetEntries, DelEntries, ReplyTo, Announced, LeavesShown;
    match r {
      case Set(name, data) =>
        if !Announced(name) { UnannouncedKeepOurs(w.entries, name, data); }
        CommitAgrees(w, SetEntries(w.entries, name, data), name, io);
      case SetEmpty(name) =>
        if !Announced(name) { UnannouncedKeepOurs(w.entries, name, []); }
        CommitAgrees(w, DelEntries(w.entries, name), name, io);
      case Delete(name) =>
        if !Announced(name) { UnannouncedKeepOurs(w.entries, name, []); }
        CommitAgrees(w, DelEntries(w.entries, name), name, io);
      case DeleteAll =>
        EmptyIsAnnounced();
        CommitAgrees(w, Some([]), [], io);
      case _ =>
    }
  }

  /** A change that is not saved is not announced either, whatever the table would take. */
  lemma UnsavedChange(w: World, r: Request, io: Io)
    requires TableMatches(w) && !io.save.Saved?
    ensures TableMatches(Execute(w, r, io).0) <==> LeavesShown(w.entries, r)
  {
    hide TableMatches, Execute, LeavesShown;
    TableAfterRequest(w, r, io);
  }
}
