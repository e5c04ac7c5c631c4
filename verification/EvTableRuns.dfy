/** Over runs: values that stay what they were set to, a file that stays the store, and a BIOS table that stays
    what the store says. */
module EvTableRuns {
  import opened Bytes
  import opened EvEntries
  import opened EvOrderedMap
  import opened EvProtocol
  import P = EvPersistence
  import B = BootOptions
  import opened EvWorld
  import opened EvFrames
  import opened EvRuns
  import opened EvBootRuns

  // ---------------------------------------------------------------- the file stays the store

  /** A restart now would find exactly the present entries. */
  predicate OnDisk(w: World) {
    Load(w.file).1 == w.entries
  }

  /** Every save succeeds, and a restart can open the file. */
  predicate SavesOk(e: Event) {
    match e
    case Host(r, io) => WellFormed(r) && io.save.Saved?
    case Deliver(io) => io.save.Saved? && io.save2.Saved?
    case Restart(io, _, opens) => io.save.Saved? && io.save2.Saved? && opens
    case _ => true
  }

  lemma SyncSaves(w: World, io: Io)
    requires io.save.Saved? && io.save2.Saved?
    ensures var after := SyncEffective(w, io);
      after.file == Some(Image(after.entries)) || (after.file == w.file && after.entries == w.entries)
  {
    hide Image, SetEntries, DelEntries, Lookup, ResolveTarget, B.EncodeOption, B.Reorder, Commit;
    var option := ResolveTarget(w.entries, BootSource(w, io), BootMode(w, io));
    CommitFrame(w, DelEntries(w.entries, B.BOOT_NEXT), B.BOOT_NEXT, io.save, true, io);
    if option.Some? {
      var encoded := B.EncodeOption(option.value);
      CommitFrame(w, SetEntries(w.entries, B.BOOT_NEXT, encoded), B.BOOT_NEXT, io.save, false, io);
      var cleared := ClearOneTime(w, io.save, io);
      var e := Lookup(cleared.entries, B.BOOT_ORDER);
      if e.Some? {
        var order := B.Reorder(e.value.data, option.value);
        CommitFrame(cleared, SetEntries(cleared.entries, B.BOOT_ORDER, order), B.BOOT_ORDER, io.save2, false, io);
      }
    }
  }

  lemma SyncKeepsOnDisk(w: World, io: Io)
    requires Inv(w) && OnDisk(w) && io.save.Saved? && io.save2.Saved?
    ensures Inv(SyncEffective(w, io)) && OnDisk(SyncEffective(w, io))
  {
    SyncKeepsInv(w, io);
    SyncSaves(w, io);
    var after := SyncEffective(w, io);
    hide SyncEffective, Load, Image, GoodEntries, FileOk;
    P.LoadOfSave(after.entries);
  }

  lemma NextKeepsOnDisk(w: World, e: Event)
    requires Inv(w) && OnDisk(w) && SavesOk(e)
    ensures Inv(Next(w, e)) && OnDisk(Next(w, e))
  {
    NextKeepsInv(w, e);
    hide SyncEffective, Execute, Load, Image, GoodEntries, FileOk, Publish;
    match e {
      case Host(r, io) =>
        ExecuteIsServe(w, r, io);
        P.LoadOfSave(Next(w, e).entries);
      case Deliver(io) =>
        if w.signals > 0 {
          SyncKeepsOnDisk(w.(signals := w.signals - 1), io);
        }
      case Restart(io, io2, opens) =>
        SyncKeepsOnDisk(Loaded(w, opens), io);
        PublishFrame(SyncEffective(Loaded(w, opens), io), io2);
      case _ =>
    }
  }

  /** While saves succeed, a restart at any point of any run finds exactly the entries that were there. */
  lemma {:induction false} StoreStaysOnDisk(w: World, events: seq<Event>)
    requires Inv(w) && OnDisk(w) && forall i :: 0 <= i < |events| ==> SavesOk(events[i])
    ensures OnDisk(Run(w, events))
    decreases |events|
  {
    if events != [] {
      hide Inv, OnDisk, Next, SavesOk;
      NextKeepsOnDisk(w, events[0]);
      StoreStaysOnDisk(Next(w, events[0]), events[1..]);
    }
  }

  // ---------------------------------------------------------------- a value stays until it is changed

  predicate OwnName(name: Data) {
    name == B.BOOT_NEXT || name == B.BOOT_ORDER
  }

  /** The host does not touch the name; for its own two names, the boot service does not synchronise. */
  predicate Spares(e: Event, name: Data) {
    match e
    case Host(r, _) =>
      (match r
       case Set(other, _) => other != name
       case SetEmpty(other) => other != name
       case Delete(other) => other != name
       case DeleteAll => false
       case _ => true) && WellFormed(r)
    case Deliver(_) => !OwnName(name)
    case Restart(_, _, opens) => !OwnName(name) && opens
    case _ => true
  }

  lemma ServeKeepsLookup(w: World, r: Request, io: Io, name: Data)
    requires Unique(w.entries) && Spares(Host(r, io), name)
    ensures Lookup(Serve(w.entries, r, io.save.Saved?).0, name) == Lookup(w.entries, name)
  {
    hide Lookup, Unique, SetEntries, DelEntries, Update;
    match r {
      case Set(other, data) =>
        SetIsUpdate(w.entries, other, data);
        LookupUpdate(w.entries, other, data, name);
      case SetEmpty(other) => LookupDropped(w.entries, other, name);
      case Delete(other) => LookupDropped(w.entries, other, name);
      case _ =>
    }
  }

  lemma SyncKeepsLookup(w: World, io: Io, name: Data)
    requires Unique(w.entries) && !OwnName(name)
    ensures Lookup(SyncEffective(w, io).entries, name) == Lookup(w.entries, name)
  {
    hide SyncEffective, ResolveTarget, Lookup, SetEntries, Dropped, B.Reorder, B.EncodeOption, Unique;
    SyncShape(w, io);
    var option := ResolveTarget(w.entries, BootSource(w, io), BootMode(w, io));
    LookupsAfterDrop(w.entries, name);
    if option.Some? {
      StoreOrLookups(w.entries, B.BOOT_NEXT, B.EncodeOption(option.value), name);
      PersistedLookups(Dropped(w.entries, B.BOOT_NEXT), option.value, name);
    }
  }

  lemma NextKeepsLookup(w: World, e: Event, name: Data)
    requires Inv(w) && Spares(e, name) && (e.Restart? ==> OnDisk(w))
    ensures Inv(Next(w, e)) && Lookup(Next(w, e).entries, name) == Lookup(w.entries, name)
  {
    NextKeepsInv(w, e);
    UniqueOfGood(w.entries);
    hide Inv, SyncEffective, Execute, Lookup, Unique, GoodEntries, Load, Publish, OwnName;
    match e {
      case Host(r, io) =>
        ExecuteIsServe(w, r, io);
        ServeKeepsLookup(w, r, io, name);
      case Deliver(io) =>
        if w.signals > 0 {
          SyncKeepsLookup(w.(signals := w.signals - 1), io, name);
        }
      case Restart(io, io2, opens) =>
        SyncKeepsLookup(Loaded(w, opens), io, name);
        PublishFrame(SyncEffective(Loaded(w, opens), io), io2);
      case _ =>
    }
  }

  /** Every restart finds on disk what is in memory: all saves before it succeed. */
  predicate RestartsAfterSaves(events: seq<Event>) {
    forall i, j :: 0 <= j < i < |events| && events[i].Restart? ==> SavesOk(events[j])
  }

  predicate Restarts(events: seq<Event>) {
    exists i :: 0 <= i < |events| && events[i].Restart?
  }

  lemma {:induction false} RunKeepsLookup(w: World, events: seq<Event>, name: Data)
    requires Inv(w) && (forall i :: 0 <= i < |events| ==> Spares(events[i], name))
    requires RestartsAfterSaves(events) && (Restarts(events) ==> OnDisk(w))
    ensures Inv(Run(w, events)) && Lookup(Run(w, events).entries, name) == Lookup(w.entries, name)
    decreases |events|
  {
    if events != [] {
      hide Inv, Next, Spares, Lookup, OnDisk, SavesOk;
      var rest := events[1..];
      NextKeepsLookup(w, events[0], name);
      assert forall i :: 0 <= i < |rest| ==> rest[i] == events[i + 1];
      if Restarts(rest) {
        var i :| 0 <= i < |rest| && rest[i].Restart?;
        assert events[i + 1].Restart?;
        NextKeepsOnDisk(w, events[0]);
      }
      RunKeepsLookup(Next(w, events[0]), rest, name);
    }
  }

  lemma SetThenGetByName(w: World, name: Data, data: Data, io: Io, events: seq<Event>, io2: Io)
    requires Inv(w) && WellFormed(Set(name, data)) && Execute(w, Set(name, data), io).1 == Code(0)
    requires (forall i :: 0 <= i < |events| ==> Spares(events[i], name)) && RestartsAfterSaves(events)
    ensures var later := Run(Execute(w, Set(name, data), io).0, events);
      Inv(later) && Execute(later, GetByName(name), io2).1 == Reading(name, data)
  {
    var after := Next(w, Host(Set(name, data), io));
    NextKeepsInv(w, Host(Set(name, data), io));
    ExecuteIsServe(w, Set(name, data), io);
    SetIsUpdate(w.entries, name, data);
    LookupUpdate(w.entries, name, data, name);
    P.LoadOfSave(after.entries);
    assert OnDisk(after);
    hide Inv, Spares, SetEntries, Update, Lookup, OnDisk, RestartsAfterSaves, Restarts, Load, Image;
    RunKeepsLookup(after, events, name);
    ExecuteIsServe(Run(after, events), GetByName(name), io2);
  }

  lemma NameHasIndex(w: World, name: Data, io: Io)
    requires Execute(w, GetByName(name), io).1.EvData?
    ensures exists k ::
      0 <= k < |w.entries| && Execute(w, GetByIndex(k), io).1 == Execute(w, GetByName(name), io).1
  {
    var k := Find(w.entries, name);
    assert Execute(w, GetByIndex(k), io).1 == Execute(w, GetByName(name), io).1;
  }

  /** A value that was set successfully is what a later read returns, by name and under the index that the name has,
      over any run that spares the name; the memory variables always read as the same four bytes. The run may restart
      the service as long as the saves before it succeed, and for the two names of the boot service it may not
      synchronise. */
  lemma SetThenGet(w: World, name: Data, data: Data, io: Io, events: seq<Event>, io2: Io)
    requires Inv(w) && WellFormed(Set(name, data)) && Execute(w, Set(name, data), io).1 == Code(0)
    requires (forall i :: 0 <= i < |events| ==> Spares(events[i], name)) && RestartsAfterSaves(events)
    ensures var later := Run(Execute(w, Set(name, data), io).0, events);
      var value := if Ascii("CQHMEM") <= name then [0x40, 0x60, 0x54, 0x00] else data;
      && Inv(later) && Execute(later, GetByName(name), io2).1 == EvData(name, value)
      && exists k :: 0 <= k < |later.entries| && Execute(later, GetByIndex(k), io2).1 == EvData(name, value)
  {
    hide Inv, Spares, RestartsAfterSaves, Run, Execute;
    SetThenGetByName(w, name, data, io, events, io2);
    NameHasIndex(Run(Execute(w, Set(name, data), io).0, events), name, io2);
  }

  // ---------------------------------------------------------------- the table stays what the store says

  predicate IsBootKey(key: Data) {
    Ascii("Boot") <= key && |key| == 6
  }

  lemma {:induction false} OursAreBootKeys(es: seq<Entry>)
    ensures forall key :: key in Ours(es) ==> IsBootKey(key)
  {
    hide B.BootOptionId, B.ParseBootOptionName;
    if es != [] {
      OursAreBootKeys(es[1..]);
    }
  }

  /** The boot attributes in the table are exactly those the store gives rise to. */
  ghost predicate ShowsStore(w: World) {
    forall key :: IsBootKey(key) ==>
      && (key in w.table <==> key in Ours(w.entries))
      && (key in w.table && key in Ours(w.entries) ==> w.table[key] == Ours(w.entries)[key])
  }

  /** The table shows the store, and exactly its boot attributes are managed. */
  ghost predicate TableMatches(w: World) {
    w.managed == Ours(w.entries).Keys && ShowsStore(w)
  }

  predicate Orderly(e: Event) {
    && SavesOk(e)
    && match e
       case Host(_, io) => io.readTable && io.writeTable
       case OtherProvider(key, _) => !IsBootKey(key)
       case Restart(_, io2, _) => io2.readTable && io2.writeTable
       case _ => true
  }

  /** Publishing leaves agreement exactly when, with the table written, it could not be read first or every boot
      attribute in it is managed or generated; and with the table not written, it showed the store already. */
  lemma PublishMatches(w: World, io: Io)
    ensures TableMatches(Publish(w, io)) <==>
      if io.writeTable then
        !io.readTable || forall key :: IsBootKey(key) && key in w.table ==> key in w.managed || key in Ours(w.entries)
      else ShowsStore(w)
  {
    OursAreBootKeys(w.entries);
    hide Ours, IsBootKey;
    var after := Publish(w, io);
    if io.writeTable && io.readTable {
      forall key | IsBootKey(key) && key in w.table && key !in w.managed && key !in Ours(w.entries)
        ensures !TableMatches(after)
      {
        assert key in after.table;
      }
    }
  }

  predicate Announced(name: Data) {
    name == [] || B.BOOT_PREFIX <= name
  }

  lemma CommitMatches(w: World, change: Option<seq<Entry>>, name: Data, io: Io)
    requires TableMatches(w) && io.save.Saved? && io.readTable && io.writeTable
    requires !Announced(name) && change.Some? ==> Ours(change.value) == Ours(w.entries)
    ensures TableMatches(Commit(w, change, name, io.save, false, io).0)
  {
    hide Ours, IsBootKey, FileAfter, Lookup;
    if change.Some? {
      var changed := w.(entries := change.value, file := FileAfter(w.file, change.value, io.save));
      var notified := BootNotified(changed, name, false, io);
      assert notified.table == w.table && notified.managed == w.managed && notified.entries == change.value;
      if Announced(name) {
        PublishMatches(notified, io);
      }
    }
  }

  lemma CommitLeavesTable(w: World, change: Option<seq<Entry>>, name: Data, io: Io)
    requires !Announced(name) || change.None?
    ensures var after := Commit(w, change, name, io.save, false, io).0;
      after.table == w.table && after.managed == w.managed
  {
    hide FileAfter, Lookup;
  }

  /** A request about a variable that is no boot option leaves the table and the managed keys alone. */
  lemma OtherNamesLeaveTable(w: World, r: Request, io: Io)
    requires Inv(w) && !r.DeleteAll?
    requires match r
             case Set(name, _) => !(Ascii("CQSBOOT") <= name)
             case SetEmpty(name) => !(Ascii("CQSBOOT") <= name)
             case Delete(name) => !(Ascii("CQSBOOT") <= name)
             case _ => true
    ensures Execute(w, r, io).0.table == w.table && Execute(w, r, io).0.managed == w.managed
  {
    hide Commit, SetEntries, DelEntries, ReplyTo;
    match r {
      case Set(name, data) =>
        StoredIsThere(w.entries, name, data);
        CommitLeavesTable(w, SetEntries(w.entries, name, data), name, io);
      case SetEmpty(name) =>
        NamedEntry(w.entries, name);
        CommitLeavesTable(w, DelEntries(w.entries, name), name, io);
      case Delete(name) =>
        NamedEntry(w.entries, name);
        CommitLeavesTable(w, DelEntries(w.entries, name), name, io);
      case _ =>
    }
  }

  lemma UnannouncedKeepOurs(es: seq<Entry>, name: Data, data: Data)
    requires !Announced(name)
    ensures SetEntries(es, name, data).Some? ==> Ours(SetEntries(es, name, data).value) == Ours(es)
    ensures DelEntries(es, name).Some? ==> Ours(DelEntries(es, name).value) == Ours(es)
  {
    hide Ours, SetEntries, Update;
    SetIsUpdate(es, name, data);
    UpdateKeepsOptions(es, name, data);
    DroppedKeepsOptions(es, name);
  }

  lemma ExecuteMatches(w: World, r: Request, io: Io)
    requires TableMatches(w) && io.save.Saved? && io.readTable && io.writeTable
    ensures TableMatches(Execute(w, r, io).0)
  {
    hide Ours, TableMatches, Commit, SetEntries, DelEntries, ReplyTo, Announced;
    match r {
      case Set(name, data) =>
        if !Announced(name) { UnannouncedKeepOurs(w.entries, name, data); }
        CommitMatches(w, SetEntries(w.entries, name, data), name, io);
      case SetEmpty(name) =>
        if !Announced(name) { UnannouncedKeepOurs(w.entries, name, []); }
        CommitMatches(w, DelEntries(w.entries, name), name, io);
      case Delete(name) =>
        if !Announced(name) { UnannouncedKeepOurs(w.entries, name, []); }
        CommitMatches(w, DelEntries(w.entries, name), name, io);
      case DeleteAll =>
        EmptyIsAnnounced();
        CommitMatches(w, Some([]), [], io);
      case _ =>
    }
  }

  lemma RestartMatches(w: World, io: Io, io2: Io)
    requires OnDisk(w) && TableMatches(w) && io2.readTable && io2.writeTable
    ensures TableMatches(Start(w, io, io2, true))
  {
    hide Ours, IsBootKey, SyncEffective, Publish, Load;
    var loaded := Loaded(w, true);
    SyncOurs(loaded, io);
    PublishMatches(SyncEffective(loaded, io), io2);
  }

  lemma OtherProviderMatches(w: World, key: Data, attribute: Attribute)
    requires TableMatches(w) && !IsBootKey(key)
    ensures TableMatches(w.(table := w.table[key := attribute]))
  {
    hide Ours, IsBootKey;
  }

  lemma SettingsMatch(w: World, settings: Settings, signals: nat)
    requires TableMatches(w)
    ensures TableMatches(w.(settings := settings, signals := signals))
  {
    hide Ours, IsBootKey;
  }

  lemma NextMatches(w: World, e: Event)
    requires Inv(w) && OnDisk(w) && TableMatches(w) && Orderly(e)
    ensures Inv(Next(w, e)) && OnDisk(Next(w, e)) && TableMatches(Next(w, e))
  {
    NextKeepsOnDisk(w, e);
    hide Inv, OnDisk, TableMatches, SavesOk;
    OrderlyMatches(w, e);
  }

  lemma OrderlyMatches(w: World, e: Event)
    requires OnDisk(w) && TableMatches(w) && Orderly(e)
    ensures TableMatches(Next(w, e))
  {
    hide OnDisk, TableMatches, Execute, SyncEffective, Start, WellFormed, IsBootKey;
    match e {
      case Host(r, io) => ExecuteMatches(w, r, io);
      case Deliver(io) =>
        if w.signals > 0 {
          SettingsMatch(w, w.settings, w.signals - 1);
          SyncMatches(w.(signals := w.signals - 1), io);
        }
      case OtherProvider(key, attribute) => OtherProviderMatches(w, key, attribute);
      case Restart(io, io2, _) => RestartMatches(w, io, io2);
      case UserMode(mode) => SettingsMatch(w, w.settings.(mode := mode), w.signals + 1);
      case UserSource(source) => SettingsMatch(w, w.settings.(source := source), w.signals + 1);
      case UserOneTime(oneTime) => SettingsMatch(w, w.settings.(oneTime := oneTime), w.signals + 1);
    }
  }

  lemma EmptyIsAnnounced()
    ensures Announced([])
  {
  }

  lemma SyncOurs(w: World, io: Io)
    ensures var after := SyncEffective(w, io);
      Ours(after.entries) == Ours(w.entries) && after.table == w.table && after.managed == w.managed
  {
    hide SyncEffective, Ours, Synced, ResolveTarget;
    SyncShape(w, io);
    SyncedKeepsOptions(w.entries, ResolveTarget(w.entries, BootSource(w, io), BootMode(w, io)), OneTimeEnabled(w, io));
  }

  lemma SyncMatches(w: World, io: Io)
    requires TableMatches(w)
    ensures TableMatches(SyncEffective(w, io))
  {
    hide SyncEffective, Ours;
    SyncOurs(w, io);
  }

  /** While saves and table calls succeed and nobody else writes boot attributes, the table agrees with the store
      in every state of every run, although the service reacts to boot-option names only. */
  lemma {:induction false} TableMatchesOverRuns(w: World, events: seq<Event>)
    requires Inv(w) && OnDisk(w) && TableMatches(w) && forall i :: 0 <= i < |events| ==> Orderly(events[i])
    ensures TableMatches(Run(w, events))
    decreases |events|
  {
    if events != [] {
      hide Inv, OnDisk, Next, Orderly, TableMatches;
      NextMatches(w, events[0]);
      TableMatchesOverRuns(Next(w, events[0]), events[1..]);
    }
  }

  // ---------------------------------------------------------------- attributes of other providers

  /** Publishing keeps an attribute that is neither managed nor generated exactly when the table could be read first,
      or could not be written at all. */
  lemma PublishKeepsForeign(w: World, io: Io, key: Data)
    requires key in w.table && key !in w.managed && key !in Ours(w.entries)
    ensures (key in Publish(w, io).table && Publish(w, io).table[key] == w.table[key])
       <==> (io.readTable || !io.writeTable)
  {
    hide Ours;
  }

  /** The event cannot cost other providers their attributes, and is not a write of this one. */
  predicate KeepsForeign(e: Event, key: Data) {
    match e
    case Host(_, io) => io.readTable || !io.writeTable
    case Restart(_, io2, _) => io2.readTable || !io2.writeTable
    case OtherProvider(other, _) => other != key
    case _ => true
  }

  /** The attribute is in the table with this value, and the service does not take it for its own. */
  predicate Foreign(w: World, key: Data, attribute: Attribute) {
    key in w.table && w.table[key] == attribute && key !in w.managed
  }

  lemma PublishedForeign(w: World, io: Io, key: Data, attribute: Attribute)
    requires Foreign(w, key, attribute) && key !in Ours(w.entries) && (io.readTable || !io.writeTable)
    ensures Foreign(Publish(w, io), key, attribute)
  {
    hide Ours;
    PublishKeepsForeign(w, io, key);
  }

  lemma CommitKeepsForeign(w: World, change: Option<seq<Entry>>, name: Data, save: Save, io: Io, key: Data,
                           attribute: Attribute)
    requires Foreign(w, key, attribute) && (io.readTable || !io.writeTable)
    requires key !in Ours(Commit(w, change, name, save, false, io).0.entries)
    ensures Foreign(Commit(w, change, name, save, false, io).0, key, attribute)
  {
    hide Ours, FileAfter, Lookup, Foreign;
    if change.Some? {
      var changed := w.(entries := change.value, file := FileAfter(w.file, change.value, save));
      var notified := BootNotified(changed, name, false, io);
      SameTable(w, notified, key, attribute);
      if save.Saved? && Announced(name) {
        PublishedForeign(notified, io, key, attribute);
      }
      SameTable(w, changed, key, attribute);
    }
  }

  lemma SameTable(w: World, other: World, key: Data, attribute: Attribute)
    requires Foreign(w, key, attribute) && other.table == w.table && other.managed == w.managed
    ensures Foreign(other, key, attribute)
  {
  }

  lemma NextKeepsForeign(w: World, e: Event, key: Data, attribute: Attribute)
    requires Foreign(w, key, attribute) && KeepsForeign(e, key) && key !in Ours(Next(w, e).entries)
    ensures Foreign(Next(w, e), key, attribute)
  {
    hide Ours, SyncEffective, Publish, Commit, SetEntries, DelEntries, LoadFile, Synced, ResolveTarget, ReplyTo;
    match e {
      case Host(r, io) =>
        match r {
          case Set(name, data) =>
            CommitKeepsForeign(w, SetEntries(w.entries, name, data), name, io.save, io, key, attribute);
          case SetEmpty(name) =>
            CommitKeepsForeign(w, DelEntries(w.entries, name), name, io.save, io, key, attribute);
          case Delete(name) =>
            CommitKeepsForeign(w, DelEntries(w.entries, name), name, io.save, io, key, attribute);
          case DeleteAll => CommitKeepsForeign(w, Some([]), [], io.save, io, key, attribute);
          case _ =>
        }
      case Deliver(io) =>
        if w.signals > 0 {
          SyncOurs(w.(signals := w.signals - 1), io);
        }
      case Restart(io, io2, opens) =>
        var synced := SyncEffective(Loaded(w, opens), io);
        SyncOurs(Loaded(w, opens), io);
        PublishFrame(synced, io2);
        PublishedForeign(synced, io2, key, attribute);
      case _ =>
    }
  }

  /** An attribute that is not managed at the start and never generated keeps its value over the whole run. */
  lemma {:induction false} ForeignKeysOverRuns(w: World, events: seq<Event>, key: Data)
    requires key in w.table && key !in w.managed
    requires forall i :: 0 <= i < |events| ==> KeepsForeign(events[i], key)
    requires forall n :: 0 < n <= |events| ==> key !in Ours(Run(w, events[..n]).entries)
    ensures key in Run(w, events).table && Run(w, events).table[key] == w.table[key] && key !in Run(w, events).managed
    decreases |events|
  {
    if events != [] {
      var next, rest := Next(w, events[0]), events[1..];
      assert events[..1][1..] == [] && Run(w, events[..1]) == next;
      hide Next, KeepsForeign, Ours;
      NextKeepsForeign(w, events[0], key, w.table[key]);
      forall n | 0 < n <= |rest|
        ensures key !in Ours(Run(next, rest[..n]).entries)
      {
        assert events[..n + 1][1..] == rest[..n];
        assert key !in Ours(Run(w, events[..n + 1]).entries);
      }
      ForeignKeysOverRuns(next, rest, key);
    }
  }

  /** A table write that fails while an option disappears leaves its attribute behind for good: it is no longer
      managed, so nothing takes it out as long as the option does not come back. */
  lemma StaleAttributeStays(w: World, io: Io, events: seq<Event>, key: Data)
    requires key in w.table && key !in Ours(w.entries) && !io.writeTable
    requires forall i :: 0 <= i < |events| ==> KeepsForeign(events[i], key)
    requires forall n :: 0 < n <= |events| ==> key !in Ours(Run(Publish(w, io), events[..n]).entries)
    ensures var end := Run(Publish(w, io), events);
      key in end.table && end.table[key] == w.table[key] && (IsBootKey(key) ==> !TableMatches(end))
  {
    hide Ours, KeepsForeign, IsBootKey, TableMatches, Publish;
    var failed := Publish(w, io);
    UnwrittenPublish(w, io);
    ForeignKeysOverRuns(failed, events, key);
    assert events[..|events|] == events;
    if events != [] {
      assert key !in Ours(Run(failed, events[..|events|]).entries);
    }
    hide Run;
    if IsBootKey(key) {
      NotMatching(Run(failed, events), key);
    }
  }

  lemma UnwrittenPublish(w: World, io: Io)
    requires !io.writeTable
    ensures var after := Publish(w, io);
      after.table == w.table && after.managed == Ours(w.entries).Keys && after.entries == w.entries
  {
    hide Ours;
  }

  lemma NotMatching(w: World, key: Data)
    requires IsBootKey(key) && key in w.table && key !in Ours(w.entries)
    ensures !TableMatches(w)
  {
    hide Ours, IsBootKey;
  }

  // ---------------------------------------------------------------- from an empty store

  function Fresh(settings: Settings, signals: nat, table: map<Data, Attribute>): World {
    World([], None, settings, signals, table, {})
  }

  lemma FreshHoldsAll(settings: Settings, signals: nat, table: map<Data, Attribute>)
    requires forall key :: key in table ==> !IsBootKey(key)
    ensures var w := Fresh(settings, signals, table);
      Inv(w) && OnDisk(w) && TableMatches(w)
  {
    NoneIsGood();
    NoFile();
  }

  /** From a first start without a file on, with every save and every call succeeding or failing as it may: names are
      unique, 1 to 31 bytes long, data is at most 3966 bytes, and used and remaining size make up the file limit. */
  lemma BoundsFromEmpty(settings: Settings, signals: nat, table: map<Data, Attribute>, events: seq<Event>)
    requires Decoded(events)
    ensures var es := Run(Fresh(settings, signals, table), events).entries;
      && (forall i, j :: 0 <= i < j < |es| ==> es[i].name != es[j].name)
      && (forall i :: 0 <= i < |es| ==> 1 <= |es[i].name| <= 31 && |es[i].data| <= 3966)
      && SerializedSize(es) <= 65536 && RemainingSize(es) + SerializedSize(es) == 65536
  {
    var w := Fresh(settings, signals, table);
    NoneIsGood();
    assert Inv(w);
    hide Run, SerializedSize, FileOk;
    CapacityOverRuns(w, events);
  }

  /** From a first start without a file on: over every run in which saves and table calls succeed, the store keeps
      its bounds, the file is the store, and the table is what the store says. */
  lemma EveryReachableState(settings: Settings, signals: nat, table: map<Data, Attribute>, events: seq<Event>)
    requires forall key :: key in table ==> !IsBootKey(key)
    requires forall i :: 0 <= i < |events| ==> Orderly(events[i])
    ensures var end := Run(Fresh(settings, signals, table), events);
      Inv(end) && OnDisk(end) && TableMatches(end)
  {
    var w := Fresh(settings, signals, table);
    FreshHoldsAll(settings, signals, table);
    assert Decoded(events) by {
      assert forall i :: 0 <= i < |events| ==> Orderly(events[i]);
    }
    hide Inv, OnDisk, TableMatches, Run, Orderly, IsBootKey, Fresh;
    CapacityOverRuns(w, events);
    assert forall i :: 0 <= i < |events| ==> SavesOk(events[i]) by {
      OrderlySaves(events);
    }
    StoreStaysOnDisk(w, events);
    TableMatchesOverRuns(w, events);
  }

  lemma OrderlySaves(events: seq<Event>)
    requires forall i :: 0 <= i < |events| ==> Orderly(events[i])
    ensures forall i :: 0 <= i < |events| ==> SavesOk(events[i])
  {
  }
}
