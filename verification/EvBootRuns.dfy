/** The boot override over runs: agreement with the settings, no feedback, no re-arming. */
module EvBootRuns {
  import opened Bytes
  import opened EvEntries
  import opened EvOrderedMap
  import opened EvProtocol
  import B = BootOptions
  import opened EvWorld
  import opened EvFrames
  import opened EvRuns

  // ---------------------------------------------------------------- one synchronisation

  /** The target that a synchronisation reads from the settings, resolved against the boot options in the store; what
      cannot be read counts as the default. */
  function Target(w: World, io: Io): Option<u16> {
    ResolveTarget(w.entries, BootSource(w, io), BootMode(w, io))
  }

  /** The boot order that a persistent target leaves: an order of at least one option is reordered if it still fits. */
  function Reordered(es: seq<Entry>, option: u16): Option<Entry> {
    var e := Lookup(es, B.BOOT_ORDER);
    if e.None? || |e.value.data| < 2 || SetEntries(es, B.BOOT_ORDER, B.Reorder(e.value.data, option)).None? then e
    else Some(Entry(B.BOOT_ORDER, B.Reorder(e.value.data, option)))
  }

  /** CQTBOOTNEXT ends up present exactly when one-time boot reads as enabled and the target resolves (a store without
      room for it stays as it is), the boot order becomes the reordered one for a persistent target and is untouched
      otherwise, and every other entry is untouched. */
  lemma SyncAgrees(w: World, io: Io, name: Data)
    requires Unique(w.entries)
    ensures var after, oneTime, target := SyncEffective(w, io), OneTimeEnabled(w, io), Target(w, io);
      && (oneTime && target.Some? ==>
        var encoded := B.EncodeOption(target.value);
        if SetEntries(w.entries, B.BOOT_NEXT, encoded).Some?
        then Lookup(after.entries, B.BOOT_NEXT) == Some(Entry(B.BOOT_NEXT, encoded))
        else after.entries == w.entries)
      && (!(oneTime && target.Some?) ==> Lookup(after.entries, B.BOOT_NEXT) == None)
      && (oneTime || target.None? ==> Lookup(after.entries, B.BOOT_ORDER) == Lookup(w.entries, B.BOOT_ORDER))
      && (!oneTime && target.Some? ==>
        Lookup(after.entries, B.BOOT_ORDER) == Reordered(Dropped(w.entries, B.BOOT_NEXT), target.value))
      && (name != B.BOOT_NEXT && name != B.BOOT_ORDER ==> Lookup(after.entries, name) == Lookup(w.entries, name))
  {
    hide SyncEffective, ResolveTarget, Lookup, SetEntries, Dropped, B.Reorder, B.EncodeOption, Unique;
    OwnNamesAreNoOptions();
    SyncShape(w, io);
    var target := Target(w, io);
    LookupsAfterDrop(w.entries, name);
    if target.Some? {
      StoreOrLookups(w.entries, B.BOOT_NEXT, B.EncodeOption(target.value), name);
      StoreOrLookups(w.entries, B.BOOT_NEXT, B.EncodeOption(target.value), B.BOOT_NEXT);
      StoreOrLookups(w.entries, B.BOOT_NEXT, B.EncodeOption(target.value), B.BOOT_ORDER);
      if name != B.BOOT_ORDER {
        PersistedLookups(Dropped(w.entries, B.BOOT_NEXT), target.value, name);
      }
      PersistedLookups(Dropped(w.entries, B.BOOT_NEXT), target.value, B.BOOT_NEXT);
      PersistedOrder(Dropped(w.entries, B.BOOT_NEXT), target.value);
    }
  }

  lemma PersistedOrder(es: seq<Entry>, option: u16)
    ensures Lookup(Persisted(es, option), B.BOOT_ORDER) == Reordered(es, option)
  {
    hide Lookup, StoreOr, SetEntries, B.Reorder;
    var e := Lookup(es, B.BOOT_ORDER);
    if e.Some? {
      StoreOrLookups(es, B.BOOT_ORDER, B.Reorder(e.value.data, option), B.BOOT_ORDER);
    }
  }

  lemma LookupsAfterDrop(es: seq<Entry>, name: Data)
    requires Unique(es)
    ensures var dropped := Dropped(es, B.BOOT_NEXT);
      && Lookup(dropped, B.BOOT_NEXT) == None
      && Lookup(dropped, B.BOOT_ORDER) == Lookup(es, B.BOOT_ORDER)
      && (name != B.BOOT_NEXT ==> Lookup(dropped, name) == Lookup(es, name))
  {
    hide Lookup, Dropped, Unique;
    OwnNamesAreNoOptions();
    LookupDropped(es, B.BOOT_NEXT, B.BOOT_NEXT);
    LookupDropped(es, B.BOOT_NEXT, B.BOOT_ORDER);
    LookupDropped(es, B.BOOT_NEXT, name);
  }

  lemma StoreOrLookups(es: seq<Entry>, name: Data, data: Data, other: Data)
    ensures Lookup(StoreOr(es, name, data), other)
         == if other == name && SetEntries(es, name, data).Some? then Some(Entry(name, data)) else Lookup(es, other)
  {
    hide Lookup, SetEntries, Update;
    SetIsUpdate(es, name, data);
    LookupUpdate(es, name, data, other);
  }

  lemma PersistedLookups(es: seq<Entry>, option: u16, other: Data)
    requires other != B.BOOT_ORDER
    ensures Lookup(Persisted(es, option), other) == Lookup(es, other)
  {
    hide Lookup, StoreOr, B.Reorder;
    var e := Lookup(es, B.BOOT_ORDER);
    if e.Some? {
      StoreOrLookups(es, B.BOOT_ORDER, B.Reorder(e.value.data, option), other);
    }
  }

  lemma SyncedKeepsOptions(es: seq<Entry>, option: Option<u16>, oneTime: bool)
    ensures Options(Synced(es, option, oneTime)) == Options(es) && Ours(Synced(es, option, oneTime)) == Ours(es)
  {
    hide Options, Ours, Dropped, SetEntries, Lookup, B.Reorder, B.EncodeOption, NoBootOption, Update;
    OwnNamesAreNoOptions();
    var dropped := Dropped(es, B.BOOT_NEXT);
    DroppedKeepsOptions(es, B.BOOT_NEXT);
    if option.Some? {
      var encoded := B.EncodeOption(option.value);
      SetIsUpdate(es, B.BOOT_NEXT, encoded);
      UpdateKeepsOptions(es, B.BOOT_NEXT, encoded);
      var e := Lookup(dropped, B.BOOT_ORDER);
      if e.Some? {
        var order := B.Reorder(e.value.data, option.value);
        SetIsUpdate(dropped, B.BOOT_ORDER, order);
        UpdateKeepsOptions(dropped, B.BOOT_ORDER, order);
      }
    }
  }

  // ---------------------------------------------------------------- idempotence

  lemma {:induction false} UpdateTwice(es: seq<Entry>, name: Data, data: Data)
    ensures Update(Update(es, name, data), name, data) == Update(es, name, data)
  {
    LookupUpdate(es, name, data, name);
  }

  lemma StoreOrTwice(es: seq<Entry>, name: Data, data: Data)
    ensures StoreOr(StoreOr(es, name, data), name, data) == StoreOr(es, name, data)
  {
    hide SerializedSize;
    if SetEntries(es, name, data).Some? {
      SetIsUpdate(es, name, data);
      SetIsUpdate(Update(es, name, data), name, data);
      UpdateTwice(es, name, data);
    }
  }

  lemma DroppedAbsent(es: seq<Entry>, name: Data)
    requires Lookup(es, name) == None
    ensures Dropped(es, name) == es
  {
  }

  lemma PersistedTwice(es: seq<Entry>, option: u16)
    ensures Persisted(Persisted(es, option), option) == Persisted(es, option)
  {
    hide Lookup, SetEntries, B.Reorder;
    var e := Lookup(es, B.BOOT_ORDER);
    if e.Some? && |e.value.data| >= 2 {
      var order := B.Reorder(e.value.data, option);
      StoreOrLookups(es, B.BOOT_ORDER, order, B.BOOT_ORDER);
      StoreOrTwice(es, B.BOOT_ORDER, order);
      B.ReorderMovesToFront(e.value.data, option);
    }
  }

  lemma SyncedTwice(es: seq<Entry>, option: Option<u16>, oneTime: bool)
    requires Unique(es)
    ensures Synced(Synced(es, option, oneTime), option, oneTime) == Synced(es, option, oneTime)
  {
    hide Lookup, Dropped, StoreOr, Persisted, Unique, B.EncodeOption;
    OwnNamesAreNoOptions();
    var dropped := Dropped(es, B.BOOT_NEXT);
    LookupsAfterDrop(es, B.BOOT_NEXT);
    if option.None? {
      DroppedAbsent(dropped, B.BOOT_NEXT);
    } else {
      StoreOrTwice(es, B.BOOT_NEXT, B.EncodeOption(option.value));
      PersistedLookups(dropped, option.value, B.BOOT_NEXT);
      DroppedAbsent(Persisted(dropped, option.value), B.BOOT_NEXT);
      PersistedTwice(dropped, option.value);
    }
  }

  lemma ResolveDependsOnOptions(a: seq<Entry>, b: seq<Entry>, source: B.Source, mode: B.Mode)
    requires Options(a) == Options(b)
    ensures ResolveTarget(a, source, mode) == ResolveTarget(b, source, mode)
  {
  }

  /** A second synchronisation under the same settings leaves the same store. */
  lemma SyncIsIdempotent(w: World, io: Io, io2: Io)
    requires Unique(w.entries)
    requires (io.readEnabled, io.readSource, io.readMode) == (io2.readEnabled, io2.readSource, io2.readMode)
    ensures SyncEffective(SyncEffective(w, io), io2).entries == SyncEffective(w, io).entries
  {
    hide SyncEffective, ResolveTarget, Options, Ours, Synced, Unique;
    var source, mode := BootSource(w, io), BootMode(w, io);
    var option := ResolveTarget(w.entries, source, mode);
    var oneTime := OneTimeEnabled(w, io);
    SyncShape(w, io);
    SyncShape(SyncEffective(w, io), io2);
    SyncedKeepsOptions(w.entries, option, oneTime);
    ResolveDependsOnOptions(w.entries, Synced(w.entries, option, oneTime), source, mode);
    SyncedTwice(w.entries, option, oneTime);
  }

  // ---------------------------------------------------------------- no feedback

  /** Delivering a signal handles one and sends none; a host request sends at most three. So the cascade that
      an event starts is over after as many deliveries as signals are queued. */
  lemma SignalsDrain(w: World, e: Event)
    requires e.Deliver? || e.Host?
    ensures e.Deliver? ==> Next(w, e).settings == w.settings && Next(w, e).table == w.table
    ensures e.Deliver? ==> Next(w, e).signals == if w.signals == 0 then 0 else w.signals - 1
    ensures e.Host? ==> w.signals <= Next(w, e).signals <= w.signals + 3
  {
    hide SyncEffective, Execute, Synced, ResolveTarget;
    match e {
      case Deliver(io) =>
        if w.signals > 0 {
          SyncShape(w.(signals := w.signals - 1), io);
        }
      case Host(r, io) => ExecuteIsServe(w, r, io);
    }
  }

  predicate AllDeliveries(events: seq<Event>) {
    forall i :: 0 <= i < |events| ==> events[i].Deliver?
  }

  lemma {:induction false} CascadeEnds(w: World, events: seq<Event>)
    requires AllDeliveries(events) && |events| >= w.signals
    ensures Run(w, events).signals == 0 && Run(w, events).settings == w.settings
    decreases |events|
  {
    if events != [] {
      hide Next;
      SignalsDrain(w, events[0]);
      CascadeEnds(Next(w, events[0]), events[1..]);
    }
  }

  // ---------------------------------------------------------------- no re-arming

  /** One-time boot is disabled in the settings and its entry gone from the store. */
  predicate Disarmed(w: World) {
    !w.settings.oneTime && !Has(w.entries, B.BOOT_NEXT)
  }

  /** Neither does the user enable one-time boot nor the host write CQTBOOTNEXT. */
  predicate Passive(e: Event) {
    match e
    case Host(r, _) => WellFormed(r) && !(r.Set? && r.name == B.BOOT_NEXT)
    case UserOneTime(oneTime) => !oneTime
    case _ => true
  }

  predicate UserEvent(e: Event) {
    e.UserMode? || e.UserSource? || e.UserOneTime?
  }

  /** With one-time boot disabled a synchronisation leaves no one-time entry, whatever it manages to read. */
  lemma SyncWhileDisabled(w: World, io: Io)
    requires !w.settings.oneTime && Unique(w.entries)
    ensures Disarmed(SyncEffective(w, io)) && SyncEffective(w, io).settings == w.settings
  {
    hide SyncEffective, ResolveTarget, Lookup, Dropped, Unique, Persisted;
    SyncShape(w, io);
    OwnNamesAreNoOptions();
    LookupsAfterDrop(w.entries, B.BOOT_NEXT);
    var option := ResolveTarget(w.entries, BootSource(w, io), BootMode(w, io));
    if option.Some? {
      PersistedLookups(Dropped(w.entries, B.BOOT_NEXT), option.value, B.BOOT_NEXT);
    }
  }

  lemma ServeKeepsAbsent(es: seq<Entry>, r: Request, saved: bool, name: Data)
    requires Unique(es) && !Has(es, name) && !(r.Set? && r.name == name)
    ensures !Has(Serve(es, r, saved).0, name)
  {
    hide Lookup, Unique, SetEntries, DelEntries, Update;
    match r {
      case Set(other, data) =>
        SetIsUpdate(es, other, data);
        LookupUpdate(es, other, data, name);
      case SetEmpty(other) => LookupDropped(es, other, name);
      case Delete(other) => LookupDropped(es, other, name);
      case DeleteAll => LookupNone(name);
      case _ =>
    }
  }

  /** A request while one-time boot is disabled leaves the settings alone. */
  lemma ExecuteWhileDisabled(w: World, r: Request, io: Io)
    requires !w.settings.oneTime
    ensures Execute(w, r, io).0.settings == w.settings
  {
    hide SetEntries, DelEntries, FileAfter, Ours, Lookup;
  }

  lemma NextKeepsDisarmed(w: World, e: Event)
    requires Inv(w) && Disarmed(w) && Passive(e)
    ensures Inv(Next(w, e)) && Disarmed(Next(w, e))
    ensures !UserEvent(e) ==> Next(w, e).settings == w.settings
  {
    NextKeepsInv(w, e);
    UniqueOfGood(w.entries);
    hide Inv, SyncEffective, Execute, LoadFile, Has, Unique, Publish, GoodEntries;
    match e {
      case Host(r, io) =>
        ExecuteWhileDisabled(w, r, io);
        ExecuteIsServe(w, r, io);
        ServeKeepsAbsent(w.entries, r, io.save.Saved?, B.BOOT_NEXT);
      case Deliver(io) =>
        if w.signals > 0 {
          SyncWhileDisabled(w.(signals := w.signals - 1), io);
        }
      case Restart(io, io2, opens) =>
        LoadedIsUnique(w, opens);
        SyncWhileDisabled(Loaded(w, opens), io);
        PublishFrame(SyncEffective(Loaded(w, opens), io), io2);
      case _ =>
    }
  }

  lemma LoadedIsUnique(w: World, opens: bool)
    requires Inv(w)
    ensures Unique(Loaded(w, opens).entries)
  {
    LoadedIsGood(w.file, opens);
  }

  /** Once disarmed, one-time boot stays disarmed over every run in which the user does not enable it and the host
      does not write CQTBOOTNEXT, with saves and D-Bus calls failing as they may, and across restarts; without user
      events the settings stay what they are. */
  lemma {:induction false} NeverRearms(w: World, events: seq<Event>)
    requires Inv(w) && Disarmed(w) && forall i :: 0 <= i < |events| ==> Passive(events[i])
    ensures Disarmed(Run(w, events))
    ensures (forall i :: 0 <= i < |events| ==> !UserEvent(events[i])) ==> Run(w, events).settings == w.settings
    decreases |events|
  {
    if events != [] {
      hide Inv, Disarmed, Next, Passive, UserEvent;
      NextKeepsDisarmed(w, events[0]);
      NeverRearms(Next(w, events[0]), events[1..]);
    }
  }

  // ---------------------------------------------------------------- a consumed one-time boot

  /** The request deletes CQTBOOTNEXT where it was present, or clears the whole store. */
  predicate Consumes(w: World, r: Request) {
    match r
    case Delete(name) => name == B.BOOT_NEXT && Has(w.entries, name)
    case SetEmpty(name) => name == B.BOOT_NEXT && Has(w.entries, name)
    case DeleteAll => true
    case _ => false
  }

  function EntriesLeft(w: World, r: Request): seq<Entry> {
    if r.DeleteAll? then [] else Dropped(w.entries, B.BOOT_NEXT)
  }

  /** The settings after a consumption: a save that fails or an enabled flag that cannot be read leaves them as they
      are, and each of the three writes may fail on its own. */
  function SettingsLeft(w: World, io: Io): Settings {
    if io.save.Saved? && io.readEnabled then
      Settings(if io.writeMode then B.Regular else w.settings.mode,
               if io.writeSource then B.DefaultSource else w.settings.source,
               w.settings.oneTime && !io.writeEnabled)
    else w.settings
  }

  /** What consuming a one-time boot leaves in the store and in the settings, whatever fails on the way. */
  lemma ConsumeClears(w: World, r: Request, io: Io)
    requires Unique(w.entries) && Consumes(w, r) && w.settings.oneTime
    ensures var after := Execute(w, r, io).0;
      && after.entries == EntriesLeft(w, r) && !Has(after.entries, B.BOOT_NEXT)
      && after.settings == SettingsLeft(w, io)
  {
    hide DelEntries, FileAfter, Ours, Find, Unique;
    OwnNamesAreNoOptions();
    LookupDropped(w.entries, B.BOOT_NEXT, B.BOOT_NEXT);
    LookupNone(B.BOOT_NEXT);
    HasMeansDeletable(w.entries, B.BOOT_NEXT);
  }

  /** No other request of the host touches the settings. */
  lemma OnlyConsumptionClears(w: World, r: Request, io: Io)
    requires Inv(w) && WellFormed(r) && !(Consumes(w, r) && w.settings.oneTime)
    ensures Execute(w, r, io).0.settings == w.settings && Execute(w, r, io).0.signals == w.signals
  {
    hide FileAfter, Ours, SerializedSize;
    match r {
      case Set(name, data) => StoredIsThere(w.entries, name, data);
      case SetEmpty(name) => NamedEntry(w.entries, name);
      case Delete(name) => NamedEntry(w.entries, name);
      case _ =>
    }
  }

  lemma StoredIsThere(es: seq<Entry>, name: Data, data: Data)
    ensures SetEntries(es, name, data).Some? ==> name != [] && Has(SetEntries(es, name, data).value, name)
  {
    hide SerializedSize, Lookup, Update;
    SetIsUpdate(es, name, data);
    LookupUpdate(es, name, data, name);
  }

  lemma NamedEntry(es: seq<Entry>, name: Data)
    requires GoodEntries(es)
    ensures Has(es, name) == DelEntries(es, name).Some?
    ensures DelEntries(es, name).Some? ==> name != []
  {
  }

  lemma HasMeansDeletable(es: seq<Entry>, name: Data)
    ensures Has(es, name) == DelEntries(es, name).Some?
    ensures DelEntries(es, name).Some? ==> DelEntries(es, name).value == Dropped(es, name)
  {
  }

  /** The host consumes the one-time boot and the enabled flag is read and cleared: nothing arms it again. With the
      other two writes arriving too, the settings stay Regular, Default and disabled until the user changes them. */
  lemma ConsumedStaysConsumed(w: World, r: Request, io: Io, events: seq<Event>)
    requires Inv(w) && Consumes(w, r) && w.settings.oneTime
    requires io.save.Saved? && io.readEnabled && io.writeEnabled
    requires forall i :: 0 <= i < |events| ==> Passive(events[i])
    ensures var end := Run(w, [Host(r, io)] + events);
      && Disarmed(end)
      && (io.writeMode && io.writeSource && (forall i :: 0 <= i < |events| ==> !UserEvent(events[i])) ==>
            end.settings == Settings(B.Regular, B.DefaultSource, false))
  {
    UniqueOfGood(w.entries);
    ConsumeClears(w, r, io);
    var after := Next(w, Host(r, io));
    NextKeepsInv(w, Host(r, io));
    assert Disarmed(after);
    hide Inv, Next, Passive, Consumes, Disarmed, UserEvent;
    NeverRearms(after, events);
    assert ([Host(r, io)] + events)[1..] == events;
  }

  /** The target that the next synchronisation finds, from what was there before the request: the boot options are
      untouched by a delete of CQTBOOTNEXT, and gone after a clearing of the store. */
  function TargetLeft(w: World, r: Request, io: Io, io2: Io): Option<u16> {
    if r.DeleteAll? then None
    else
      ResolveTarget(w.entries, if io2.readSource then SettingsLeft(w, io).source else B.DefaultSource,
                    if io2.readMode then SettingsLeft(w, io).mode else B.Regular)
  }

  lemma ResolveNothing(source: B.Source, mode: B.Mode)
    ensures ResolveTarget([], source, mode) == None
  {
    var i, j := B.MatchIsBest(Options([]), B.Keywords(source, mode));
  }

  lemma TargetAfterConsumption(w: World, r: Request, io: Io, io2: Io)
    requires Unique(w.entries) && Consumes(w, r) && w.settings.oneTime
    ensures Target(Execute(w, r, io).0, io2) == TargetLeft(w, r, io, io2)
  {
    ConsumeClears(w, r, io);
    var after := Execute(w, r, io).0;
    hide Execute, ResolveTarget, SettingsLeft, Consumes, Unique, Dropped, Options, Ours;
    var source, mode := BootSource(after, io2), BootMode(after, io2);
    if r.DeleteAll? {
      ResolveNothing(source, mode);
    } else {
      OwnNamesAreNoOptions();
      DroppedKeepsOptions(w.entries, B.BOOT_NEXT);
      ResolveDependsOnOptions(Dropped(w.entries, B.BOOT_NEXT), w.entries, source, mode);
    }
  }

  /** After a delete, a new value for the name fits exactly when it would have fitted over the old one. */
  lemma RoomAfterDrop(es: seq<Entry>, name: Data, data: Data)
    requires Unique(es) && Has(es, name) && GoodName(name) && |data| <= MAX_DATA_SIZE
    ensures SetEntries(Dropped(es, name), name, data).Some?
       <==> SerializedSize(es) + |data| <= MAX_FILE_SIZE + |Lookup(es, name).value.data|
  {
    var k := Find(es, name);
    SizeSplit(es, k);
    SizeAppend(es[..k], es[k + 1..]);
    LookupDropped(es, name, name);
    hide SerializedSize, Unique;
    assert Dropped(es, name) == es[..k] + es[k + 1..];
  }

  /** Whatever fails on either side, the next synchronisation arms a consumed one-time boot again exactly when the
      consumption was not saved, or the enabled flag could not be read or cleared then and is read now, and the target
      it reads in the settings that are left still resolves to an option that fits where the old value was; never
      after a clearing of the whole store. */
  lemma RearmsExactlyWhen(w: World, r: Request, io: Io, io2: Io)
    requires Inv(w) && Consumes(w, r) && w.settings.oneTime
    ensures var after := Execute(w, r, io).0;
      Has(SyncEffective(after, io2).entries, B.BOOT_NEXT) <==>
        && !r.DeleteAll?
        && !(io.save.Saved? && io.readEnabled && io.writeEnabled) && io2.readEnabled
        && ResolveTarget(w.entries, if io2.readSource then SettingsLeft(w, io).source else B.DefaultSource,
                         if io2.readMode then SettingsLeft(w, io).mode else B.Regular).Some?
        && SerializedSize(w.entries) + 2 <= MAX_FILE_SIZE + |Lookup(w.entries, B.BOOT_NEXT).value.data|
  {
    UniqueOfGood(w.entries);
    NextKeepsInv(w, Host(r, io));
    ConsumeClears(w, r, io);
    TargetAfterConsumption(w, r, io, io2);
    OwnNamesAreNoOptions();
    var after := Execute(w, r, io).0;
    UniqueOfGood(after.entries);
    if !r.DeleteAll? && Target(after, io2).Some? {
      RoomAfterDrop(w.entries, B.BOOT_NEXT, B.EncodeOption(Target(after, io2).value));
    }
    hide Inv, Execute, SyncEffective, SetEntries, Target, Unique, B.EncodeOption, ResolveTarget, SerializedSize;
    SyncAgrees(after, io2, B.BOOT_NEXT);
  }

  /** With the enabled flag cleared, a one-time target whose other writes failed is taken for a persistent one: the
      next synchronisation moves what it reads of it to the front of the boot order. */
  lemma SurvivingTargetBecomesPersistent(w: World, r: Request, io: Io, io2: Io)
    requires Inv(w) && Consumes(w, r) && w.settings.oneTime
    requires io.save.Saved? && io.readEnabled && io.writeEnabled
    ensures var after, target := Execute(w, r, io).0, TargetLeft(w, r, io, io2);
      Lookup(SyncEffective(after, io2).entries, B.BOOT_ORDER)
      == if target.None? then Lookup(EntriesLeft(w, r), B.BOOT_ORDER)
         else Reordered(Dropped(w.entries, B.BOOT_NEXT), target.value)
  {
    UniqueOfGood(w.entries);
    NextKeepsInv(w, Host(r, io));
    ConsumeClears(w, r, io);
    TargetAfterConsumption(w, r, io, io2);
    var after := Execute(w, r, io).0;
    UniqueOfGood(after.entries);
    hide Inv, Execute, SyncEffective, Target, Unique, ResolveTarget, Reordered, Lookup, Dropped;
    SyncAgrees(after, io2, B.BOOT_ORDER);
    DroppedAbsent(after.entries, B.BOOT_NEXT);
  }
}
