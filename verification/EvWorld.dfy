/** The service as a transition system: the EV store, the boot settings and the BIOS table on D-Bus, and the
    settings signals that are queued for the event loop. */
module EvWorld {
  import opened Bytes
  import opened EvEntries
  import opened EvProtocol
  import opened BootOptions

  // ---------------------------------------------------------------- state

  datatype Settings = Settings(mode: Mode, source: Source, oneTime: bool)

  datatype Attribute = BootAttribute(name: Data) | OtherAttribute(id: int)

  /** `signals` counts PropertiesChanged signals sent but not yet handled. */
  datatype World = World(
    entries: seq<Entry>, file: Option<Data>, settings: Settings, signals: nat,
    table: map<Data, Attribute>, managed: set<Data>)

  /** How a save ends: on disk, nowhere, or cut short while it was copied over the old file. */
  datatype Save = Saved | NotWritten | Torn(length: nat)

  /** The outcome of every D-Bus call and save that handling one event can make. */
  datatype Io = Io(
    save: Save, save2: Save, readEnabled: bool, readSource: bool, readMode: bool,
    writeMode: bool, writeSource: bool, writeEnabled: bool, readTable: bool, writeTable: bool)

  function FileAfter(file: Option<Data>, es: seq<Entry>, save: Save): Option<Data> {
    match save
    case Saved => Some(Image(es))
    case NotWritten => file
    case Torn(length) => Some(if length <= |Image(es)| then Image(es)[..length] else Image(es))
  }

  // ---------------------------------------------------------------- reactions to a change of the store

  function OneTimeEnabled(w: World, io: Io): bool {
    io.readEnabled && w.settings.oneTime
  }

  function BootSource(w: World, io: Io): Source {
    if io.readSource then w.settings.source else DefaultSource
  }

  function BootMode(w: World, io: Io): Mode {
    if io.readMode then w.settings.mode else Regular
  }

  /** A settings write that arrives changes the value and sends a signal. */
  function WriteMode(w: World, mode: Mode, ok: bool): World {
    if ok then w.(settings := w.settings.(mode := mode), signals := w.signals + 1) else w
  }

  function WriteSource(w: World, source: Source, ok: bool): World {
    if ok then w.(settings := w.settings.(source := source), signals := w.signals + 1) else w
  }

  function WriteOneTime(w: World, oneTime: bool, ok: bool): World {
    if ok then w.(settings := w.settings.(oneTime := oneTime), signals := w.signals + 1) else w
  }

  function ClearOverride(w: World, io: Io): World {
    WriteOneTime(WriteSource(WriteMode(w, Regular, io.writeMode), DefaultSource, io.writeSource), false,
                 io.writeEnabled)
  }

  predicate Has(es: seq<Entry>, name: Data) {
    Lookup(es, name).Some?
  }

  /** The boot service: a one-time boot entry that is gone while one-time boot is enabled was consumed. */
  function BootNotified(w: World, name: Data, applying: bool, io: Io): World {
    if applying || (name != [] && name != BOOT_NEXT) || Has(w.entries, BOOT_NEXT) || !OneTimeEnabled(w, io) then w
    else ClearOverride(w, io)
  }

  const BOOT_KEY_PREFIX := Ascii("Boot")

  /** The attributes for the boot options in the store; of two with the same key the first entry counts. */
  function Ours(es: seq<Entry>): map<Data, Attribute> {
    if es == [] then map[]
    else
      var rest := Ours(es[1..]);
      var id, name := BootOptionId(es[0].name), ParseBootOptionName(es[0].data);
      if id.Some? && name.Some? then rest[BOOT_KEY_PREFIX + id.value := BootAttribute(name.value)] else rest
  }

  function Publish(w: World, io: Io): World {
    var ours := Ours(w.entries);
    var base := if io.readTable then w.table else map[];
    w.(managed := ours.Keys, table := if io.writeTable then (base - w.managed) + ours else w.table)
  }

  /** The BIOS table service looks only at boot options and at a clearing of the whole store. */
  function BiosNotified(w: World, name: Data, io: Io): World {
    if name == [] || BOOT_PREFIX <= name then Publish(w, io) else w
  }

  // ---------------------------------------------------------------- changes of the store

  function SaveAndNotify(w: World, name: Data, save: Save, applying: bool, io: Io): (World, bool) {
    var stored := w.(file := FileAfter(w.file, w.entries, save));
    if save.Saved? then (BiosNotified(BootNotified(stored, name, applying, io), name, io), true) else (stored, false)
  }

  /** A change of the entry list, if there is one, saved and announced under `name`. */
  function Commit(w: World, change: Option<seq<Entry>>, name: Data, save: Save, applying: bool, io: Io): (World, bool) {
    if change.None? then (w, false) else SaveAndNotify(w.(entries := change.value), name, save, applying, io)
  }

  function EvSet(w: World, name: Data, data: Data, save: Save, io: Io): (World, bool) {
    Commit(w, SetEntries(w.entries, name, data), name, save, false, io)
  }

  function EvDel(w: World, name: Data, save: Save, applying: bool, io: Io): (World, bool) {
    Commit(w, DelEntries(w.entries, name), name, save, applying, io)
  }

  function EvDeleteAll(w: World, save: Save, io: Io): (World, bool) {
    Commit(w, Some([]), [], save, false, io)
  }

  // ---------------------------------------------------------------- synchronising with the settings

  function Options(es: seq<Entry>): (options: seq<BootOption>)
    ensures forall i :: 0 <= i < |options| ==> options[i].number < 0x1_0000
  {
    if es == [] then []
    else
      var number, name := OptionNumber(es[0].name), ParseBootOptionName(es[0].data);
      (if number.Some? && name.Some? then [BootOption(number.value, name.value)] else []) + Options(es[1..])
  }

  lemma MatchNumber(options: seq<BootOption>, keywords: seq<Data>)
    requires forall i :: 0 <= i < |options| ==> options[i].number < 0x1_0000
    ensures MatchOption(options, keywords).Some? ==> MatchOption(options, keywords).value < 0x1_0000
  {
    var i, j := MatchIsBest(options, keywords);
  }

  function ResolveTarget(es: seq<Entry>, source: Source, mode: Mode): (option: Option<u16>)
    ensures source == DefaultSource && mode != Setup ==> option.None?
  {
    MatchNumber(Options(es), Keywords(source, mode));
    var n := MatchOption(Options(es), Keywords(source, mode));
    if n.Some? then Some(n.value) else None
  }

  function ClearOneTime(w: World, save: Save, io: Io): World {
    EvDel(w, BOOT_NEXT, save, true, io).0
  }

  function ApplyOneTime(w: World, option: u16, save: Save, io: Io): World {
    EvSet(w, BOOT_NEXT, EncodeOption(option), save, io).0
  }

  function ApplyPersistent(w: World, option: u16, save: Save, io: Io): World {
    var e := Lookup(w.entries, BOOT_ORDER);
    if e.None? || |e.value.data| < 2 then w
    else EvSet(w, BOOT_ORDER, Reorder(e.value.data, option), save, io).0
  }

  function SyncEffective(w: World, io: Io): World {
    var option := ResolveTarget(w.entries, BootSource(w, io), BootMode(w, io));
    if option.None? then ClearOneTime(w, io.save, io)
    else if OneTimeEnabled(w, io) then ApplyOneTime(w, option.value, io.save, io)
    else ApplyPersistent(ClearOneTime(w, io.save, io), option.value, io.save2, io)
  }

  // ---------------------------------------------------------------- host requests and other events

  function Execute(w: World, r: Request, io: Io): (World, Reply) {
    match r
    case Set(name, data) =>
      var (after, ok) := EvSet(w, name, data, io.save, io);
      (after, ReplyTo(w.entries, r, ok))
    case SetEmpty(name) => (EvDel(w, name, io.save, false, io).0, ReplyTo(w.entries, r, true))
    case Delete(name) =>
      var (after, ok) := EvDel(w, name, io.save, false, io);
      (after, ReplyTo(w.entries, r, ok))
    case DeleteAll =>
      var (after, ok) := EvDeleteAll(w, io.save, io);
      (after, ReplyTo(w.entries, r, ok))
    case _ => (w, ReplyTo(w.entries, r, false))
  }

  datatype Event =
    | Host(request: Request, io: Io)
    | UserMode(mode: Mode)
    | UserSource(source: Source)
    | UserOneTime(oneTime: bool)
    | Deliver(io: Io)
    | OtherProvider(key: Data, attribute: Attribute)
    | Restart(io: Io, io2: Io, opens: bool)

  /** Start-up: load, then the boot service's first sync, then the first table. Signals sent to the previous
      process are lost with it. */
  function Start(w: World, io: Io, io2: Io, opens: bool): World {
    Publish(SyncEffective(Loaded(w, opens), io), io2)
  }

  function Loaded(w: World, opens: bool): World {
    w.(entries := LoadFile(w.file, opens).1, managed := {}, signals := 0)
  }

  function Next(w: World, e: Event): World {
    match e
    case Host(r, io) => Execute(w, r, io).0
    case UserMode(mode) => WriteMode(w, mode, true)
    case UserSource(source) => WriteSource(w, source, true)
    case UserOneTime(oneTime) => WriteOneTime(w, oneTime, true)
    case Deliver(io) => if w.signals == 0 then w else SyncEffective(w.(signals := w.signals - 1), io)
    case OtherProvider(key, attribute) => w.(table := w.table[key := attribute])
    case Restart(io, io2, opens) => Start(w, io, io2, opens)
  }

  function Run(w: World, events: seq<Event>): World
    decreases |events|
  {
    if events == [] then w else Run(Next(w, events[0]), events[1..])
  }
}
