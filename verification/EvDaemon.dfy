/** The objects of the service: the EV store with its change callbacks, the boot service and the BIOS table
    service that observe it, and the D-Bus peers they talk to. Each method is proved to take the steps of the
    transition system. */
module EvDaemon {
  import opened Bytes
  import opened EvEntries
  import B = BootOptions
  import W = EvWorld
  import F = EvFrames
  import P = EvPersistence
  import opened Stream

  type Io = W.Io
  type World = W.World

  /** The settings service and the BIOS configuration manager, reached over D-Bus. */
  class Bus {
    var settings: W.Settings
    var signals: nat
    var table: map<Data, W.Attribute>

    constructor (settings: W.Settings, table: map<Data, W.Attribute>)
      ensures this.settings == settings && signals == 0 && this.table == table
    {
      this.settings, signals, this.table := settings, 0, table;
    }

    method SetBootMode(mode: B.Mode, arrives: bool)
      modifies this`settings, this`signals
      ensures settings == if arrives then old(settings).(mode := mode) else old(settings)
      ensures signals == if arrives then old(signals) + 1 else old(signals)
    {
      if arrives {
        settings, signals := settings.(mode := mode), signals + 1;
      }
    }

    method SetBootSource(source: B.Source, arrives: bool)
      modifies this`settings, this`signals
      ensures settings == if arrives then old(settings).(source := source) else old(settings)
      ensures signals == if arrives then old(signals) + 1 else old(signals)
    {
      if arrives {
        settings, signals := settings.(source := source), signals + 1;
      }
    }

    method SetOneTime(oneTime: bool, arrives: bool)
      modifies this`settings, this`signals
      ensures settings == if arrives then old(settings).(oneTime := oneTime) else old(settings)
      ensures signals == if arrives then old(signals) + 1 else old(signals)
    {
      if arrives {
        settings, signals := settings.(oneTime := oneTime), signals + 1;
      }
    }
  }

  class EvStorage {
    var entries: seq<Entry>
    var file: Option<Data>
    var boot: BootService?
    var bios: BiosConfigService?
    ghost const bus: Bus

    constructor (ghost bus: Bus, file: Option<Data>)
      ensures Wired() && boot == null && bios == null && entries == [] && this.file == file && this.bus == bus
    {
      entries, this.file, boot, bios, this.bus := [], file, null, null, bus;
    }

    /** The observers observe this store and talk to the same bus. */
    ghost predicate Wired()
      reads this
    {
      && (boot != null ==> boot.ev == this && boot.bus == bus)
      && (bios != null ==> bios.ev == this && bios.bus == bus)
    }

    /** The state of all objects together. */
    ghost function World(): World
      reads this, bus, bios
    {
      W.World(entries, file, bus.settings, bus.signals, bus.table, if bios == null then {} else bios.managedKeys)
    }

    ghost function Applying(): bool
      reads this, boot
    {
      boot == null || boot.applyingOverride
    }

    // -------------------------------------------------------------- queries

    /** The index of the entry called `name`, or the number of entries. */
    method FindIf(name: Data) returns (k: nat)
      ensures k == Find(entries, name)
    {
      k := 0;
      while k < |entries| && entries[k].name != name
        invariant k <= |entries|
        invariant Find(entries, name) == k + Find(entries[k..], name)
      {
        assert entries[k..][1..] == entries[k + 1..];
        k := k + 1;
      }
    }

    method GetByIndex(index: nat) returns (e: Option<Entry>)
      ensures e == if index < |entries| then Some(entries[index]) else None
    {
      e := if index >= |entries| then None else Some(entries[index]);
    }

    method GetByName(name: Data) returns (e: Option<Entry>)
      ensures e == Lookup(entries, name)
    {
      var k := FindIf(name);
      e := if k == |entries| then None else Some(entries[k]);
    }

    method SerializedSizeOf() returns (total: nat)
      ensures total == SerializedSize(entries)
    {
      total := HEADER_SIZE;
      for i := 0 to |entries|
        invariant total + SerializedSize(entries[i..]) - HEADER_SIZE == SerializedSize(entries)
      {
        assert entries[i..][1..] == entries[i + 1..];
        total := total + ENTRY_OVERHEAD + |entries[i].data|;
      }
    }

    method RemainingSizeOf() returns (n: nat)
      ensures n == RemainingSize(entries)
    {
      var used := SerializedSizeOf();
      n := if used < MAX_FILE_SIZE then MAX_FILE_SIZE - used else 0;
    }

    method Count() returns (n: nat)
      ensures n == |entries|
    {
      n := |entries|;
    }

    // -------------------------------------------------------------- the file

    method Save(outcome: W.Save) returns (ok: bool)
      modifies this`file
      ensures ok == outcome.Saved?
      ensures file == W.FileAfter(old(file), entries, outcome)
    {
      hide Flat, EntryImage, Le;
      var image := Le(FILE_MAGIC, 4) + Le(|entries| % 0x1_0000_0000, 4);
      ghost var header := image;
      FlatNone();
      for i := 0 to |entries|
        invariant file == old(file) && image == header + Flat(EntryImages(entries)[..i])
      {
        FlatSnoc(EntryImages(entries), i);
        EntryImageIs(entries[i]);
        var dataLen := |entries[i].data| % 0x1_0000;
        image := image + NameField(entries[i].name);
        image := image + Le(dataLen, 2);
        if dataLen > 0 {
          image := image + entries[i].data[..dataLen];
        }
      }
      assert EntryImages(entries)[..|entries|] == EntryImages(entries);
      assert image == Image(entries);
      match outcome {
        case Saved => file := Some(image);
        case NotWritten =>
        case Torn(length) => file := Some(if length <= |image| then image[..length] else image);
      }
      ok := outcome.Saved?;
    }

    method Load(opens: bool) returns (code: int)
      modifies this`entries
      ensures (code, entries) == LoadFile(file, opens)
    {
      hide CString, FromLe;
      entries := [];
      if file.None? {
        return 0;
      }
      if !opens {
        return -1;
      }
      var s := new InputStream(file.value);
      var field := s.Read(4);
      var magic := FromLe(field);
      field := s.Read(4);
      var count := FromLe(field);
      PartialFields(file.value);
      if magic != FILE_MAGIC { return -1; }
      if count > MAX_COUNT { return -1; }
      if s.good {
        ReadEntries(s, count);
      }
      return 0;
    }

    /** The entries behind the header, as long as they are whole and within the limits. */
    method ReadEntries(s: InputStream, count: nat)
      requires entries == [] && s.good && s.pos == HEADER_SIZE <= |s.data|
      modifies s, this`entries
      ensures entries == LoadEntries(s.data[HEADER_SIZE..], count, HEADER_SIZE)
    {
      hide CString, FromLe, LoadEntries;
      var totalRead: nat := HEADER_SIZE;
      var i: nat := 0;
      ghost var whole := LoadEntries(s.data[HEADER_SIZE..], count, HEADER_SIZE);
      while i < count
        invariant i <= count
        invariant s.good && s.pos <= |s.data|
        invariant whole == entries + LoadEntries(s.data[s.pos..], count - i, totalRead)
      {
        var e := ReadEntry(s, totalRead, count - i);
        if e.None? { return; }
        totalRead := totalRead + ENTRY_OVERHEAD + |e.value.data|;
        entries := entries + [e.value];
        i := i + 1;
      }
      LoadStep(s.data[s.pos..], 0, totalRead);
    }

    /** One entry, or nothing when it is cut short, too long, or beyond the file limit. */
    static method ReadEntry(s: InputStream, totalRead: nat, ghost count: nat) returns (e: Option<Entry>)
      requires count > 0 && s.good && s.pos <= |s.data|
      modifies s
      ensures e.Some? ==> s.good && s.pos <= |s.data|
      ensures LoadEntries(s.data[old(s.pos)..], count, totalRead) ==
        if e.None? then []
        else [e.value] + LoadEntries(s.data[s.pos..], count - 1, totalRead + ENTRY_OVERHEAD + |e.value.data|)
    {
      hide CString, FromLe, LoadEntries;
      ghost var start, rest := s.pos, s.data[s.pos..];
      LoadStep(rest, count, totalRead);
      var nameBuf := s.Read(32);
      var lengthField := s.Read(2);
      if !s.good { return None; }
      SliceOfDrop(s.data, start, 0, 31);
      SliceOfDrop(s.data, start, 32, 34);
      assert nameBuf[..31] == s.data[start..start + 31];
      assert rest[0..31] == rest[..31];
      var dataLen := FromLe(lengthField);
      if dataLen > MAX_DATA_SIZE || totalRead + ENTRY_OVERHEAD + dataLen > MAX_FILE_SIZE { return None; }
      var data: Data := [];
      if dataLen > 0 {
        data := s.Read(dataLen);
      }
      if !s.good { return None; }
      SliceOfDrop(s.data, start, 34, 34 + dataLen);
      assert data == s.data[start + 34..start + 34 + dataLen];
      return Some(Entry(CString(nameBuf[..31]), data));
    }

    // -------------------------------------------------------------- changes

    /** Saves, then tells the observers in the order they registered. */
    method SaveAndNotify(name: Data, outcome: W.Save, io: Io) returns (ok: bool)
      requires Wired() && boot != null && (bios != null || (name != [] && !(B.BOOT_PREFIX <= name)))
      modifies this`file, bus, bios
      ensures Wired()
      ensures (World(), ok) == W.SaveAndNotify(old(World()), name, outcome, old(Applying()), io)
    {
      ok := Save(outcome);
      if !ok { return; }
      hide W.FileAfter, W.Publish, W.ClearOverride;
      boot.OnEvChanged(name, io);
      if bios != null {
        bios.OnEvChanged(name, io);
      }
    }

    method Set(name: Data, data: Data, outcome: W.Save, io: Io) returns (ok: bool)
      requires Wired() && boot != null && (bios != null || (name != [] && !(B.BOOT_PREFIX <= name)))
      modifies this`entries, this`file, bus, bios
      ensures Wired()
      ensures (World(), ok)
           == W.Commit(old(World()), SetEntries(old(entries), name, data), name, outcome, old(Applying()), io)
    {
      hide W.SaveAndNotify, SetEntries, Find, Ascii, World, Applying;
      var k;
      ok, k := Admits(name, data);
      if !ok { return false; }
      SetValue(entries, name, data);
      if k < |entries| {
        ok := UpdateAt(k, name, data, outcome, io);
      } else {
        ok := Append(name, data, outcome, io);
      }
    }

    /** The checks that a set makes before it changes anything. */
    method Admits(name: Data, data: Data) returns (ok: bool, k: nat)
      ensures k == Find(entries, name) && ok == SetEntries(entries, name, data).Some?
    {
      hide SerializedSize, Find;
      k := FindIf(name);
      if name == [] || |name| >= MAX_NAME_LENGTH { return false, k; }
      if |data| > MAX_DATA_SIZE { return false, k; }
      var size := SerializedSizeOf();
      if k < |entries| {
        ok := |data| <= |entries[k].data| || size + (|data| - |entries[k].data|) <= MAX_FILE_SIZE;
      } else {
        ok := size + ENTRY_OVERHEAD + |data| <= MAX_FILE_SIZE;
      }
    }

    method UpdateAt(k: nat, name: Data, data: Data, outcome: W.Save, io: Io) returns (ok: bool)
      requires Wired() && boot != null && (bios != null || (name != [] && !(B.BOOT_PREFIX <= name)))
      requires k < |entries|
      modifies this`entries, this`file, bus, bios
      ensures Wired()
      ensures (World(), ok)
           == W.SaveAndNotify(old(World()).(entries := old(entries)[k := Entry(old(entries)[k].name, data)]), name,
                              outcome, old(Applying()), io)
    {
      hide W.SaveAndNotify, Ascii;
      entries := entries[k := entries[k].(data := data)];
      ok := SaveAndNotify(name, outcome, io);
    }

    method Append(name: Data, data: Data, outcome: W.Save, io: Io) returns (ok: bool)
      requires Wired() && boot != null && (bios != null || (name != [] && !(B.BOOT_PREFIX <= name)))
      modifies this`entries, this`file, bus, bios
      ensures Wired()
      ensures (World(), ok)
           == W.SaveAndNotify(old(World()).(entries := old(entries) + [Entry(name, data)]), name, outcome,
                              old(Applying()), io)
    {
      hide W.SaveAndNotify, Ascii;
      entries := entries + [Entry(name, data)];
      ok := SaveAndNotify(name, outcome, io);
    }

    method Del(name: Data, outcome: W.Save, io: Io) returns (ok: bool)
      requires Wired() && boot != null && (bios != null || (name != [] && !(B.BOOT_PREFIX <= name)))
      modifies this`entries, this`file, bus, bios
      ensures Wired()
      ensures (World(), ok)
           == W.Commit(old(World()), DelEntries(old(entries), name), name, outcome, old(Applying()), io)
    {
      hide W.SaveAndNotify, Find, Ascii, W.Ours, Lookup;
      var k := FindIf(name);
      if k == |entries| { return false; }
      entries := entries[..k] + entries[k + 1..];
      ok := SaveAndNotify(name, outcome, io);
    }

    method DeleteAll(outcome: W.Save, io: Io) returns (ok: bool)
      requires Wired() && boot != null && bios != null
      modifies this`entries, this`file, bus, bios
      ensures Wired()
      ensures (World(), ok) == W.Commit(old(World()), Some([]), [], outcome, old(Applying()), io)
    {
      hide W.SaveAndNotify;
      entries := [];
      ok := SaveAndNotify([], outcome, io);
    }
  }

  lemma SetValue(es: seq<Entry>, name: Data, data: Data)
    requires SetEntries(es, name, data).Some?
    ensures SetEntries(es, name, data).value ==
      var k := Find(es, name);
      if k < |es| then es[k := Entry(es[k].name, data)] else es + [Entry(name, data)]
  {
  }

  lemma EntryImageIs(e: Entry)
    ensures EntryImage(e) == NameField(e.name) + Le(|e.data| % 0x1_0000, 2) + e.data[..|e.data| % 0x1_0000]
  {
    hide NameField, Le;
  }

  lemma NoOptions(es: seq<Entry>)
    requires es == []
    ensures W.Options(es) == []
  {
  }

  lemma NoKeywords(keywords: seq<Data>)
    ensures keywords == [] ==> forall options :: B.MatchOption(options, keywords) == None
  {
  }

  /** What becomes of the first entry, as a stream meets its fields. */
  lemma LoadStep(b: Data, count: nat, totalRead: nat)
    ensures count == 0 || |b| < ENTRY_OVERHEAD ==> LoadEntries(b, count, totalRead) == []
    ensures count > 0 && |b| >= ENTRY_OVERHEAD ==>
      var length := FromLe(b[32..34]);
      var size := ENTRY_OVERHEAD + length;
      LoadEntries(b, count, totalRead) ==
        if length > MAX_DATA_SIZE || totalRead + size > MAX_FILE_SIZE || |b| < size then []
        else [Entry(CString(b[..31]), b[34..size])] + LoadEntries(b[size..], count - 1, totalRead + size)
  {
    hide CString, FromLe;
  }

  /** The first two fields as a stream of `b` yields them. */
  lemma PartialFields(b: Data)
    ensures PartialField(b, 0, 4) == FromLe(b[0..if 4 <= |b| then 4 else |b|])
    ensures 4 <= |b| ==> PartialField(b, 4, 4) == FromLe(b[4..if 8 <= |b| then 8 else |b|])
    ensures |b| < 4 ==> PartialField(b, 0, 4) != FILE_MAGIC
  {
    hide FromLe;
    P.Empty();
    assert b[0..|b|] == b[..|b|] == b;
    if |b| < 4 {
      P.LowBytes(b, |b|);
      P.PowersGrow(|b|);
    } else {
      assert |b| == 4 ==> b[4..|b|] == [];
    }
  }

  class BootService {
    const bus: Bus
    const ev: EvStorage
    var applyingOverride: bool

    /** Registers with the store and synchronises once. */
    constructor (bus: Bus, ev: EvStorage, io: Io)
      requires ev.Wired() && ev.boot == null && ev.bios == null && ev.bus == bus
      modifies ev, bus
      ensures ev.Wired() && ev.boot == this && ev.bios == null && !applyingOverride
      ensures ev.World() == W.SyncEffective(old(ev.World()), io)
    {
      this.bus, this.ev, applyingOverride := bus, ev, false;
      new;
      ev.boot := this;
      SyncEffective(io);
    }

    method GetOneTimeEnabled(io: Io) returns (oneTime: bool)
      ensures oneTime == (io.readEnabled && bus.settings.oneTime)
    {
      oneTime := io.readEnabled && bus.settings.oneTime;
    }

    /** The host deletes the one-time entry when it consumes it; the settings follow. */
    method OnEvChanged(name: Data, io: Io)
      requires ev.Wired() && ev.boot == this && ev.bus == bus
      modifies bus`settings, bus`signals
      ensures ev.World() == W.BootNotified(old(ev.World()), name, applyingOverride, io)
    {
      if applyingOverride { return; }
      if name != [] && name != B.BOOT_NEXT { return; }
      var next := ev.GetByName(B.BOOT_NEXT);
      if next.Some? { return; }
      var enabled := GetOneTimeEnabled(io);
      if !enabled { return; }
      ClearOverrideSettings(io);
    }

    method ClearOverrideSettings(io: Io)
      requires ev.Wired() && ev.boot == this && ev.bus == bus
      modifies bus`settings, bus`signals
      ensures ev.World() == W.ClearOverride(old(ev.World()), io)
    {
      bus.SetBootMode(B.Regular, io.writeMode);
      bus.SetBootSource(B.DefaultSource, io.writeSource);
      bus.SetOneTime(false, io.writeEnabled);
    }

    method ResolveTarget(source: B.Source, mode: B.Mode) returns (option: Option<u16>)
      ensures option == W.ResolveTarget(ev.entries, source, mode)
    {
      hide B.Keywords, B.MatchOption, W.Options;
      var keywords := B.Keywords(source, mode);
      NoKeywords(keywords);
      if keywords == [] { return None; }
      var options := CollectOptions();
      var n := B.FindMatch(options, keywords);
      W.MatchNumber(options, keywords);
      option := if n.Some? then Some(n.value) else None;
    }

    method CollectOptions() returns (options: seq<B.BootOption>)
      ensures options == W.Options(ev.entries)
    {
      hide B.OptionNumber, B.ParseBootOptionName, W.Options;
      options := [];
      for i := 0 to |ev.entries|
        invariant options + W.Options(ev.entries[i..]) == W.Options(ev.entries)
      {
        F.OptionsCons(ev.entries[i], ev.entries[i + 1..]);
        assert ev.entries[i..] == [ev.entries[i]] + ev.entries[i + 1..];
        var number := B.OptionNumber(ev.entries[i].name);
        if number.Some? {
          var name := B.ReadBootOptionName(ev.entries[i].data);
          if name.Some? {
            options := options + [B.BootOption(number.value, name.value)];
          }
        }
      }
      NoOptions(ev.entries[|ev.entries|..]);
    }

    method ApplyOneTime(option: u16, outcome: W.Save, io: Io) returns (ok: bool)
      requires ev.Wired() && ev.boot == this && ev.bus == bus && !applyingOverride
      modifies ev`entries, ev`file, bus, ev.bios
      ensures ev.Wired()
      ensures ev.World() == W.ApplyOneTime(old(ev.World()), option, outcome, io)
    {
      hide W.Commit;
      F.OwnNamesAreNoOptions();
      ok := ev.Set(B.BOOT_NEXT, B.EncodeOption(option), outcome, io);
    }

    method ApplyPersistent(option: u16, outcome: W.Save, io: Io) returns (ok: bool)
      requires ev.Wired() && ev.boot == this && ev.bus == bus && !applyingOverride
      modifies ev`entries, ev`file, bus, ev.bios
      ensures ev.Wired()
      ensures ev.World() == W.ApplyPersistent(old(ev.World()), option, outcome, io)
    {
      hide W.Commit, Lookup, B.Reorder;
      F.OwnNamesAreNoOptions();
      var order := ev.GetByName(B.BOOT_ORDER);
      if order.None? || |order.value.data| < 2 { return false; }
      var payload := B.ReorderBootOrder(order.value.data, option);
      ok := ev.Set(B.BOOT_ORDER, payload, outcome, io);
    }

    method ClearOneTime(outcome: W.Save, io: Io)
      requires ev.Wired() && ev.boot == this && ev.bus == bus && !applyingOverride
      modifies ev`entries, ev`file, bus, ev.bios, this`applyingOverride
      ensures ev.Wired() && !applyingOverride
      ensures ev.World() == W.ClearOneTime(old(ev.World()), outcome, io)
    {
      hide W.SaveAndNotify, Find;
      F.OwnNamesAreNoOptions();
      var next := ev.GetByName(B.BOOT_NEXT);
      if next.Some? {
        applyingOverride := true;
        var ok := ev.Del(B.BOOT_NEXT, outcome, io);
        applyingOverride := false;
      }
    }

    method SyncEffective(io: Io)
      requires ev.Wired() && ev.boot == this && ev.bus == bus && !applyingOverride
      modifies ev`entries, ev`file, bus, ev.bios, this`applyingOverride
      ensures ev.Wired() && !applyingOverride
      ensures ev.World() == W.SyncEffective(old(ev.World()), io)
    {
      hide W.ResolveTarget, W.ClearOneTime, W.ApplyOneTime, W.ApplyPersistent;
      var oneTime := GetOneTimeEnabled(io);
      var source := if io.readSource then bus.settings.source else B.DefaultSource;
      var mode := if io.readMode then bus.settings.mode else B.Regular;
      var option := ResolveTarget(source, mode);
      if option.None? {
        ClearOneTime(io.save, io);
        return;
      }
      if oneTime {
        var ok := ApplyOneTime(option.value, io.save, io);
      } else {
        ClearOneTime(io.save, io);
        var ok := ApplyPersistent(option.value, io.save2, io);
      }
    }
  }

  class BiosConfigService {
    const bus: Bus
    const ev: EvStorage
    var managedKeys: set<Data>

    /** Registers with the store and publishes once. */
    constructor (bus: Bus, ev: EvStorage, io: Io)
      requires ev.Wired() && ev.bios == null && ev.bus == bus
      modifies ev, bus
      ensures ev.Wired() && ev.boot == old(ev.boot) && ev.bios == this
      ensures ev.World() == W.Publish(old(ev.World()), io)
    {
      this.bus, this.ev, managedKeys := bus, ev, {};
      new;
      ev.bios := this;
      Publish(io);
    }

    method OnEvChanged(name: Data, io: Io)
      requires ev.Wired() && ev.bios == this && ev.bus == bus
      modifies this, bus`table
      ensures ev.World() == W.BiosNotified(old(ev.World()), name, io)
    {
      hide W.Publish;
      if name == [] || B.BOOT_PREFIX <= name {
        Publish(io);
      }
    }

    method Publish(io: Io)
      requires ev.Wired() && ev.bios == this && ev.bus == bus
      modifies this, bus`table
      ensures ev.World() == W.Publish(old(ev.World()), io)
    {
      hide B.BootOptionId, B.ParseBootOptionName;
      var ours: map<Data, W.Attribute> := map[];
      for i := 0 to |ev.entries|
        invariant ours == W.Ours(ev.entries[..i])
        invariant bus.table == old(bus.table) && managedKeys == old(managedKeys)
      {
        OursSnoc(ev.entries[..i], ev.entries[i]);
        assert ev.entries[..i + 1] == ev.entries[..i] + [ev.entries[i]];
        var id := B.BootOptionId(ev.entries[i].name);
        if id.Some? {
          var name := B.ReadBootOptionName(ev.entries[i].data);
          if name.Some? {
            var key := W.BOOT_KEY_PREFIX + id.value;
            if key !in ours {
              ours := ours[key := W.BootAttribute(name.value)];
            }
          }
        }
      }
      assert ev.entries[..|ev.entries|] == ev.entries;
      var table := if io.readTable then bus.table else map[];
      table := table - managedKeys;
      managedKeys := ours.Keys;
      table := table + ours;
      if io.writeTable {
        bus.table := table;
      }
    }
  }

  /** An entry at the end adds its attribute only when no earlier entry has the key. */
  lemma {:induction false} OursSnoc(es: seq<Entry>, e: Entry)
    ensures W.Ours(es + [e]) ==
      var id, name := B.BootOptionId(e.name), B.ParseBootOptionName(e.data);
      if id.Some? && name.Some? && W.BOOT_KEY_PREFIX + id.value !in W.Ours(es)
      then W.Ours(es)[W.BOOT_KEY_PREFIX + id.value := W.BootAttribute(name.value)] else W.Ours(es)
  {
    hide B.BootOptionId, B.ParseBootOptionName;
    if es == [] {
      assert es + [e] == [e] && [e][1..] == [];
    } else {
      OursSnoc(es[1..], e);
      assert (es + [e])[1..] == es[1..] + [e];
    }
  }
}
