/** What holds over every run of host requests, user settings, signals, other providers and restarts. */
module EvRuns {
  import opened Bytes
  import opened EvEntries
  import opened EvOrderedMap
  import opened EvProtocol
  import P = EvPersistence
  import B = BootOptions
  import opened EvWorld
  import opened EvFrames

  // ---------------------------------------------------------------- the shape of one host request

  lemma CommitFrame(w: World, change: Option<seq<Entry>>, name: Data, save: Save, applying: bool, io: Io)
    ensures var (after, ok) := Commit(w, change, name, save, applying, io);
      && ok == (change.Some? && save.Saved?)
      && after.entries == change.GetOr(w.entries)
      && after.file == (if change.Some? then FileAfter(w.file, after.entries, save) else w.file)
      && w.signals <= after.signals <= w.signals + 3
  {
    hide FileAfter, Ours, Lookup;
  }

  /** A request changes the entries as the plain store does, and the reply is the plain store's reply. */
  lemma ExecuteIsServe(w: World, r: Request, io: Io)
    ensures var (after, reply) := Execute(w, r, io);
      && (after.entries, reply) == Serve(w.entries, r, io.save.Saved?)
      && after.file == (if Change(w.entries, r).Some? then FileAfter(w.file, after.entries, io.save) else w.file)
      && w.signals <= after.signals <= w.signals + 3
  {
    hide SetEntries, DelEntries, FileAfter, Commit, Lookup;
    var name := match r case Set(n, _) => n case SetEmpty(n) => n case Delete(n) => n case _ => [];
    CommitFrame(w, Change(w.entries, r), name, io.save, false, io);
  }

  // ---------------------------------------------------------------- invariants of every reachable state

  /** The file is a saved image, possibly cut short. */
  ghost predicate FileOk(file: Option<Data>) {
    file.Some? ==> exists es, k: nat :: GoodEntries(es) && k <= |Image(es)| && file.value == Image(es)[..k]
  }

  ghost predicate Inv(w: World) {
    GoodEntries(w.entries) && FileOk(w.file)
  }

  lemma FileAfterOk(file: Option<Data>, es: seq<Entry>, save: Save)
    requires FileOk(file) && GoodEntries(es)
    ensures FileOk(FileAfter(file, es, save))
  {
    hide Image, GoodEntries;
    var image := Image(es);
    assert image[..|image|] == image;
    match save {
      case Torn(length) =>
        if length > |image| {
          assert FileAfter(file, es, save) == Some(image[..|image|]);
        }
      case Saved => assert FileAfter(file, es, save) == Some(image[..|image|]);
      case NotWritten =>
    }
  }

  lemma {:induction false} PrefixIsGood(es: seq<Entry>, n: nat)
    requires GoodEntries(es) && n <= |es|
    ensures GoodEntries(es[..n])
  {
    hide SerializedSize;
    SizeAppend(es[..n], es[n..]);
    assert es[..n] + es[n..] == es;
  }

  lemma LoadedIsGood(file: Option<Data>, opens: bool)
    requires FileOk(file)
    ensures GoodEntries(LoadFile(file, opens).1)
  {
    hide Load, Image, GoodEntries;
    NoneIsGood();
    if file.Some? {
      var es, k: nat :| GoodEntries(es) && k <= |Image(es)| && file.value == Image(es)[..k];
      P.LoadOfTruncation(es, k);
      if k >= HEADER_SIZE {
        PrefixIsGood(es, P.WholeEntries(es, k - HEADER_SIZE));
      }
    } else {
      NoFile();
    }
  }

  lemma NoFile()
    ensures Load(None) == (0, [])
  {
  }

  lemma StoreOrIsGood(es: seq<Entry>, name: Data, data: Data)
    requires GoodEntries(es) && GoodName(name)
    ensures GoodEntries(StoreOr(es, name, data))
  {
    hide SetEntries, GoodEntries;
    if SetEntries(es, name, data).Some? {
      SetKeepsGood(es, name, data);
    }
  }

  lemma SyncedIsGood(es: seq<Entry>, option: Option<u16>, oneTime: bool)
    requires GoodEntries(es)
    ensures GoodEntries(Synced(es, option, oneTime)) && GoodEntries(Dropped(es, B.BOOT_NEXT))
  {
    hide GoodEntries, Dropped, StoreOr, Lookup, B.Reorder, B.EncodeOption, GoodName;
    OwnNamesAreNoOptions();
    DroppedIsGood(es, B.BOOT_NEXT);
    var dropped := Dropped(es, B.BOOT_NEXT);
    if option.Some? {
      StoreOrIsGood(es, B.BOOT_NEXT, B.EncodeOption(option.value));
      var e := Lookup(dropped, B.BOOT_ORDER);
      if e.Some? {
        StoreOrIsGood(dropped, B.BOOT_ORDER, B.Reorder(e.value.data, option.value));
      }
    }
  }

  /** A synchronisation leaves a file that some save of a good list may have left. */
  lemma SyncKeepsInv(w: World, io: Io)
    requires Inv(w)
    ensures Inv(SyncEffective(w, io))
  {
    hide GoodEntries, FileOk, Dropped, StoreOr, Lookup, ResolveTarget, B.Reorder, B.EncodeOption, FileAfter, Image;
    SyncShape(w, io);
    var option := ResolveTarget(w.entries, BootSource(w, io), BootMode(w, io));
    SyncedIsGood(w.entries, option, OneTimeEnabled(w, io));
    SyncedIsGood(w.entries, None, false);
    SyncFile(w, io);
    FileAfterOk(w.file, Dropped(w.entries, B.BOOT_NEXT), io.save);
    var first := if option.Some? && OneTimeEnabled(w, io) then w.file
                 else ClearOneTime(w, io.save, io).file;
    var after := SyncEffective(w, io);
    FileAfterOk(w.file, after.entries, io.save);
    FileAfterOk(first, after.entries, io.save2);
  }

  /** The file after a synchronisation comes from at most two saves. */
  lemma SyncFile(w: World, io: Io)
    ensures var after := SyncEffective(w, io);
      var first := ClearOneTime(w, io.save, io).file;
      && (first == w.file || first == FileAfter(w.file, Dropped(w.entries, B.BOOT_NEXT), io.save))
      && (after.file == w.file || after.file == FileAfter(w.file, after.entries, io.save)
          || after.file == first || after.file == FileAfter(first, after.entries, io.save2))
  {
    hide FileAfter, SetEntries, DelEntries, Lookup, ResolveTarget, B.EncodeOption, B.Reorder, Commit;
    var option := ResolveTarget(w.entries, BootSource(w, io), BootMode(w, io));
    CommitFrame(w, DelEntries(w.entries, B.BOOT_NEXT), B.BOOT_NEXT, io.save, true, io);
    if option.Some? {
      var encoded := B.EncodeOption(option.value);
      CommitFrame(w, SetEntries(w.entries, B.BOOT_NEXT, encoded), B.BOOT_NEXT, io.save, false, io);
      var cleared := ClearOneTime(w, io.save, io);
      var e := Lookup(cleared.entries, B.BOOT_ORDER);
      if e.Some? {
        var order := B.Reorder(e.value.data, option.value);
        CommitFrame(cleared, SetEntries(cleared.entries, B.BOOT_ORDER, order), B.BOOT_ORDER, io.save2, false, io);
      }
    }
  }

  lemma NextKeepsInv(w: World, e: Event)
    requires Inv(w) && (e.Host? ==> WellFormed(e.request))
    ensures Inv(Next(w, e))
  {
    hide GoodEntries, FileOk, Execute, SyncEffective, Load, FileAfter, Publish;
    match e {
      case Host(r, io) =>
        ExecuteIsServe(w, r, io);
        ServeKeepsGood(w.entries, r, io.save.Saved?);
        FileAfterOk(w.file, Next(w, e).entries, io.save);
      case Deliver(io) =>
        if w.signals > 0 {
          SyncKeepsInv(w.(signals := w.signals - 1), io);
        }
      case Restart(io, io2, opens) =>
        LoadedIsGood(w.file, opens);
        SyncKeepsInv(Loaded(w, opens), io);
        PublishFrame(SyncEffective(Loaded(w, opens), io), io2);
      case _ =>
    }
  }

  lemma PublishFrame(w: World, io: Io)
    ensures Publish(w, io) == w.(table := Publish(w, io).table, managed := Ours(w.entries).Keys)
  {
  }

  predicate Decoded(events: seq<Event>) {
    forall i :: 0 <= i < |events| ==> events[i].Host? ==> WellFormed(events[i].request)
  }

  /** In every reachable state names are unique, 1 to 31 bytes long and free of NUL, data is at most 3966 bytes,
      and what is used and what remains make up the 65536 bytes of the file exactly. */
  lemma {:induction false} CapacityOverRuns(w: World, events: seq<Event>)
    requires Inv(w) && Decoded(events)
    ensures Inv(Run(w, events))
    ensures RemainingSize(Run(w, events).entries) + SerializedSize(Run(w, events).entries) == MAX_FILE_SIZE
    decreases |events|
  {
    if events != [] {
      hide Inv, Next;
      NextKeepsInv(w, events[0]);
      CapacityOverRuns(Next(w, events[0]), events[1..]);
    }
  }

  // ---------------------------------------------------------------- replies over runs

  /** The replies to a run of host requests. */
  function Replies(w: World, requests: seq<(Request, Io)>): seq<Reply>
    decreases |requests|
  {
    if requests == [] then []
    else
      var (after, reply) := Execute(w, requests[0].0, requests[0].1);
      [reply] + Replies(after, requests[1..])
  }

  function Answers(m: OrderedMap, requests: seq<(Request, Io)>): seq<Reply>
    requires m.Valid() && forall i :: 0 <= i < |requests| ==> WellFormed(requests[i].0)
    decreases |requests|
  {
    if requests == [] then []
    else
      var (after, reply) := Answer(m, requests[0].0, requests[0].1.save.Saved?);
      AnswerStaysValid(m, requests[0].0, requests[0].1.save.Saved?);
      [reply] + Answers(after, requests[1..])
  }

  lemma AnswerStaysValid(m: OrderedMap, r: Request, saved: bool)
    requires m.Valid()
    ensures Answer(m, r, saved).0.Valid()
  {
    match r {
      case Set(name, data) => m.PutStaysValid(name, data);
      case SetEmpty(name) => RemoveStaysValid(m, name);
      case Delete(name) => RemoveStaysValid(m, name);
      case _ =>
    }
  }

  lemma {:induction false} WithoutMembers(keys: seq<Data>, key: Data)
    requires forall i, j :: 0 <= i < j < |keys| ==> keys[i] != keys[j]
    ensures var rest := Without(keys, key);
      && (forall i, j :: 0 <= i < j < |rest| ==> rest[i] != rest[j])
      && (forall k :: k in rest <==> k in keys && k != key)
  {
    if keys != [] {
      WithoutMembers(keys[1..], key);
      assert forall k :: k in keys <==> k == keys[0] || k in keys[1..];
      if keys[0] != key {
        var rest := Without(keys[1..], key);
        assert keys[0] !in keys[1..];
        assert forall i :: 0 <= i < |rest| ==> rest[i] in rest;
      }
    }
  }

  lemma RemoveStaysValid(m: OrderedMap, key: Data)
    requires m.Valid()
    ensures m.Remove(key).Valid()
  {
    hide Without;
    WithoutMembers(m.keys, key);
  }

  /** Over every sequence of requests, with saves succeeding or failing as they may, the replies are those of the
      insertion-ordered map with a byte capacity. */
  lemma {:induction false} RepliesRefineMap(w: World, requests: seq<(Request, Io)>)
    requires GoodEntries(w.entries)
    requires forall i :: 0 <= i < |requests| ==> WellFormed(requests[i].0)
    ensures (AbstractIsValid(w.entries); Replies(w, requests) == Answers(Abstract(w.entries), requests))
    decreases |requests|
  {
    if requests != [] {
      hide GoodEntries, Execute, Answer, Serve, Abstract;
      var (r, io) := requests[0];
      ExecuteIsServe(w, r, io);
      ServeKeepsGood(w.entries, r, io.save.Saved?);
      ServeRefinesAnswer(w.entries, r, io.save.Saved?);
      AnswerStaysValid(Abstract(w.entries), r, io.save.Saved?);
      RepliesRefineMap(Execute(w, r, io).0, requests[1..]);
    }
  }
}
