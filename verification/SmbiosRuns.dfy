/** Safety over whole runs of the ROM service: what the buffer holds, and what the stored file holds. */
module SmbiosRuns {
  import opened Bytes
  import opened SmbiosProtocol
  import P = Packet

  // ---------------------------------------------------------------- what a blob carries

  /** The records that a blob wraps, up to the first one that is empty or cut off. */
  function Unwrap(blob: Data, left: nat): (rs: seq<Data>)
    ensures |rs| <= left && forall i :: 0 <= i < |rs| ==> rs[i] != []
    decreases left
  {
    if left == 0 || |blob| < 2 then []
    else
      var size := FromLe(blob[..2]);
      if size == 0 || 2 + size > |blob| then [] else [blob[2..2 + size]] + Unwrap(blob[2 + size..], left - 1)
  }

  function AtMostThousand(n: nat): nat {
    if n <= 1000 then n else 1000
  }

  function Unwrapped(payload: Data): (rs: seq<Data>)
    ensures |rs| <= 1000 && forall i :: 0 <= i < |rs| ==> rs[i] != []
  {
    if |payload| < 6 then [] else Unwrap(payload[4..], AtMostThousand(FromLe(payload[..4])))
  }

  /** How many of the records fit into the room that is left. */
  function Fitting(rs: seq<Data>, room: nat): (k: nat)
    ensures k <= |rs|
  {
    if rs == [] || |rs[0]| > room then 0 else 1 + Fitting(rs[1..], room - |rs[0]|)
  }

  lemma FlatFirst(rs: seq<Data>, k: nat)
    requires 0 < k <= |rs|
    ensures Flat(rs[..k]) == rs[0] + Flat(rs[1..][..k - 1])
  {
    hide Flat;
    assert rs[..k][1..] == rs[1..][..k - 1];
    FlatCons(rs[..k]);
  }

  /** A count of records fits exactly if their bytes do: what fits is the longest such prefix. */
  lemma {:induction false} FittingIsLongest(rs: seq<Data>, room: nat, k: nat)
    requires k <= |rs|
    ensures |Flat(rs[..k])| <= room <==> k <= Fitting(rs, room)
  {
    if k > 0 {
      FlatFirst(rs, k);
      if |rs[0]| <= room {
        FittingIsLongest(rs[1..], room - |rs[0]|, k - 1);
      }
    }
  }

  function Room(records: Data): nat
    requires |records| <= 0x10_0000
  {
    0x10_0000 - |records|
  }

  lemma {:induction false} AddsWhatFits(records: Data, blob: Data, left: nat)
    requires |records| <= 0x10_0000
    ensures var rs := Unwrap(blob, left);
      AddFrom(records, blob, left) == records + Flat(rs[..Fitting(rs, Room(records))])
    decreases left
  {
    hide FromLe, Flat;
    var rs := Unwrap(blob, left);
    var k := Fitting(rs, Room(records));
    if k == 0 {
      FlatNone();
      assert rs[..0] == [] && records + [] == records;
    } else {
      var size := FromLe(blob[..2]);
      AddsWhatFits(records + rs[0], blob[2 + size..], left - 1);
      FlatFirst(rs, k);
      Regroup(records, rs[0], Flat(rs[1..][..k - 1]));
    }
  }

  /** A packet of records appends the longest prefix of the records it wraps that fits below the limit, and no part
      of any other record. */
  lemma AppendsLongestPrefix(records: Data, payload: Data)
    requires |records| <= 0x10_0000
    ensures var rs := Unwrapped(payload); exists k: nat | k <= |rs| ::
      && AddRecord(records, payload) == records + Flat(rs[..k])
      && forall j: nat | j <= |rs| :: |records| + |Flat(rs[..j])| <= 0x10_0000 <==> j <= k
  {
    hide FromLe, Flat, Fitting, AddFrom, Unwrap;
    var rs := Unwrapped(payload);
    var k := Fitting(rs, Room(records));
    forall j: nat | j <= |rs|
      ensures |records| + |Flat(rs[..j])| <= 0x10_0000 <==> j <= k
    {
      FittingIsLongest(rs, Room(records), j);
    }
    AddsAccepted(records, payload);
  }

  function Accepted(payload: Data, room: nat): seq<Data> {
    var rs := Unwrapped(payload);
    rs[..Fitting(rs, room)]
  }

  lemma AddsAccepted(records: Data, payload: Data)
    requires |records| <= 0x10_0000
    ensures AddRecord(records, payload) == records + Flat(Accepted(payload, Room(records)))
  {
    hide FromLe, Flat, Fitting, AddFrom, Unwrap;
    if |payload| < 6 {
      FlatNone();
      assert Accepted(payload, Room(records)) == [];
    } else {
      AddsWhatFits(records, payload[4..], Capped(FromLe(payload[..4])));
    }
  }

  /** What is in the buffer stays in front of what is appended. */
  lemma AddKeepsBuffer(records: Data, payload: Data)
    requires |records| <= 0x10_0000
    ensures records <= AddRecord(records, payload)
  {
    AddsAccepted(records, payload);
  }

  // ---------------------------------------------------------------- a blob that the host wraps

  function WrapRecord(r: Data): Data {
    Le(|r|, 2) + r
  }

  function WrapRecords(rs: seq<Data>): Data {
    if rs == [] then [] else WrapRecord(rs[0]) + WrapRecords(rs[1..])
  }

  /** A count and each record behind its size. */
  function Wrap(rs: seq<Data>): Data {
    Le(|rs|, 4) + WrapRecords(rs)
  }

  predicate Wrappable(rs: seq<Data>) {
    |rs| < 0x1_0000_0000 && forall i :: 0 <= i < |rs| ==> 0 < |rs[i]| < 0x1_0000
  }

  lemma WrappedRecord(r: Data, rest: Data)
    requires 0 < |r| < 0x1_0000
    ensures var b := WrapRecord(r) + rest;
      |b| >= 2 + |r| && FromLe(b[..2]) == |r| && b[2..2 + |r|] == r && b[2 + |r|..] == rest
  {
    hide FromLe, Le;
    Widths();
    LeInverse(|r|, 2);
    assert (WrapRecord(r) + rest)[..2] == Le(|r|, 2);
  }

  lemma {:induction false} UnwrapsRecords(rs: seq<Data>, tail: Data, left: nat)
    requires forall i :: 0 <= i < |rs| ==> 0 < |rs[i]| < 0x1_0000
    requires left <= |rs|
    ensures Unwrap(WrapRecords(rs) + tail, left) == rs[..left]
    decreases left
  {
    if left > 0 {
      hide FromLe, WrapRecord;
      var rest := WrapRecords(rs[1..]) + tail;
      Regroup(WrapRecord(rs[0]), WrapRecords(rs[1..]), tail);
      WrappedRecord(rs[0], rest);
      UnwrapsRecords(rs[1..], tail, left - 1);
      assert rs[..left] == [rs[0]] + rs[1..][..left - 1];
    }
  }

  /** A blob gives back the records it was made from, at most 1000 of them, whatever lies behind them. */
  lemma WrapRoundTrip(rs: seq<Data>, tail: Data)
    requires Wrappable(rs)
    ensures Unwrapped(Wrap(rs) + tail) == rs[..AtMostThousand(|rs|)]
  {
    hide FromLe, Le, WrapRecords, Unwrap;
    var b := Wrap(rs) + tail;
    Widths();
    LeInverse(|rs|, 4);
    assert b[..4] == Le(|rs|, 4) && b[4..] == WrapRecords(rs) + tail;
    UnwrapsRecords(rs, tail, Capped(|rs|));
    if rs != [] {
      WrappedLength(rs);
    } else if |b| < 6 {
      assert rs[..0] == [];
    }
  }

  lemma WrappedLength(rs: seq<Data>)
    requires rs != []
    ensures |WrapRecords(rs)| >= 2
  {
  }

  /** A blob that wraps at most 1000 records which all fit appends exactly their concatenation. */
  lemma FittingBlobIsAppendedWhole(records: Data, rs: seq<Data>, tail: Data)
    requires Wrappable(rs) && |rs| <= 1000
    requires |records| + |Flat(rs)| <= 0x10_0000
    ensures AddRecord(records, Wrap(rs) + tail) == records + Flat(rs)
  {
    hide Flat, Fitting, Wrap, Unwrapped, AddRecord;
    WrapRoundTrip(rs, tail);
    AddsAccepted(records, Wrap(rs) + tail);
    assert rs[..|rs|] == rs;
    FittingIsLongest(rs, Room(records), |rs|);
  }

  // ---------------------------------------------------------------- the stored file

  /** What a stored file holds: directory version and time, the fields of the entry point of DSP0134, section 5.2.2, and
      the structure table. */
  datatype FileRead = FileRead(
    directoryVersion: byte, epoch: nat, majorVersion: byte, minorVersion: byte, docrev: byte, revision: byte,
    tableAddress: nat, table: Data)

  /** A reader of the file, for whom every size, the anchor and the checksum must agree. */
  function ReadFile(file: Data): Option<FileRead> {
    var (mdr, rest) :- Take(file, 10);
    var (ep, table) :- Take(rest, 24);
    if && mdr[1] == 2 && FromLe(mdr[6..10]) == |rest|
       && ep[..5] == Ascii("_SM3_") && ep[6] == 24 && Sum(ep) % 256 == 0
       && FromLe(ep[12..16]) == |table|
    then Some(FileRead(mdr[0], FromLe(mdr[2..6]), ep[7], ep[8], ep[9], ep[10], FromLe(ep[16..24]), table))
    else None
  }

  lemma EntryPointSums(n: nat)
    ensures Sum(SealedEntryPoint(n)) % 256 == 0
  {
    hide Sum, Le, Ascii;
    var ep := EntryPoint(n);
    var c := Balancing(Sum(ep));
    var front, back := ep[..CHECKSUM_OFFSET], ep[CHECKSUM_OFFSET + 1..];
    assert ep == front + ([0] + back) && SealedEntryPoint(n) == front + ([c] + back);
    SumAppend(front, [0] + back);
    SumAppend([0], back);
    SumAppend(front, [c] + back);
    SumAppend([c], back);
    SumOne(0);
    SumOne(c);
  }

  lemma EntryPointFields(n: nat)
    requires n < 0x1_0000_0000
    ensures var ep := SealedEntryPoint(n);
      && ep[..5] == Ascii("_SM3_") && ep[6] == 24 && FromLe(ep[12..16]) == n
      && ep[7] == 3 && ep[8] == 3 && ep[9] == 0 && ep[10] == 1 && FromLe(ep[16..24]) == 0
  {
    hide Sum, Le, FromLe, Ascii, Balancing;
    Widths();
    LeInverse(n, 4);
    LeModulo(0, 8);
    assert SealedEntryPoint(n)[12..16] == Le(n, 4) && SealedEntryPoint(n)[16..24] == Le(0, 8);
  }

  /** The size fields of a stored file are consistent, its entry point is one of SMBIOS 3.3 that sums to zero mod 256,
      with the table address left zero, and behind it stand exactly the records. */
  lemma FileReadsBack(records: Data, version: byte, epoch: nat)
    requires |records| <= 0x10_0000
    ensures ReadFile(File(records, version, epoch))
         == Some(FileRead(version, epoch % 0x1_0000_0000, 3, 3, 0, 1, 0, records))
  {
    hide Sum, Le, FromLe, SealedEntryPoint, Ascii, Take;
    var n := ENTRY_POINT_SIZE + |records|;
    var ep := SealedEntryPoint(|records|);
    var mdr := [version, MDR_TYPE] + Le(epoch, 4) + Le(n, 4);
    Regroup(mdr, ep, records);
    TakePrefix(mdr, ep + records);
    TakePrefix(ep, records);
    Widths();
    LeInverse(n, 4);
    LeModulo(epoch, 4);
    assert mdr[6..10] == Le(n, 4) && mdr[2..6] == Le(epoch, 4);
    EntryPointSums(|records|);
    EntryPointFields(|records|);
  }

  // ---------------------------------------------------------------- runs

  /** Every known command is answered, if the header fits the buffer, with its own sequence number, command, service and
      version. */
  lemma AnswerFields(packet: Data, space: nat)
    ensures var answer := Answer(packet, space);
      && (answer.Some? <==>
           |packet| >= 8 && space >= 8
           && P.ParseHeader(packet).command in {0x0003, 0x0004, 0x0005, 0x0006, 0x0007, 0x000C})
      && (answer.Some? ==>
           |answer.value| == 8 && P.ParseHeader(answer.value) == P.ParseHeader(packet).(pktSize := 8))
  {
    hide P.ParseHeader, P.PrintHeader;
    if Answer(packet, space).Some? {
      var h := P.RomResponseHeader(P.ParseHeader(packet), 8);
      P.HeaderRoundTrip(h, []);
      assert P.PrintHeader(h) + [] == P.PrintHeader(h);
    }
  }

  datatype Event = Event(packet: Data, io: Io)

  function Run(s: State, events: seq<Event>): (r: State)
    requires |s.records| <= 0x10_0000
    ensures |r.records| <= 0x10_0000
  {
    if events == [] then s
    else
      var last := events[|events| - 1];
      Step(Run(s, events[..|events| - 1]), last.packet, last.io)
  }

  function Fresh(file: Option<Data>): State {
    State([], 0, file, 0)
  }

  predicate IsCommand(packet: Data, command: nat) {
    |packet| >= P.PACKET_HEADER && P.ParseHeader(packet).command == command
  }

  /** The payloads of the record and blob packets since the last begin. */
  function SinceBegin(events: seq<Event>): seq<Data> {
    if events == [] then []
    else
      var before, packet := events[..|events| - 1], events[|events| - 1].packet;
      if IsCommand(packet, 0x0003) then []
      else if IsCommand(packet, 0x0004) || IsCommand(packet, 0x000C) then SinceBegin(before) + [P.Payload(packet)]
      else SinceBegin(before)
  }

  /** The records accepted from these payloads, one payload after the other. */
  function Session(payloads: seq<Data>): (rs: seq<Data>)
    ensures |Flat(rs)| <= 0x10_0000
    decreases |payloads|
  {
    if payloads == [] then []
    else
      var before := Session(payloads[..|payloads| - 1]);
      var more := Accepted(payloads[|payloads| - 1], Room(Flat(before)));
      AcceptedFits(payloads[|payloads| - 1], Room(Flat(before)));
      FlatAppend(before, more);
      before + more
  }

  lemma AcceptedFits(payload: Data, room: nat)
    ensures |Flat(Accepted(payload, room))| <= room
  {
    FittingIsLongest(Unwrapped(payload), room, Fitting(Unwrapped(payload), room));
  }

  /** After any run, whatever the packets, the buffer is the in-order concatenation of the records accepted since the
      last begin. */
  lemma {:induction false} BufferIsTheSession(file: Option<Data>, events: seq<Event>)
    ensures Run(Fresh(file), events).records == Flat(Session(SinceBegin(events)))
    ensures |Run(Fresh(file), events).records| <= 0x10_0000
    decreases |events|
  {
    if events != [] {
      var before, packet := events[..|events| - 1], events[|events| - 1].packet;
      BufferIsTheSession(file, before);
      if IsCommand(packet, 0x0004) || IsCommand(packet, 0x000C) {
        hide Flat, AddRecord, Accepted, Run, SinceBegin;
        SessionGrows(SinceBegin(before), P.Payload(packet));
      }
    }
  }

  lemma SessionGrows(payloads: seq<Data>, payload: Data)
    ensures Flat(Session(payloads + [payload])) == AddRecord(Flat(Session(payloads)), payload)
  {
    hide Flat, AddRecord, Accepted;
    var all := payloads + [payload];
    assert all[..|all| - 1] == payloads;
    var before := Session(payloads);
    AddsAccepted(Flat(before), payload);
    FlatAppend(before, Accepted(payload, Room(Flat(before))));
  }

  // ---------------------------------------------------------------- a transfer that fits, from begin to end

  function Concat(blobs: seq<seq<Data>>): seq<Data> {
    if blobs == [] then [] else Concat(blobs[..|blobs| - 1]) + blobs[|blobs| - 1]
  }

  function WrapAll(blobs: seq<seq<Data>>): (payloads: seq<Data>)
    ensures |payloads| == |blobs| && forall i :: 0 <= i < |blobs| ==> payloads[i] == Wrap(blobs[i])
  {
    seq(|blobs|, i requires 0 <= i < |blobs| => Wrap(blobs[i]))
  }

  predicate Transferable(blobs: seq<seq<Data>>) {
    && (forall i :: 0 <= i < |blobs| ==> Wrappable(blobs[i]) && |blobs[i]| <= 1000)
    && |Flat(Concat(blobs))| <= 0x10_0000
  }

  lemma {:induction false} FittingSessionIsWhole(blobs: seq<seq<Data>>)
    requires Transferable(blobs)
    ensures Flat(Session(WrapAll(blobs))) == Flat(Concat(blobs))
  {
    hide Flat, Wrap, AddRecord, Accepted;
    if blobs != [] {
      var front, last := blobs[..|blobs| - 1], blobs[|blobs| - 1];
      FlatAppend(Concat(front), last);
      FittingSessionIsWhole(front);
      assert WrapAll(blobs) == WrapAll(front) + [Wrap(last)];
      SessionGrows(WrapAll(front), Wrap(last));
      FittingBlobIsAppendedWhole(Flat(Concat(front)), last, []);
      assert Wrap(last) + [] == Wrap(last);
    }
  }

  /** The events carry these blobs, in record or blob packets. */
  predicate Carry(events: seq<Event>, blobs: seq<seq<Data>>) {
    && |events| == |blobs|
    && forall i :: 0 <= i < |events| ==>
      && (IsCommand(events[i].packet, 0x0004) || IsCommand(events[i].packet, 0x000C))
      && P.Payload(events[i].packet) == Wrap(blobs[i])
  }

  lemma SinceBeginSnoc(events: seq<Event>, e: Event)
    ensures SinceBegin(events + [e]) ==
      if IsCommand(e.packet, 0x0003) then []
      else if IsCommand(e.packet, 0x0004) || IsCommand(e.packet, 0x000C) then SinceBegin(events) + [P.Payload(e.packet)]
      else SinceBegin(events)
  {
    assert (events + [e])[..|events + [e]| - 1] == events;
  }

  lemma WrapAllSnoc(blobs: seq<seq<Data>>)
    requires blobs != []
    ensures WrapAll(blobs) == WrapAll(blobs[..|blobs| - 1]) + [Wrap(blobs[|blobs| - 1])]
  {
    hide Wrap;
  }

  lemma NotABegin(packet: Data)
    requires IsCommand(packet, 0x0004) || IsCommand(packet, 0x000C)
    ensures !IsCommand(packet, 0x0003)
  {
  }

  lemma {:induction false} SinceBeginIsTheTransfer(before: seq<Event>, begin: Event, transfer: seq<Event>,
                                                   blobs: seq<seq<Data>>)
    requires IsCommand(begin.packet, 0x0003) && Carry(transfer, blobs)
    ensures SinceBegin(before + [begin] + transfer) == WrapAll(blobs)
    decreases |transfer|
  {
    hide Wrap, SinceBegin, IsCommand;
    if transfer == [] {
      assert before + [begin] + transfer == before + [begin];
      SinceBeginSnoc(before, begin);
    } else {
      hide WrapAll;
      var n := |transfer| - 1;
      assert before + [begin] + transfer == before + [begin] + transfer[..n] + [transfer[n]];
      NotABegin(transfer[n].packet);
      SinceBeginSnoc(before + [begin] + transfer[..n], transfer[n]);
      SinceBeginIsTheTransfer(before, begin, transfer[..n], blobs[..n]);
      WrapAllSnoc(blobs);
    }
  }

  /** Whatever came before: a begin, blobs that fit together, and an end whose file can be stored leave a file that
      reads back as all their records in order. */
  lemma TransferIsStored(file: Option<Data>, before: seq<Event>, begin: Event, transfer: seq<Event>, end: Event,
                         blobs: seq<seq<Data>>)
    requires IsCommand(begin.packet, 0x0003) && Carry(transfer, blobs) && Transferable(blobs)
    requires IsCommand(end.packet, 0x0005) && end.io.directory && end.io.stored
    requires Flat(Concat(blobs)) != []
    ensures var after := Run(Fresh(file), before + [begin] + transfer + [end]);
      && after.file.Some? && ReadFile(after.file.value).Some?
      && ReadFile(after.file.value).value.table == Flat(Concat(blobs))
  {
    hide Flat, Concat, ReadFile, File, Session, SinceBegin, Carry, Transferable, WrapAll;
    var events := before + [begin] + transfer;
    var all := events + [end];
    assert all[..|all| - 1] == events && all[|all| - 1] == end;
    var s := Run(Fresh(file), events);
    BufferIsTheSession(file, events);
    SinceBeginIsTheTransfer(before, begin, transfer, blobs);
    FittingSessionIsWhole(blobs);
    FileReadsBack(s.records, (s.directoryVersion + 1) % 256, end.io.epoch);
  }

  lemma StepOnFile(s: State, packet: Data, io: Io)
    requires |s.records| <= 0x10_0000
    ensures var after := Step(s, packet, io);
      if IsCommand(packet, 0x0005) && Stores(s, io)
      then after.file == Some(File(s.records, (s.directoryVersion + 1) % 256, io.epoch))
      else after.file == s.file && after.syncs == s.syncs
  {
    hide File, AddRecord;
  }

  /** How many ends came with records and with a directory to store them in. */
  function Advanced(file: Option<Data>, events: seq<Event>): nat {
    if events == [] then 0
    else
      var before, last := events[..|events| - 1], events[|events| - 1];
      Advanced(file, before)
      + if IsCommand(last.packet, 0x0005) && Run(Fresh(file), before).records != [] && last.io.directory then 1 else 0
  }

  /** How many of them were stored. */
  function StoredCount(file: Option<Data>, events: seq<Event>): nat {
    if events == [] then 0
    else
      var before, last := events[..|events| - 1], events[|events| - 1];
      StoredCount(file, before)
      + if IsCommand(last.packet, 0x0005) && Stores(Run(Fresh(file), before), last.io) then 1 else 0
  }

  /** The directory version counts the ends that tried to store a file, and the bridge is told of those that did. */
  lemma {:induction false} CountsEnds(file: Option<Data>, events: seq<Event>)
    ensures Run(Fresh(file), events).directoryVersion == Advanced(file, events) % 256
    ensures Run(Fresh(file), events).syncs == StoredCount(file, events)
  {
    if events != [] {
      hide File, AddRecord, P.Payload;
      CountsEnds(file, events[..|events| - 1]);
    }
  }

  lemma AdvancesWithStore(file: Option<Data>, events: seq<Event>)
    requires events != []
    requires var before, last := events[..|events| - 1], events[|events| - 1];
      IsCommand(last.packet, 0x0005) && Stores(Run(Fresh(file), before), last.io)
    ensures (Run(Fresh(file), events[..|events| - 1]).directoryVersion + 1) % 256 == Advanced(file, events) % 256
  {
    hide Step, IsCommand;
    CountsEnds(file, events[..|events| - 1]);
    ModSum(Advanced(file, events[..|events| - 1]), 1);
  }

  /** After any run the file is the one from before the run, or reads back as the whole session up to the last end
      that could store it, with that end's time and the count of ends so far: never a part of a session, and never an
      empty table. */
  lemma {:induction false} FileIsAWholeSession(file: Option<Data>, events: seq<Event>) returns (at: Option<nat>)
    ensures at.None? ==> Run(Fresh(file), events).file == file && Run(Fresh(file), events).syncs == 0
    ensures at.Some? ==> at.value < |events| && var k := at.value; var now := Run(Fresh(file), events).file;
      && IsCommand(events[k].packet, 0x0005) && Stores(Run(Fresh(file), events[..k]), events[k].io)
      && now.Some? && ReadFile(now.value) == Some(FileRead(
           Advanced(file, events[..k + 1]) % 256, events[k].io.epoch % 0x1_0000_0000, 3, 3, 0, 1, 0,
           Flat(Session(SinceBegin(events[..k])))))
      && forall j :: k < j < |events| && IsCommand(events[j].packet, 0x0005) ==>
           !Stores(Run(Fresh(file), events[..j]), events[j].io)
    decreases |events|
  {
    hide Flat, ReadFile, File, Session, SinceBegin, Step, Stores, IsCommand;
    at := None;
    if events != [] {
      var n := |events| - 1;
      var before, last := events[..n], events[n];
      var s := Run(Fresh(file), before);
      StepOnFile(s, last.packet, last.io);
      if IsCommand(last.packet, 0x0005) && Stores(s, last.io) {
        at := Some(n);
        BufferIsTheSession(file, before);
        FileReadsBack(s.records, (s.directoryVersion + 1) % 256, last.io.epoch);
        AdvancesWithStore(file, events);
        assert events[..n + 1] == events;
      } else {
        at := FileIsAWholeSession(file, before);
        if at.Some? {
          assert before[..at.value] == events[..at.value] && before[..at.value + 1] == events[..at.value + 1];
          forall j | at.value < j < |events| && IsCommand(events[j].packet, 0x0005)
            ensures !Stores(Run(Fresh(file), events[..j]), events[j].io)
          {
            assert j < n ==> before[..j] == events[..j];
          }
        }
      }
    }
  }

  /** A record beyond the limit ends its own packet only: whatever the fill level and the sizes, the record of the next
      packet is accepted if it fits. */
  lemma LimitDoesNotCloseTheSession(records: Data, big: Data, small: Data)
    requires |records| <= 0x10_0000 < |records| + |big| && |records| + |small| <= 0x10_0000
    requires 0 < |big| < 0x1_0000 && 0 < |small| < 0x1_0000
    ensures AddRecord(records, Wrap([big])) == records
    ensures AddRecord(AddRecord(records, Wrap([big])), Wrap([small])) == records + small
  {
    hide Flat, Wrap, Unwrapped, AddRecord, Fitting;
    FlatOne(big);
    FlatOne(small);
    assert Wrap([big]) + [] == Wrap([big]) && Wrap([small]) + [] == Wrap([small]);
    WrapRoundTrip([big], []);
    AddsAccepted(records, Wrap([big]));
    FittingIsLongest([big], Room(records), 1);
    assert [big][..0] == [] && [big][..1] == [big];
    FlatNone();
    FittingBlobIsAppendedWhole(records, [small], []);
  }
}
