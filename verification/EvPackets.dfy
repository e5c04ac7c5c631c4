/** Whole EV packets as the host sees them: its requests are understood, and a value comes back as it was sent. */
module EvPackets {
  import opened Bytes
  import opened EvEntries
  import opened EvProtocol
  import opened Packet
  import P = EvPersistence
  import W = EvWorld
  import R = EvRuns
  import T = EvTableRuns
  import S = EvSmif

  // ---------------------------------------------------------------- the host's requests

  predicate Encodable(r: Request) {
    match r
    case Refused(_) => false
    case GetByIndex(index) => index < 0x1_0000_0000
    case GetByName(name) => GoodName(name)
    case Set(name, data) => GoodName(name) && 0 < |data| <= 3966
    case SetEmpty(name) => GoodName(name)
    case Delete(name) => GoodName(name)
    case DeleteAll => true
    case Stats => true
  }

  function CommandOf(r: Request): (command: u16)
    requires Encodable(r)
    ensures IsEvCommand(command) && command < 0x8000
  {
    if r.GetByIndex? then 0x012B
    else if r.GetByName? then 0x0130
    else if r.Stats? then 0x0132
    else 0x012C
  }

  function Flags(flag: byte): Data {
    [flag, 0, 0, 0]
  }

  /** A name in 32 bytes, the rest of them zero. */
  function PaddedName(name: Data): (b: Data)
    requires GoodName(name)
    ensures |b| == 32
  {
    name + Zeros(32 - |name|)
  }

  function EncodeRequest(r: Request): (p: Data)
    requires Encodable(r)
    ensures |p| <= MAX_PACKET_SIZE - PACKET_HEADER
  {
    match r
    case GetByIndex(index) => Le(index, 4)
    case GetByName(name) => PaddedName(name)
    case Set(name, data) => Flags(0x01) + (PaddedName(name) + (Le(|data|, 2) + data))
    case SetEmpty(name) => Flags(0x01) + (PaddedName(name) + Le(0, 2))
    case Delete(name) => Flags(0x02) + PaddedName(name)
    case DeleteAll => Flags(0x04)
    case Stats => []
  }

  lemma FieldBack(name: Data)
    requires GoodName(name)
    ensures PaddedName(name)[31] == 0
    ensures CString(PaddedName(name)) == name && CString(PaddedName(name)[..31]) == name
  {
    P.NameFieldIs(name);
    CStringOfField(name);
    P.NameBack(name);
    P.CStringWhole(name);
  }

  lemma Middle(front: Data, data: Data, padding: Data)
    ensures (front + (data + padding))[|front|..|front| + |data|] == data
  {
  }

  lemma SetParts(flags: Data, name: Data, length: Data, data: Data, padding: Data)
    requires |flags| == 4 && |name| == 32 && |length| == 2
    ensures var p := flags + (name + (length + data)) + padding;
      && |p| >= 38 + |data| && p[0] == flags[0]
      && p[4..35] == name[..31] && p[36..38] == length && p[38..38 + |data|] == data
  {
    var front := flags + (name + length);
    var p := front + (data + padding);
    assert flags + (name + (length + data)) + padding == p;
    Middle(front, data, padding);
    assert front[4..35] == name[..31] && front[36..38] == length;
    assert p[4..35] == front[4..35] && p[36..38] == front[36..38];
  }

  /** A set request, from the fields that decoding looks at. */
  lemma SetDecoded(p: Data, name: Data, data: Data)
    requires |data| <= MAX_DATA_SIZE && |p| >= 38 + |data| && p[0] == SET_FLAG
    requires CString(p[4..35]) == name && FromLe(p[36..38]) == |data| && p[38..38 + |data|] == data
    ensures DecodeSetDelete(p) == if data == [] then SetEmpty(name) else Set(name, data)
  {
    hide FromLe, CString;
  }

  lemma SetBack(name: Data, data: Data, padding: Data)
    requires GoodName(name) && |data| <= MAX_DATA_SIZE
    ensures DecodeSetDelete(Flags(SET_FLAG) + (PaddedName(name) + (Le(|data|, 2) + data)) + padding)
         == if data == [] then SetEmpty(name) else Set(name, data)
  {
    hide Le, FromLe, PaddedName, CString, DecodeSetDelete;
    Widths();
    FieldBack(name);
    LeInverse(|data|, 2);
    SetParts(Flags(SET_FLAG), PaddedName(name), Le(|data|, 2), data, padding);
    SetDecoded(Flags(SET_FLAG) + (PaddedName(name) + (Le(|data|, 2) + data)) + padding, name, data);
  }

  lemma DeleteBack(name: Data, padding: Data)
    requires GoodName(name)
    ensures DecodeSetDelete(Flags(DELETE_FLAG) + PaddedName(name) + padding) == Delete(name)
  {
    hide FromLe, PaddedName, CString;
    FieldBack(name);
    var p := Flags(DELETE_FLAG) + PaddedName(name) + padding;
    assert p[4..36] == PaddedName(name) && p[35] == PaddedName(name)[31];
  }

  lemma GetBack(name: Data, padding: Data)
    requires GoodName(name)
    ensures DecodeRequest(GET_EV_BY_NAME, PaddedName(name) + padding) == GetByName(name)
  {
    hide DecodeSetDelete, PaddedName, CString;
    FieldBack(name);
    assert (PaddedName(name) + padding)[..31] == PaddedName(name)[..31];
  }

  lemma IndexBack(index: nat, padding: Data)
    requires index < 0x1_0000_0000
    ensures DecodeRequest(GET_EV_BY_INDEX, Le(index, 4) + padding) == GetByIndex(index)
  {
    hide DecodeSetDelete, Le, FromLe;
    Widths();
    LeInverse(index, 4);
    assert (Le(index, 4) + padding)[..4] == Le(index, 4);
  }

  lemma SetDeleteIsDecoded(p: Data)
    ensures DecodeRequest(SET_DELETE_EV, p) == DecodeSetDelete(p)
  {
    hide DecodeSetDelete;
  }

  /** Every request that a host can form is understood as what it is, whatever pads its packet. */
  lemma RequestRoundTrip(r: Request, padding: Data)
    requires Encodable(r)
    ensures DecodeRequest(CommandOf(r), EncodeRequest(r) + padding) == r
  {
    var p := EncodeRequest(r) + padding;
    match r {
      case GetByIndex(index) => IndexBack(index, padding);
      case GetByName(name) => GetBack(name, padding);
      case Set(name, data) =>
        hide DecodeSetDelete, DecodeRequest, PaddedName, Le;
        SetDeleteIsDecoded(p);
        SetBack(name, data, padding);
      case SetEmpty(name) =>
        hide DecodeSetDelete, DecodeRequest, PaddedName, Le;
        SetDeleteIsDecoded(p);
        SetBack(name, [], padding);
        assert Le(0, 2) + [] == Le(0, 2);
      case Delete(name) =>
        hide DecodeSetDelete, DecodeRequest, PaddedName;
        SetDeleteIsDecoded(p);
        DeleteBack(name, padding);
      case DeleteAll =>
      case Stats =>
    }
  }

  /** For every packet: which set-or-delete packets are refused, by code. The flag for clearing the store goes before
      the one for deleting, and that before the one for setting. */
  lemma RefusedChanges(p: Data)
    ensures var r := DecodeRequest(0x012C, p);
      && (r.DeleteAll? <==> |p| >= 4 && HasBit(p[0], 4))
      && (r == Refused(5) <==> |p| >= 4 && !HasBit(p[0], 1) && !HasBit(p[0], 2) && !HasBit(p[0], 4))
      && (r == Refused(4) <==> |p| >= 38 && OnlySet(p[0]) && FromLe(p[36..38]) > 3966)
      && (r == Refused(3) <==> |p| >= 36 && HasBit(p[0], 2) && !HasBit(p[0], 4) && p[35] != 0)
      && (r == Refused(2) <==>
           || |p| < 4
           || (HasBit(p[0], 2) && !HasBit(p[0], 4) && |p| < 36)
           || (OnlySet(p[0]) && (|p| < 38 || |p| < 38 + FromLe(p[36..38]) <= 38 + 3966)))
      && (r.Refused? ==> 2 <= r.code <= 5)
  {
    hide FromLe, CString;
  }

  predicate HasBit(flags: nat, bit: nat)
    requires bit > 0
  {
    flags / bit % 2 == 1
  }

  predicate OnlySet(flags: nat) {
    HasBit(flags, 1) && !HasBit(flags, 2) && !HasBit(flags, 4)
  }

  /** The same for the three kinds of queries. */
  lemma RefusedQueries(p: Data)
    ensures DecodeRequest(0x012B, p) == if |p| < 4 then Refused(1) else GetByIndex(FromLe(p[..4]))
    ensures var r := DecodeRequest(0x0130, p);
      && (r == Refused(2) <==> |p| < 32) && (r == Refused(3) <==> |p| >= 32 && p[31] != 0)
      && (r.Refused? ==> 2 <= r.code <= 3)
    ensures DecodeRequest(0x0132, p) == Stats
  {
    hide FromLe, CString, DecodeSetDelete;
  }

  // ---------------------------------------------------------------- packets in, packets out

  /** What is left and sent for one request packet with a response buffer of full size. */
  function Exchange(w: W.World, packet: Data, io: W.Io): (W.World, Option<Data>)
    requires |packet| >= PACKET_HEADER && IsEvCommand(ParseHeader(packet).command)
  {
    var hdr := ParseHeader(packet);
    var (after, reply) := W.Execute(w, DecodeRequest(hdr.command, Payload(packet)), io);
    (after, S.Sent(MAX_PACKET_SIZE, hdr, reply))
  }

  function RequestPacket(hdr: Header, r: Request): (packet: Data)
    requires Encodable(r) && hdr.command == CommandOf(r)
    ensures |packet| >= PACKET_HEADER
  {
    PrintHeader(hdr) + EncodeRequest(r)
  }

  /** In every state within the bounds, the answer to a request is a packet that the host reads as the reply of the
      transition system: error 3 for want of space never occurs. Its header holds its own size, the command with bit 15
      set, and sequence number, service and version of the request. */
  lemma ExchangeIsExecute(w: W.World, hdr: Header, r: Request, io: W.Io)
    requires R.Inv(w) && Encodable(r) && hdr.command == CommandOf(r)
    ensures var packet := RequestPacket(hdr, r);
      && ParseHeader(packet) == hdr
      && var ((after, answer), (next, reply)) := (Exchange(w, packet, io), W.Execute(w, r, io));
      && after == next && answer.Some? && DecodeReply(CommandOf(r), Payload(answer.value)) == Some(reply)
      && PACKET_HEADER <= |answer.value| < 0x1_0000
      && ParseHeader(answer.value)
         == Header(|answer.value|, hdr.sequence, 0x8000 + CommandOf(r), hdr.serviceId, hdr.version)
  {
    hide EncodeRequest, DecodeRequest, ParseHeader, Payload, PrintHeader, W.Execute, GoodEntries, R.FileOk, S.Sent,
         DecodeReply, ReplyPayload, Sendable;
    HeaderRoundTrip(hdr, EncodeRequest(r));
    RequestRoundTrip(r, []);
    assert EncodeRequest(r) + [] == EncodeRequest(r);
    R.ExecuteIsServe(w, r, io);
    RepliesAreSendable(w.entries, r, io.save.Saved?);
    StatsOnly(w, r, io);
    S.SentIsReadBack(hdr, W.Execute(w, r, io).1);
  }

  lemma StatsOnly(w: W.World, r: Request, io: W.Io)
    ensures W.Execute(w, r, io).1.StatsReply? ==> r.Stats?
  {
    hide SetEntries, DelEntries, W.Commit, Lookup;
  }

  /** The packet is this request under this header. */
  predicate Asks(packet: Data, hdr: Header, r: Request) {
    Encodable(r) && hdr.command == CommandOf(r) && packet == RequestPacket(hdr, r)
  }

  /** What one request packet leaves behind, and the answer to it. */
  predicate Answered(w: W.World, packet: Data, io: W.Io, after: W.World, answer: Data) {
    && |packet| >= PACKET_HEADER && IsEvCommand(ParseHeader(packet).command)
    && Exchange(w, packet, io) == (after, Some(answer))
  }

  lemma AnswerIsReply(w: W.World, packet: Data, hdr: Header, r: Request, io: W.Io, after: W.World, answer: Data)
    requires R.Inv(w) && Asks(packet, hdr, r) && Answered(w, packet, io, after, answer)
    ensures var (next, reply) := W.Execute(w, r, io);
      after == next && DecodeReply(hdr.command, Payload(answer)) == Some(reply)
  {
    ExchangeIsExecute(w, hdr, r, io);
    hide R.Inv, W.Execute, Exchange, RequestPacket, DecodeReply, Payload, ParseHeader;
  }

  lemma SetAndGet(setPacket: Data, setHdr: Header, getPacket: Data, getHdr: Header, name: Data, data: Data)
    requires Asks(setPacket, setHdr, Set(name, data)) && Asks(getPacket, getHdr, GetByName(name))
    ensures setHdr.command == 0x012C && getHdr.command == 0x0130 && WellFormed(Set(name, data))
  {
    hide RequestPacket;
  }

  /** A value of 1 to 3966 bytes in a set packet that was answered with success is the value in the answer to a
      get-by-name packet (for a memory variable always the same four bytes), whatever events in between leave the name
      alone. */
  lemma SetPacketIsReadBack(w: W.World, name: Data, data: Data, setHdr: Header, setPacket: Data, io: W.Io,
                            after: W.World, done: Data, events: seq<W.Event>, getHdr: Header, getPacket: Data,
                            io2: W.Io, later: W.World, answer: Data)
    requires R.Inv(w) && Asks(setPacket, setHdr, Set(name, data)) && Asks(getPacket, getHdr, GetByName(name))
    requires Answered(w, setPacket, io, after, done) && DecodeReply(0x012C, Payload(done)) == Some(Code(0))
    requires (forall i :: 0 <= i < |events| ==> T.Spares(events[i], name)) && T.RestartsAfterSaves(events)
    requires Answered(W.Run(after, events), getPacket, io2, later, answer)
    ensures DecodeReply(0x0130, Payload(answer)) == Some(Reading(name, data))
  {
    var set_, get := Set(name, data), GetByName(name);
    hide Asks, WellFormed, Reading, R.Inv, W.Execute, T.Spares, T.RestartsAfterSaves, Answered, DecodeReply, Payload,
      W.Run;
    SetAndGet(setPacket, setHdr, getPacket, getHdr, name, data);
    AnswerIsReply(w, setPacket, setHdr, set_, io, after, done);
    T.SetThenGetByName(w, name, data, io, events, io2);
    AnswerIsReply(W.Run(after, events), getPacket, getHdr, get, io2, later, answer);
  }
}
