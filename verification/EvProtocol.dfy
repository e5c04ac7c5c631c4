/** The EV commands of the SMIF service: what a request packet asks for, what the store answers, and how the
    answer is laid out. */
module EvProtocol {
  import opened Bytes
  import opened EvEntries
  import opened EvOrderedMap
  import opened Packet
  import P = EvPersistence

  const GET_EV_BY_INDEX := 0x012B
  const SET_DELETE_EV := 0x012C
  const GET_EV_BY_NAME := 0x0130
  const EV_STATS := 0x0132

  const SUCCESS := 0
  const DEVICE_ERROR := 1
  const NO_SUCH_EV := 2
  const NAME_TOO_LONG := 3
  const DATA_TOO_LARGE := 4
  const UNSUPPORTED := 5

  predicate IsEvCommand(command: nat) {
    command == GET_EV_BY_INDEX || command == SET_DELETE_EV || command == GET_EV_BY_NAME || command == EV_STATS
  }

  // ---------------------------------------------------------------- requests

  datatype Request =
    | Refused(code: nat)
    | GetByIndex(index: nat)
    | GetByName(name: Data)
    | Set(name: Data, data: Data)
    | SetEmpty(name: Data)
    | Delete(name: Data)
    | DeleteAll
    | Stats

  predicate Flag(flags: byte, bit: nat)
    requires bit > 0
  {
    (flags / bit) % 2 == 1
  }

  const SET_FLAG := 0x01
  const DELETE_FLAG := 0x02
  const DELETE_ALL_FLAG := 0x04

  function DecodeSetDelete(p: Data): Request {
    if |p| < 4 then Refused(NO_SUCH_EV)
    else if Flag(p[0], DELETE_ALL_FLAG) then DeleteAll
    else if Flag(p[0], DELETE_FLAG) then
      if |p| < 36 then Refused(NO_SUCH_EV)
      else if p[35] != 0 then Refused(NAME_TOO_LONG)
      else Delete(CString(p[4..36]))
    else if Flag(p[0], SET_FLAG) then
      if |p| < 38 then Refused(NO_SUCH_EV)
      else
        var name, length := CString(p[4..35]), FromLe(p[36..38]);
        if length > MAX_DATA_SIZE then Refused(DATA_TOO_LARGE)
        else if length == 0 then SetEmpty(name)
        else if |p| < 38 + length then Refused(NO_SUCH_EV)
        else Set(name, p[38..38 + length])
    else Refused(UNSUPPORTED)
  }

  function DecodeRequest(command: nat, p: Data): Request
    requires IsEvCommand(command)
  {
    if command == GET_EV_BY_INDEX then
      if |p| < 4 then Refused(DEVICE_ERROR) else GetByIndex(FromLe(p[..4]))
    else if command == SET_DELETE_EV then DecodeSetDelete(p)
    else if command == GET_EV_BY_NAME then
      if |p| < MAX_NAME_LENGTH then Refused(NO_SUCH_EV)
      else if p[31] != 0 then Refused(NAME_TOO_LONG)
      else GetByName(CString(p[..31]))
    else Stats
  }

  /** What decoding guarantees of the names and values a request carries. */
  predicate WellFormed(r: Request) {
    match r
    case Set(name, data) => 0 !in name && |name| < MAX_NAME_LENGTH && 0 < |data| <= MAX_DATA_SIZE
    case _ => true
  }

  lemma DecodedIsWellFormed(command: nat, p: Data)
    requires IsEvCommand(command)
    ensures WellFormed(DecodeRequest(command, p))
  {
  }

  // ---------------------------------------------------------------- replies

  datatype Reply =
    | Code(code: nat)
    | EvData(name: Data, data: Data)
    | StatsReply(remaining: nat, present: nat, maxKilobytes: nat)

  const HQMEM_PREFIX := Ascii("CQHMEM")
  const HQMEM_DATA: Data := [0x40, 0x60, 0x54, 0x00]

  /** The data sent for an entry: a fixed descriptor for the memory variables, whatever is stored. */
  function Shown(name: Data, data: Data): Data {
    if HQMEM_PREFIX <= name then HQMEM_DATA else data
  }

  /** The change a request makes to the entry list, if it makes one. */
  function Change(es: seq<Entry>, r: Request): Option<seq<Entry>> {
    match r
    case Set(name, data) => SetEntries(es, name, data)
    case SetEmpty(name) => DelEntries(es, name)
    case Delete(name) => DelEntries(es, name)
    case DeleteAll => Some([])
    case _ => None
  }

  /** The reply, given whether the change (if any) was made and saved. */
  function ReplyTo(es: seq<Entry>, r: Request, ok: bool): Reply {
    match r
    case Refused(code) => Code(code)
    case GetByIndex(i) => if i < |es| then EvData(es[i].name, Shown(es[i].name, es[i].data)) else Code(NO_SUCH_EV)
    case GetByName(name) =>
      var e := Lookup(es, name);
      if e.Some? then EvData(e.value.name, Shown(e.value.name, e.value.data)) else Code(NO_SUCH_EV)
    case Set(_, _) => Code(if ok then SUCCESS else NAME_TOO_LONG)
    case SetEmpty(_) => Code(SUCCESS)
    case Delete(_) => Code(if ok then SUCCESS else DEVICE_ERROR)
    case DeleteAll => Code(if ok then SUCCESS else NAME_TOO_LONG)
    case Stats => StatsReply(RemainingSize(es), |es|, MAX_FILE_SIZE / 1024)
  }

  /** One request against the entry list; `saved` is whether a save would succeed. */
  function Serve(es: seq<Entry>, r: Request, saved: bool): (seq<Entry>, Reply) {
    var change := Change(es, r);
    (change.GetOr(es), ReplyTo(es, r, change.Some? && saved))
  }

  lemma ServeKeepsGood(es: seq<Entry>, r: Request, saved: bool)
    requires GoodEntries(es) && WellFormed(r)
    ensures GoodEntries(Serve(es, r, saved).0)
  {
    hide GoodEntries;
    NoneIsGood();
    match r {
      case Set(name, data) =>
        if SetEntries(es, name, data).Some? {
          SetKeepsGood(es, name, data);
        }
      case SetEmpty(name) =>
        if DelEntries(es, name).Some? {
          DelKeepsGood(es, name);
        }
      case Delete(name) =>
        if DelEntries(es, name).Some? {
          DelKeepsGood(es, name);
        }
      case _ =>
    }
  }

  // ---------------------------------------------------------------- the same requests against the map

  /** A value is read as it was stored; the memory variables are all read as the same four bytes. */
  function Reading(name: Data, data: Data): Reply {
    EvData(name, if Ascii("CQHMEM") <= name then [0x40, 0x60, 0x54, 0x00] else data)
  }

  function Answer(m: OrderedMap, r: Request, saved: bool): (OrderedMap, Reply)
    requires m.Valid()
  {
    match r
    case Refused(code) => (m, Code(code))
    case GetByIndex(i) => (m, if i < |m.keys| then Reading(m.keys[i], m.values[m.keys[i]]) else Code(2))
    case GetByName(name) => (m, if name in m.values then Reading(name, m.values[name]) else Code(2))
    case Set(name, data) =>
      if m.Admits(name, data) then (m.Put(name, data), Code(if saved then 0 else 3)) else (m, Code(3))
    case SetEmpty(name) => (m.Remove(name), Code(0))
    case Delete(name) => (m.Remove(name), Code(if name in m.values && saved then 0 else 1))
    case DeleteAll => (OrderedMap([], map[]), Code(if saved then 0 else 3))
    case Stats => (m, StatsReply(if m.Used() < 65536 then 65536 - m.Used() else 0, |m.keys|, 64))
  }

  /** Every request is answered as the map answers it, and leaves the list standing for the map's new state. */
  lemma ServeRefinesAnswer(es: seq<Entry>, r: Request, saved: bool)
    requires GoodEntries(es) && WellFormed(r)
    ensures Abstract(es).Valid()
    ensures var (after, reply) := Serve(es, r, saved);
      Answer(Abstract(es), r, saved) == (Abstract(after), reply)
  {
    UniqueOfGood(es);
    hide SerializedSize, Values, Find, Without, SetEntries, DelEntries, Names, GoodEntries;
    AbstractIsValid(es);
    match r {
      case Set(name, data) => SetRefinesPut(es, name, data);
      case SetEmpty(name) => DelRefinesRemove(es, name);
      case Delete(name) => DelRefinesRemove(es, name);
      case DeleteAll => EmptyAbstract();
      case Refused(_) =>
      case GetByIndex(_) => ReadRefinesAnswer(es, r, saved);
      case GetByName(_) => ReadRefinesAnswer(es, r, saved);
      case Stats => ReadRefinesAnswer(es, r, saved);
    }
  }

  lemma ReadRefinesAnswer(es: seq<Entry>, r: Request, saved: bool)
    requires Unique(es) && Abstract(es).Valid() && (r.GetByIndex? || r.GetByName? || r.Stats?)
    ensures Answer(Abstract(es), r, saved) == (Abstract(es), ReplyTo(es, r, false))
  {
    hide SerializedSize, Values, Find;
    match r {
      case GetByName(name) => ValuesAt(es, name);
      case GetByIndex(i) =>
        if i < |es| {
          FindAt(es, i);
          ValuesAt(es, es[i].name);
        }
      case Stats => AbstractSize(es);
    }
  }

  lemma EmptyAbstract()
    ensures Abstract([]) == OrderedMap([], map[])
  {
    assert Names([]) == [];
  }

  // ---------------------------------------------------------------- replies on the wire

  function ReplyPayload(reply: Reply): (p: Data)
  {
    match reply
    case Code(code) => Le(code, 4)
    case EvData(name, data) => Le(0, 4) + (NameField(name) + (Le(|data|, 2) + data))
    case StatsReply(remaining, present, maxKilobytes) =>
      Le(0, 4) + (Le(remaining, 4) + (Le(present, 4) + Le(maxKilobytes, 4)))
  }

  /** The reply a host reads from a response payload: a code alone, or zero and statistics or a variable; the command
      and the size tell the layouts apart. */
  function DecodeReply(command: nat, p: Data): Option<Reply> {
    if |p| == 4 then Some(Code(FromLe(p)))
    else if |p| < 4 || FromLe(p[..4]) != 0 then None
    else if command == 0x0132 && |p| == 16 then
      Some(StatsReply(FromLe(p[4..8]), FromLe(p[8..12]), FromLe(p[12..16])))
    else if |p| >= 38 && |p| == 38 + FromLe(p[36..38]) then Some(EvData(CString(p[4..36]), p[38..]))
    else None
  }

  predicate Sendable(reply: Reply) {
    match reply
    case Code(code) => code <= 0xFF
    case EvData(name, data) => GoodName(name) && |data| <= MAX_DATA_SIZE
    case StatsReply(remaining, present, maxKilobytes) =>
      remaining <= MAX_FILE_SIZE && present <= MAX_COUNT && maxKilobytes <= 64
  }

  predicate WellRefused(r: Request) {
    r.Refused? ==> r.code <= UNSUPPORTED
  }

  lemma RepliesAreSendable(es: seq<Entry>, r: Request, saved: bool)
    requires GoodEntries(es) && WellRefused(r)
    ensures Sendable(Serve(es, r, saved).1)
  {
    hide SerializedSize, SetEntries, DelEntries;
    CountBound(es);
  }

  lemma CStringOfField(name: Data)
    requires GoodName(name)
    ensures CString(NameField(name)) == name
  {
    hide CString;
    P.CStringWhole(name);
    P.CStringPadded(name, MAX_NAME_LENGTH - |name|);
  }

  /** The host reads back exactly the reply that was sent. */
  lemma ReplyRoundTrip(command: nat, reply: Reply)
    requires Sendable(reply) && (reply.StatsReply? ==> command == EV_STATS)
    ensures DecodeReply(command, ReplyPayload(reply)) == Some(reply)
  {
    hide Le, FromLe, NameField, CString;
    Widths();
    LeInverse(0, 4);
    var p := ReplyPayload(reply);
    assert !reply.Code? ==> p[..4] == Le(0, 4);
    match reply {
      case Code(code) => LeInverse(code, 4);
      case StatsReply(remaining, present, maxKilobytes) =>
        LeInverse(remaining, 4);
        LeInverse(present, 4);
        LeInverse(maxKilobytes, 4);
        assert p[4..8] == Le(remaining, 4) && p[8..12] == Le(present, 4) && p[12..16] == Le(maxKilobytes, 4);
      case EvData(name, data) =>
        LeInverse(|data|, 2);
        CStringOfField(name);
        assert p[36..38] == Le(|data|, 2) && p[4..36] == NameField(name) && p[38..] == data;
    }
  }

  /** No reply is longer than what is left of a packet behind the header. */
  lemma RepliesFitPackets(reply: Reply)
    requires Sendable(reply)
    ensures PACKET_HEADER + |ReplyPayload(reply)| <= 4012 <= MAX_PACKET_SIZE
  {
    hide NameField, Le;
  }
}
