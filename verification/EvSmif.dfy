/** The EV commands as packets: a request packet in, the response written into the caller's buffer. */
module EvSmif {
  import opened Bytes
  import opened EvEntries
  import opened EvProtocol
  import opened Packet
  import P = EvPersistence
  import W = EvWorld
  import R = EvRuns
  import opened EvDaemon

  /** The bytes written for a reply, or nothing when the buffer is too small; entry data that does not fit
      becomes error 3. */
  function Sent(length: nat, request: Header, reply: Reply): (packet: Option<Data>) {
    var size := PACKET_HEADER + |ReplyPayload(reply)|;
    if length >= size && size <= MAX_PACKET_SIZE then Some(Response(request, ReplyPayload(reply)))
    else if reply.EvData? && length >= PACKET_HEADER + 4 then Some(Response(request, Le(NAME_TOO_LONG, 4)))
    else None
  }

  /** The buffer and the returned length after `sent` was written over `before`. */
  predicate Written(sent: Option<Data>, before: Data, after: Data, n: int) {
    if sent.None? then n == -1 && after == before
    else n == |sent.value| <= |before| && after == sent.value + before[|sent.value|..]
  }

  /** In a full-size buffer every reply is sent as it is, and the host reads it back. */
  lemma SentIsReadBack(request: Header, reply: Reply)
    requires Sendable(reply) && (reply.StatsReply? ==> request.command == EV_STATS)
    ensures PACKET_HEADER + |ReplyPayload(reply)| <= MAX_PACKET_SIZE
    ensures Sent(MAX_PACKET_SIZE, request, reply) == Some(Response(request, ReplyPayload(reply)))
    ensures var packet := Response(request, ReplyPayload(reply));
      && ParseHeader(packet) == ResponseHeader(request, |packet|)
      && DecodeReply(request.command, Payload(packet)) == Some(reply)
  {
    hide ReplyPayload, DecodeReply, Sendable, PrintHeader, ParseHeader;
    RepliesFitPackets(reply);
    var p := ReplyPayload(reply);
    HeaderRoundTrip(ResponseHeader(request, PACKET_HEADER + |p|), p);
    ReplyRoundTrip(request.command, reply);
  }

  lemma SplicedParts(a: Data, m: Data, b: Data, x: Data)
    requires |m| == |x|
    ensures Spliced(a + m + b, |a|, x) == a + x + b
  {
  }

  lemma ZerosSplit(l: nat, d: nat, header: Data, rest: Data)
    requires l <= 32 && |header| == 8
    ensures header + (Zeros(46 + d) + rest)[8..]
         == (header + Zeros(4)) + Zeros(l) + ((Zeros(32 - l) + Zeros(2)) + Zeros(d) + rest)
  {
  }

  /** Header, name, length and data copied into a zeroed buffer leave the layout of an entry reply. */
  lemma CopiesIntoZeros(before: Data, header: Data, name: Data, length: Data, data: Data)
    requires |name| < 32 && |length| == 2 && |header| == 8 && |before| >= 46 + |data|
    ensures Spliced(Spliced(Spliced(Spliced(Spliced(before, 0, Zeros(46 + |data|)), 0, header), 12, name), 44, length),
                    46, data)
      == header + (Zeros(4) + ((name + Zeros(32 - |name|)) + (length + data))) + before[46 + |data|..]
  {
    hide Zeros;
    var front, l, d, rest := header + Zeros(4), |name|, |data|, before[46 + |data|..];
    assert Spliced(before, 0, Zeros(46 + d)) == Zeros(46 + d) + rest;
    ZerosSplit(l, d, header, rest);
    assert Spliced(Zeros(46 + d) + rest, 0, header) == header + (Zeros(46 + d) + rest)[8..];
    hide Spliced;
    SplicedParts(front, Zeros(l), (Zeros(32 - l) + Zeros(2)) + Zeros(d) + rest, name);
    var field := front + name + Zeros(32 - l);
    assert front + name + ((Zeros(32 - l) + Zeros(2)) + Zeros(d) + rest) == field + Zeros(2) + (Zeros(d) + rest);
    SplicedParts(field, Zeros(2), Zeros(d) + rest, length);
    assert field + length + (Zeros(d) + rest) == (field + length) + Zeros(d) + rest;
    SplicedParts(field + length, Zeros(d), rest, data);
  }

  class SmifService {
    const evStorage: EvStorage?

    constructor (evStorage: EvStorage?)
      ensures this.evStorage == evStorage
    {
      this.evStorage := evStorage;
    }

    /** The store, if one is attached, is observed, its observers are at rest, and its entries within their bounds. */
    ghost predicate Ready()
      reads evStorage, if evStorage == null then null else evStorage.boot
    {
      evStorage != null ==>
        && evStorage.Wired() && evStorage.boot != null && evStorage.bios != null
        && !evStorage.boot.applyingOverride
        && GoodEntries(evStorage.entries)
    }

    /** The store, the settings, signals and table on the bus, and the service that manages its part of the table. */
    ghost function Touched(): set<object>
      reads evStorage
    {
      if evStorage == null then {}
      else if evStorage.bios == null then {evStorage, evStorage.bus}
      else {evStorage, evStorage.bus, evStorage.bios}
    }

    method BuildSimpleResponse(hdr: Header, response: array<byte>, code: nat) returns (n: int)
      modifies response
      ensures Written(Sent(response.Length, hdr, Code(code)), old(response[..]), response[..], n)
    {
      hide Le;
      n := EmitResponse(hdr, response, Le(code, 4));
    }

    method BuildEvDataResponse(hdr: Header, response: array<byte>, e: Entry) returns (n: int)
      requires GoodName(e.name) && |e.data| <= MAX_DATA_SIZE
      modifies response
      ensures Written(Sent(response.Length, hdr, Reading(e.name, e.data)), old(response[..]), response[..], n)
    {
      hide Le, PrintHeader, NameField;
      var data := e.data;
      if HQMEM_PREFIX <= e.name {
        data := HQMEM_DATA;
      }
      var respSize := PACKET_HEADER + 4 + MAX_NAME_LENGTH + 2 + |data|;
      if response.Length < respSize {
        n := BuildSimpleResponse(hdr, response, NAME_TOO_LONG);
        return;
      }
      FillEvData(hdr, response, e.name, data);
      hide Shown, GoodName;
      return respSize;
    }

    method FillEvData(hdr: Header, response: array<byte>, name: Data, data: Data)
      requires GoodName(name) && |data| <= MAX_DATA_SIZE && response.Length >= 46 + |data|
      modifies response
      ensures response[..] == PrintHeader(ResponseHeader(hdr, 46 + |data|))
                              + (Le(0, 4) + (NameField(name) + (Le(|data|, 2) + data)))
                              + old(response[..])[46 + |data|..]
    {
      hide Le, PrintHeader, NameField, Zeros;
      hide ResponseHeader, Spliced;
      ghost var before := response[..];
      ghost var header := PrintHeader(ResponseHeader(hdr, 46 + |data|));
      CopyInto(response, 0, Zeros(46 + |data|));
      InitResponse(response, hdr, 46 + |data|);
      CopyInto(response, 12, name);
      CopyInto(response, 44, Le(|data|, 2));
      CopyInto(response, 46, data);
      P.NameFieldIs(name);
      ZerosAreLe();
      CopiesIntoZeros(before, header, name, Le(|data|, 2), data);
    }

    method HandleGetEvByIndex(hdr: Header, p: Data, response: array<byte>, ghost io: W.Io) returns (n: int)
      requires evStorage != null && Ready() && hdr.command == GET_EV_BY_INDEX
      modifies response
      ensures Served(hdr, p, io, old(response[..]), response[..], n, old(evStorage.World()))
    {
      hide GoodEntries, Sent, FromLe;
      if |p| < 4 {
        n := BuildSimpleResponse(hdr, response, DEVICE_ERROR);
        return;
      }
      var e := evStorage.GetByIndex(FromLe(p[..4]));
      if e.None? {
        n := BuildSimpleResponse(hdr, response, NO_SUCH_EV);
        return;
      }
      EntriesAreGood();
      n := BuildEvDataResponse(hdr, response, e.value);
    }

    method HandleGetEvByName(hdr: Header, p: Data, response: array<byte>, ghost io: W.Io) returns (n: int)
      requires evStorage != null && Ready() && hdr.command == GET_EV_BY_NAME
      modifies response
      ensures Served(hdr, p, io, old(response[..]), response[..], n, old(evStorage.World()))
    {
      hide GoodEntries, Sent, CString;
      if |p| < MAX_NAME_LENGTH {
        n := BuildSimpleResponse(hdr, response, NO_SUCH_EV);
        return;
      }
      if p[31] != 0 {
        n := BuildSimpleResponse(hdr, response, NAME_TOO_LONG);
        return;
      }
      var e := evStorage.GetByName(CString(p[..31]));
      if e.None? {
        n := BuildSimpleResponse(hdr, response, NO_SUCH_EV);
        return;
      }
      EntriesAreGood();
      n := BuildEvDataResponse(hdr, response, e.value);
    }

    method HandleEvStats(hdr: Header, p: Data, response: array<byte>, ghost io: W.Io) returns (n: int)
      requires evStorage != null && Ready() && hdr.command == EV_STATS
      modifies response
      ensures Served(hdr, p, io, old(response[..]), response[..], n, old(evStorage.World()))
    {
      hide GoodEntries, SerializedSize, Le, PrintHeader;
      var remSize := evStorage.RemainingSizeOf();
      var presentEvs := evStorage.Count();
      var maxSizeKb := MAX_FILE_SIZE / 1024;
      n := EmitResponse(hdr, response, Le(0, 4) + (Le(remSize, 4) + (Le(presentEvs, 4) + Le(maxSizeKb, 4))));
    }

    /** The reply the transition system gives is what was written into the buffer. */
    ghost predicate Served(hdr: Header, p: Data, io: W.Io, before: Data, after: Data, n: int, w: W.World)
      requires IsEvCommand(hdr.command)
    {
      Written(Sent(|before|, hdr, W.Execute(w, DecodeRequest(hdr.command, p), io).1), before, after, n)
    }

    lemma EntriesAreGood()
      requires evStorage != null && GoodEntries(evStorage.entries)
      ensures forall i :: 0 <= i < |evStorage.entries| ==>
        GoodName(evStorage.entries[i].name) && |evStorage.entries[i].data| <= MAX_DATA_SIZE
    {
    }

    method HandleSetDeleteEv(hdr: Header, p: Data, response: array<byte>, io: W.Io) returns (n: int)
      requires evStorage != null && Ready() && hdr.command == SET_DELETE_EV
      modifies response, evStorage`entries, evStorage`file, evStorage.bus, evStorage.bios
      ensures evStorage.Wired()
      ensures evStorage.World() == W.Execute(old(evStorage.World()), DecodeRequest(hdr.command, p), io).0
      ensures Served(hdr, p, io, old(response[..]), response[..], n, old(evStorage.World()))
    {
      hide GoodEntries, Sent, CString, FromLe, W.Commit, SetEntries, DelEntries;
      if |p| < 4 {
        n := BuildSimpleResponse(hdr, response, NO_SUCH_EV);
        return;
      }
      var flags := p[0];
      if Flag(flags, DELETE_ALL_FLAG) {
        var ok := evStorage.DeleteAll(io.save, io);
        n := BuildSimpleResponse(hdr, response, if ok then SUCCESS else NAME_TOO_LONG);
        return;
      }
      if Flag(flags, DELETE_FLAG) {
        if |p| < 4 + MAX_NAME_LENGTH {
          n := BuildSimpleResponse(hdr, response, NO_SUCH_EV);
          return;
        }
        var nameRegion := p[4..36];
        if nameRegion[31] != 0 {
          n := BuildSimpleResponse(hdr, response, NAME_TOO_LONG);
          return;
        }
        var ok := evStorage.Del(CString(nameRegion), io.save, io);
        n := BuildSimpleResponse(hdr, response, if ok then SUCCESS else DEVICE_ERROR);
        return;
      }
      if Flag(flags, SET_FLAG) {
        var minSetPayload := 4 + MAX_NAME_LENGTH + 2;
        if |p| < minSetPayload {
          n := BuildSimpleResponse(hdr, response, NO_SUCH_EV);
          return;
        }
        var name := CString(p[4..35]);
        var dataLen := FromLe(p[36..38]);
        if dataLen > MAX_DATA_SIZE {
          n := BuildSimpleResponse(hdr, response, DATA_TOO_LARGE);
          return;
        }
        if dataLen == 0 {
          var ok := evStorage.Del(name, io.save, io);
          n := BuildSimpleResponse(hdr, response, SUCCESS);
          return;
        }
        if |p| < minSetPayload + dataLen {
          n := BuildSimpleResponse(hdr, response, NO_SUCH_EV);
          return;
        }
        var ok := evStorage.Set(name, p[38..38 + dataLen], io.save, io);
        n := BuildSimpleResponse(hdr, response, if ok then SUCCESS else NAME_TOO_LONG);
        return;
      }
      n := BuildSimpleResponse(hdr, response, UNSUPPORTED);
    }

    /** What the four handlers answer when no store is attached. */
    method HandleWithoutStore(hdr: Header, p: Data, response: array<byte>) returns (n: int)
      requires IsEvCommand(hdr.command)
      modifies response
      ensures Written(Sent(response.Length, hdr, WithoutStore(hdr.command, p)), old(response[..]), response[..], n)
    {
      hide Le, PrintHeader;
      if hdr.command == GET_EV_BY_INDEX {
        n := BuildSimpleResponse(hdr, response, DEVICE_ERROR);
      } else if hdr.command == SET_DELETE_EV {
        n := BuildSimpleResponse(hdr, response, NO_SUCH_EV);
      } else if hdr.command == GET_EV_BY_NAME {
        n := BuildSimpleResponse(hdr, response, if |p| < MAX_NAME_LENGTH then NO_SUCH_EV else DEVICE_ERROR);
      } else {
        n := EmitResponse(hdr, response, Le(0, 4) + (Le(0, 4) + (Le(0, 4) + Le(MAX_FILE_SIZE / 1024, 4))));
      }
    }

    /** One EV request packet: the store, its observers and the response buffer end up exactly as the transition
        system says; a packet without a header, or a buffer without room for an error code, is dropped. Without a
        store the answer is an error or empty statistics. */
    method Handle(request: Data, response: array<byte>, io: W.Io) returns (n: int)
      requires Ready()
      requires |request| >= PACKET_HEADER ==> IsEvCommand(ParseHeader(request).command)
      modifies response, Touched()
      ensures Ready()
      ensures evStorage != null ==>
        evStorage.boot == old(evStorage.boot) && evStorage.bios == old(evStorage.bios)
      ensures |request| < PACKET_HEADER || response.Length < PACKET_HEADER + 4 ==>
        n == -1 && response[..] == old(response[..])
        && (evStorage != null ==> evStorage.World() == old(evStorage.World()))
      ensures |request| >= PACKET_HEADER && response.Length >= PACKET_HEADER + 4 && evStorage != null ==>
        var hdr := ParseHeader(request);
        && evStorage.World() == W.Execute(old(evStorage.World()), DecodeRequest(hdr.command, Payload(request)), io).0
        && Served(hdr, Payload(request), io, old(response[..]), response[..], n, old(evStorage.World()))
      ensures |request| >= PACKET_HEADER && response.Length >= PACKET_HEADER + 4 && evStorage == null ==>
        var hdr := ParseHeader(request);
        Written(Sent(response.Length, hdr, WithoutStore(hdr.command, Payload(request))), old(response[..]),
                response[..], n)
    {
      hide GoodEntries, Served, W.Execute, DecodeRequest, ParseHeader, WithoutStore, Written, Sent;
      if |request| < PACKET_HEADER { return -1; }
      if response.Length < PACKET_HEADER + 4 { return -1; }
      var hdr := ParseHeader(request);
      var p := Payload(request);
      if evStorage == null {
        n := HandleWithoutStore(hdr, p, response);
        return;
      }
      ghost var r := DecodeRequest(hdr.command, p);
      R.ExecuteIsServe(evStorage.World(), r, io);
      DecodedIsWellFormed(hdr.command, p);
      ServeKeepsGood(evStorage.entries, r, io.save.Saved?);
      QueriesChangeNothing(evStorage.World(), hdr.command, p, io);
      if hdr.command == GET_EV_BY_INDEX {
        n := HandleGetEvByIndex(hdr, p, response, io);
      } else if hdr.command == SET_DELETE_EV {
        n := HandleSetDeleteEv(hdr, p, response, io);
      } else if hdr.command == GET_EV_BY_NAME {
        n := HandleGetEvByName(hdr, p, response, io);
      } else {
        n := HandleEvStats(hdr, p, response, io);
      }
    }
  }

  /** The reply without a store, whose lookup by name still looks at the size of the request first. */
  function WithoutStore(command: nat, p: Data): Reply
    requires IsEvCommand(command)
  {
    if command == EV_STATS then StatsReply(0, 0, MAX_FILE_SIZE / 1024)
    else if command == SET_DELETE_EV || (command == GET_EV_BY_NAME && |p| < MAX_NAME_LENGTH) then Code(NO_SUCH_EV)
    else Code(DEVICE_ERROR)
  }

  /** The answers without a store, command by command. */
  lemma WithoutStoreCodes(p: Data)
    ensures WithoutStore(0x012B, p) == Code(1) && WithoutStore(0x012C, p) == Code(2)
    ensures WithoutStore(0x0130, p) == Code(if |p| < 32 then 2 else 1)
    ensures WithoutStore(0x0132, p) == StatsReply(0, 0, 64)
  {
  }

  /** In a smaller buffer a variable that does not fit becomes error 3, and anything else that does not fit is
      dropped. */
  lemma SentInSmallBuffer(length: nat, request: Header, reply: Reply)
    requires Sendable(reply) && (reply.StatsReply? ==> request.command == EV_STATS)
    ensures var sent, size := Sent(length, request, reply), 8 + |ReplyPayload(reply)|;
      && (length >= size ==> sent.Some? && DecodeReply(request.command, Payload(sent.value)) == Some(reply))
      && (12 <= length < size && reply.EvData? ==>
           sent.Some? && DecodeReply(request.command, Payload(sent.value)) == Some(Code(3)))
      && (length < size && (length < 12 || !reply.EvData?) ==> sent.None?)
  {
    hide ReplyPayload, DecodeReply, Sendable, PrintHeader, ParseHeader;
    RepliesFitPackets(reply);
    var p, short := ReplyPayload(reply), ReplyPayload(Code(NAME_TOO_LONG));
    HeaderRoundTrip(ResponseHeader(request, PACKET_HEADER + |p|), p);
    ReplyRoundTrip(request.command, reply);
    ErrorPayload();
    HeaderRoundTrip(ResponseHeader(request, PACKET_HEADER + |short|), short);
    ReplyRoundTrip(request.command, Code(NAME_TOO_LONG));
  }

  lemma ErrorPayload()
    ensures Sendable(Code(NAME_TOO_LONG)) && ReplyPayload(Code(NAME_TOO_LONG)) == Le(NAME_TOO_LONG, 4)
  {
  }

  lemma QueriesChangeNothing(w: W.World, command: nat, p: Data, io: W.Io)
    requires IsEvCommand(command)
    ensures command != SET_DELETE_EV ==> W.Execute(w, DecodeRequest(command, p), io).0 == w
  {
  }

  lemma ZerosAreLe()
    ensures Zeros(4) == Le(0, 4)
  {
  }
}
