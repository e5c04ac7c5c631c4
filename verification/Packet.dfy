/** The CHIF packet header, shared by the EV and the ROM service. */
module Packet {
  import opened Bytes

  const PACKET_HEADER := 8
  const MAX_PACKET_SIZE := 4096
  const RESPONSE_BIT := 0x8000

  datatype Header = Header(pktSize: u16, sequence: u16, command: u16, serviceId: byte, version: byte)

  function ParseHeader(packet: Data): (h: Header)
    requires |packet| >= PACKET_HEADER
  {
    U16(packet[0..2]);
    U16(packet[2..4]);
    U16(packet[4..6]);
    Header(FromLe(packet[0..2]), FromLe(packet[2..4]), FromLe(packet[4..6]), packet[6], packet[7])
  }

  function PrintHeader(h: Header): (b: Data)
    ensures |b| == PACKET_HEADER
  {
    Le(h.pktSize, 2) + Le(h.sequence, 2) + Le(h.command, 2) + [h.serviceId, h.version]
  }

  function Payload(packet: Data): Data {
    if |packet| <= PACKET_HEADER then [] else packet[PACKET_HEADER..]
  }

  /** `command | 0x8000`. */
  function WithResponseBit(command: u16): (c: u16)
    ensures c >= RESPONSE_BIT && c % RESPONSE_BIT == command % RESPONSE_BIT
  {
    if command < RESPONSE_BIT then command + RESPONSE_BIT else command
  }

  /** SMIF responses set the response bit. */
  function ResponseHeader(request: Header, size: u16): Header {
    request.(pktSize := size, command := WithResponseBit(request.command))
  }

  /** ROM responses echo the command unchanged. */
  function RomResponseHeader(request: Header, size: u16): Header {
    request.(pktSize := size)
  }

  lemma HeaderRoundTrip(h: Header, rest: Data)
    ensures ParseHeader(PrintHeader(h) + rest) == h && Payload(PrintHeader(h) + rest) == rest
  {
    hide Le, FromLe;
    Widths();
    var b := PrintHeader(h) + rest;
    assert b[0..2] == Le(h.pktSize, 2) && b[2..4] == Le(h.sequence, 2) && b[4..6] == Le(h.command, 2);
    LeInverse(h.pktSize, 2);
    LeInverse(h.sequence, 2);
    LeInverse(h.command, 2);
  }

  /** Where the fields lie, each with its low byte first. */
  lemma HeaderBytes(h: Header)
    ensures PrintHeader(h)
         == [h.pktSize % 256, h.pktSize / 256, h.sequence % 256, h.sequence / 256, h.command % 256, h.command / 256,
             h.serviceId, h.version]
  {
    TwoBytes(h.pktSize);
    TwoBytes(h.sequence);
    TwoBytes(h.command);
    hide Le;
  }

  /** A buffer with `b` copied in at `at`. */
  function Spliced(s: Data, at: nat, b: Data): (r: Data)
    requires at + |b| <= |s|
    ensures |r| == |s|
  {
    s[..at] + b + s[at + |b|..]
  }

  /** Copies `b` into the array at `at`. */
  method CopyInto(target: array<byte>, at: nat, b: Data)
    requires at + |b| <= target.Length
    modifies target
    ensures target[..] == Spliced(old(target[..]), at, b)
  {
    for i := 0 to |b|
      invariant forall k :: 0 <= k < target.Length ==>
        target[k] == if at <= k < at + i then b[k - at] else old(target[..])[k]
    {
      target[at + i] := b[i];
    }
    IsSpliced(old(target[..]), at, b, target[..]);
  }

  lemma IsSpliced(s: Data, at: nat, b: Data, r: Data)
    requires at + |b| <= |s| == |r|
    requires forall k :: 0 <= k < |s| ==> r[k] == if at <= k < at + |b| then b[k - at] else s[k]
    ensures r == Spliced(s, at, b)
  {
  }

  method InitResponse(response: array<byte>, request: Header, size: u16)
    requires response.Length >= PACKET_HEADER
    modifies response
    ensures response[..] == Spliced(old(response[..]), 0, PrintHeader(ResponseHeader(request, size)))
  {
    CopyInto(response, 0, PrintHeader(ResponseHeader(request, size)));
  }

  method InitRomResponse(response: array<byte>, request: Header, size: u16)
    requires response.Length >= PACKET_HEADER
    modifies response
    ensures response[..] == Spliced(old(response[..]), 0, PrintHeader(RomResponseHeader(request, size)))
  {
    CopyInto(response, 0, PrintHeader(RomResponseHeader(request, size)));
  }

  /** A whole SMIF response. */
  function Response(request: Header, payload: Data): (packet: Data)
    requires |payload| <= 4088
    ensures |packet| == PACKET_HEADER + |payload|
  {
    PrintHeader(ResponseHeader(request, PACKET_HEADER + |payload|)) + payload
  }

  /** One packed payload behind a response header; -1 when the buffer cannot hold it. */
  method EmitResponse(request: Header, response: array<byte>, payload: Data) returns (n: int)
    requires |payload| <= 4088
    modifies response
    ensures n == if response.Length < PACKET_HEADER + |payload| then -1 else PACKET_HEADER + |payload|
    ensures n < 0 ==> response[..] == old(response[..])
    ensures n >= 0 ==> response[..] == Response(request, payload) + old(response[PACKET_HEADER + |payload|..])
  {
    n := PACKET_HEADER + |payload|;
    if response.Length < n {
      n := -1;
      return;
    }
    InitResponse(response, request, n);
    CopyInto(response, PACKET_HEADER, payload);
  }
}
