/** The SMBIOS writer and the ROM service in front of it, proved to follow the protocol. */
module SmbiosService {
  import opened Bytes
  import opened SmbiosProtocol
  import P = Packet

  class MdrBridge {
    var syncs: nat

    constructor ()
      ensures syncs == 0
    {
      syncs := 0;
    }

    method Synchronize()
      modifies this
      ensures syncs == old(syncs) + 1
    {
      syncs := syncs + 1;
    }
  }

  class SmbiosWriter {
    var records: Data
    var directoryVersion: byte
    /** The file the records are stored to, once there is one. */
    var file: Option<Data>

    constructor (file: Option<Data>)
      ensures records == [] && directoryVersion == 0 && this.file == file
    {
      records, directoryVersion := [], 0;
      this.file := file;
    }

    predicate Valid()
      reads this
    {
      |records| <= MAX_SMBIOS_DATA_SIZE
    }

    method Begin()
      modifies this`records
      ensures records == []
    {
      records := [];
    }

    method AddRecord(record: Data)
      requires Valid()
      modifies this`records
      ensures records == SmbiosProtocol.AddRecord(old(records), record)
    {
      hide FromLe, AddFrom;
      if |record| < 6 { return; }
      var count := FromLe(record[..4]);
      if count > MAX_RECORDS_PER_BLOB {
        count := MAX_RECORDS_PER_BLOB;
      }
      ghost var all := SmbiosProtocol.AddRecord(records, record);
      var offset: nat := 4;
      var i := 0;
      while i < count && offset + 2 <= |record|
        invariant 4 <= offset <= |record| && i <= count && |records| <= MAX_SMBIOS_DATA_SIZE
        invariant AddFrom(records, record[offset..], count - i) == all
      {
        AddAt(records, record, offset, count - i);
        var recSize: nat := FromLe(record[offset..offset + 2]);
        offset := offset + 2;
        if recSize == 0 || offset + recSize > |record| { break; }
        if |records| + recSize > MAX_SMBIOS_DATA_SIZE { break; }
        records := records + record[offset..offset + recSize];
        offset := offset + recSize;
        i := i + 1;
      }
      if !(i < count && offset + 2 <= |record|) {
        AddEnds(records, record[offset..], count - i);
      }
    }

    /** The checksum field itself does not enter the sum. */
    static method ComputeChecksum(ep: Data) returns (checksum: byte)
      requires |ep| == ENTRY_POINT_SIZE
      ensures Sum(ep[CHECKSUM_OFFSET := checksum]) % 256 == 0
    {
      hide Sum, Balancing;
      var sum: byte := 0;
      ghost var cleared := ep[CHECKSUM_OFFSET := 0];
      SumNone();
      for i := 0 to |ep|
        invariant sum == Sum(cleared[..i]) % 256
      {
        SumSnoc(cleared, i);
        ModSum(Sum(cleared[..i]), cleared[i]);
        if i == CHECKSUM_OFFSET { continue; }
        sum := (sum + ep[i]) % 256;
      }
      checksum := (256 - sum) % 256;
      assert cleared[..|ep|] == cleared;
      BalancingByte(Sum(cleared));
      SumUpdate(cleared, CHECKSUM_OFFSET, checksum);
      assert cleared[CHECKSUM_OFFSET := checksum] == ep[CHECKSUM_OFFSET := checksum];
    }

    method Finalize(io: Io) returns (ok: bool)
      requires Valid()
      modifies this`directoryVersion, this`file
      ensures ok <==> old(records) != [] && io.directory && io.stored
      ensures (directoryVersion, file) == Stored(records, old(directoryVersion), old(file), io)
    {
      hide Sum, Le, Balancing, Ascii;
      if records == [] || !io.directory { return false; }
      var ep := ANCHOR + [0, ENTRY_POINT_SIZE, 3, 3, 0, 1, 0] + Le(|records|, 4) + Le(0, 8);
      var checksum := ComputeChecksum(ep);
      assert ep == EntryPoint(|records|);
      OneChecksum(ep, checksum);
      ep := ep[CHECKSUM_OFFSET := checksum];
      directoryVersion := (directoryVersion + 1) % 256;
      var mdr := [directoryVersion, MDR_TYPE] + Le(io.epoch, 4) + Le(ENTRY_POINT_SIZE + |records|, 4);
      if !io.stored { return false; }
      file := Some(mdr + ep + records);
      return true;
    }
  }

  /** One record of the packet: empty, cut off or beyond the limit it ends the packet, otherwise it is appended. */
  lemma AddAt(records: Data, record: Data, at: nat, left: nat)
    requires |records| <= MAX_SMBIOS_DATA_SIZE && at + 2 <= |record| && left > 0
    ensures var size := FromLe(record[at..at + 2]);
      AddFrom(records, record[at..], left)
      == if size == 0 || at + 2 + size > |record| || |records| + size > MAX_SMBIOS_DATA_SIZE then records
         else AddFrom(records + record[at + 2..at + 2 + size], record[at + 2 + size..], left - 1)
  {
    hide FromLe;
    var size, blob := FromLe(record[at..at + 2]), record[at..];
    SliceOfDrop(record, at, 0, 2);
    assert blob[0..2] == blob[..2];
    if at + 2 + size <= |record| {
      SliceOfDrop(record, at, 2, 2 + size);
    }
  }

  lemma AddEnds(records: Data, blob: Data, left: nat)
    requires |records| <= MAX_SMBIOS_DATA_SIZE && (left == 0 || |blob| < 2)
    ensures AddFrom(records, blob, left) == records
  {
  }

  lemma SumUpdate(b: Data, i: nat, c: byte)
    requires i < |b|
    ensures Sum(b[i := c]) == Sum(b) - b[i] + c
  {
    hide Sum;
    var front, back := b[..i], b[i + 1..];
    assert b == front + ([b[i]] + back) && b[i := c] == front + ([c] + back);
    SumAppend(front, [b[i]] + back);
    SumAppend([b[i]], back);
    SumAppend(front, [c] + back);
    SumAppend([c], back);
    SumOne(b[i]);
    SumOne(c);
  }

  /** There is only one byte that balances the sum. */
  lemma OneChecksum(ep: Data, c: byte)
    requires |ep| == ENTRY_POINT_SIZE && ep[CHECKSUM_OFFSET] == 0 && Sum(ep[CHECKSUM_OFFSET := c]) % 256 == 0
    ensures c == Balancing(Sum(ep))
  {
    hide Sum;
    SumUpdate(ep, CHECKSUM_OFFSET, c);
  }

  class RomService {
    const writer: SmbiosWriter
    const mdrBridge: MdrBridge?

    constructor (writer: SmbiosWriter, mdrBridge: MdrBridge?)
      ensures this.writer == writer && this.mdrBridge == mdrBridge
    {
      this.writer, this.mdrBridge := writer, mdrBridge;
    }

    function Current(): State
      reads writer, mdrBridge
    {
      State(writer.records, writer.directoryVersion, writer.file, if mdrBridge == null then 0 else mdrBridge.syncs)
    }

    /** What a step leaves, where without a bridge nobody is told of the file. */
    function Stepped(before: State, packet: Data, io: Io): State
      requires |before.records| <= MAX_SMBIOS_DATA_SIZE
    {
      if mdrBridge == null then Step(before, packet, io).(syncs := 0) else Step(before, packet, io)
    }

    method Handle(request: Data, response: array<byte>, io: Io) returns (n: int)
      requires writer.Valid()
      modifies response, writer, mdrBridge
      ensures writer.Valid() && Current() == Stepped(old(Current()), request, io)
      ensures match Answer(request, response.Length)
        case None => n == -1 && response[..] == old(response[..])
        case Some(reply) => n == |reply| && response[..] == P.Spliced(old(response[..]), 0, reply)
    {
      if |request| < P.PACKET_HEADER { return -1; }
      var hdr := P.ParseHeader(request);
      match hdr.command {
        case 0x0003 =>
          writer.Begin();
          n := BuildHeaderOnlyResponse(hdr, response);
        case 0x0004 =>
          n := HandlePayload(hdr, request, response);
        case 0x0005 =>
          n := HandleEnd(hdr, response, io);
        case 0x0006 =>
          n := BuildHeaderOnlyResponse(hdr, response);
        case 0x0007 =>
          n := BuildHeaderOnlyResponse(hdr, response);
        case 0x000C =>
          n := HandlePayload(hdr, request, response);
        case _ =>
          n := -1;
      }
    }

    /** A record and a blob are handled alike: both are unwrapped. */
    method HandlePayload(hdr: P.Header, request: Data, response: array<byte>) returns (n: int)
      requires writer.Valid()
      modifies response, writer`records
      ensures writer.records == AddRecord(old(writer.records), P.Payload(request))
      ensures HeaderOnly(hdr, old(response[..]), response[..], n)
    {
      var data := P.Payload(request);
      if data != [] {
        writer.AddRecord(data);
      }
      n := BuildHeaderOnlyResponse(hdr, response);
    }

    method HandleEnd(hdr: P.Header, response: array<byte>, io: Io) returns (n: int)
      requires writer.Valid()
      modifies response, writer`directoryVersion, writer`file, mdrBridge
      ensures mdrBridge != null ==> Current() == Finalized(old(Current()), io)
      ensures mdrBridge == null ==> Current() == Finalized(old(Current()), io).(syncs := 0)
      ensures HeaderOnly(hdr, old(response[..]), response[..], n)
    {
      hide Stored;
      var ok := writer.Finalize(io);
      n := BuildHeaderOnlyResponse(hdr, response);
      if ok && mdrBridge != null {
        mdrBridge.Synchronize();
      }
    }

    static predicate HeaderOnly(hdr: P.Header, before: Data, after: Data, n: int) {
      if |before| < P.PACKET_HEADER then n == -1 && after == before
      else
        n == P.PACKET_HEADER &&
        after == P.Spliced(before, 0, P.PrintHeader(P.RomResponseHeader(hdr, P.PACKET_HEADER)))
    }

    method BuildHeaderOnlyResponse(hdr: P.Header, response: array<byte>) returns (n: int)
      modifies response
      ensures HeaderOnly(hdr, old(response[..]), response[..], n)
    {
      if response.Length < P.PACKET_HEADER { return -1; }
      P.InitRomResponse(response, hdr, P.PACKET_HEADER);
      n := P.PACKET_HEADER;
    }
  }
}
