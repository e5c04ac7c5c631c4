/** What the reception of SMBIOS records does: unwrapping blobs under the limits, the file that is stored at the end,
    and one step of the protocol. */
module SmbiosProtocol {
  import opened Bytes
  import P = Packet

  const MAX_SMBIOS_DATA_SIZE := 1024 * 1024
  const MAX_RECORDS_PER_BLOB := 1000

  // ---------------------------------------------------------------- unwrapping a blob

  /** Takes up to `left` records, each behind its two-byte size, until one is empty, cut off or beyond the limit. */
  function AddFrom(records: Data, blob: Data, left: nat): (r: Data)
    requires |records| <= MAX_SMBIOS_DATA_SIZE
    ensures |r| <= MAX_SMBIOS_DATA_SIZE
    decreases left
  {
    if left == 0 || |blob| < 2 then records
    else
      var size := FromLe(blob[..2]);
      if size == 0 || 2 + size > |blob| || |records| + size > MAX_SMBIOS_DATA_SIZE then records
      else AddFrom(records + blob[2..2 + size], blob[2 + size..], left - 1)
  }

  function Capped(count: nat): nat {
    if count > MAX_RECORDS_PER_BLOB then MAX_RECORDS_PER_BLOB else count
  }

  function AddRecord(records: Data, payload: Data): (r: Data)
    requires |records| <= MAX_SMBIOS_DATA_SIZE
    ensures |r| <= MAX_SMBIOS_DATA_SIZE
  {
    if |payload| < 6 then records else AddFrom(records, payload[4..], Capped(FromLe(payload[..4])))
  }

  // ---------------------------------------------------------------- the stored file

  const ANCHOR := Ascii("_SM3_")
  const CHECKSUM_OFFSET := 5
  const ENTRY_POINT_SIZE := 24
  const MDR_TYPE: byte := 2

  /** The SMBIOS 3.0 entry point, with its checksum byte left out as zero. */
  function EntryPoint(tableSize: nat): (ep: Data)
    ensures |ep| == ENTRY_POINT_SIZE && ep[CHECKSUM_OFFSET] == 0
  {
    ANCHOR + [0, ENTRY_POINT_SIZE, 3, 3, 0, 1, 0] + Le(tableSize, 4) + Le(0, 8)
  }

  function SealedEntryPoint(tableSize: nat): (ep: Data)
    ensures |ep| == ENTRY_POINT_SIZE
  {
    EntryPoint(tableSize)[CHECKSUM_OFFSET := Balancing(Sum(EntryPoint(tableSize)))]
  }

  /** The header with directory version, timestamp and data size, the entry point, and the records. */
  function File(records: Data, version: byte, epoch: nat): Data {
    [version, MDR_TYPE] + Le(epoch, 4) + Le(ENTRY_POINT_SIZE + |records|, 4) + SealedEntryPoint(|records|) + records
  }

  // ---------------------------------------------------------------- the protocol

  datatype State = State(records: Data, directoryVersion: byte, file: Option<Data>, syncs: nat)

  /** What the outside does while a file is stored: whether its directory is there, whether writing and renaming it
      succeed, and the clock. */
  datatype Io = Io(directory: bool, stored: bool, epoch: nat)

  /** Directory version and file after an end. */
  function Stored(records: Data, version: byte, file: Option<Data>, io: Io): (byte, Option<Data>) {
    if records == [] || !io.directory then (version, file)
    else
      var next := (version + 1) % 256;
      (next, if io.stored then Some(File(records, next, io.epoch)) else file)
  }

  /** The bridge is notified of every stored file. */
  function Finalized(s: State, io: Io): State {
    var (version, file) := Stored(s.records, s.directoryVersion, s.file, io);
    State(s.records, version, file, if Stores(s, io) then s.syncs + 1 else s.syncs)
  }

  predicate Stores(s: State, io: Io) {
    s.records != [] && io.directory && io.stored
  }

  const BEGIN := 0x0003
  const RECORD := 0x0004
  const END := 0x0005
  const POWER_DATA := 0x0006
  const THERMAL := 0x0007
  const BLOB := 0x000C

  predicate Known(command: nat) {
    command in {BEGIN, RECORD, END, POWER_DATA, THERMAL, BLOB}
  }

  /** One packet to the ROM service. */
  function Step(s: State, packet: Data, io: Io): (r: State)
    requires |s.records| <= MAX_SMBIOS_DATA_SIZE
    ensures |r.records| <= MAX_SMBIOS_DATA_SIZE
  {
    if |packet| < P.PACKET_HEADER then s
    else
      var command := P.ParseHeader(packet).command;
      if command == BEGIN then s.(records := [])
      else if command == RECORD || command == BLOB then s.(records := AddRecord(s.records, P.Payload(packet)))
      else if command == END then Finalized(s, io)
      else s
  }

  /** The answer: the header alone with its command unchanged, to every known command if it fits the buffer. */
  function Answer(packet: Data, space: nat): (reply: Option<Data>)
    ensures reply.Some? ==> |reply.value| == P.PACKET_HEADER <= space
  {
    if |packet| < P.PACKET_HEADER || !Known(P.ParseHeader(packet).command) || space < P.PACKET_HEADER then None
    else Some(P.PrintHeader(P.RomResponseHeader(P.ParseHeader(packet), P.PACKET_HEADER)))
  }
}
