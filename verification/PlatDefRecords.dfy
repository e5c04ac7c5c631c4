/** The record walk over a decompressed platform definition: the CPLD mux that each I2C segment sits behind. */
module PlatDefRecords {
  import opened Bytes

  const RECORD_HEADER_SIZE := 32
  const TABLE_DATA_SIZE := 112
  const SEGMENT_SIZE := 32
  /** Where an engine record's segments start: behind the record header and the 48 fixed bytes. */
  const SEGMENTS_OFFSET := 80
  const COUNT_OFFSET := 70

  const TYPE_I2C_ENGINE := 14
  const TYPE_END_OF_TABLE := 255
  const MUX_TYPE_CPLD := 1

  datatype Mapping = Mapping(cpldRegister: byte, channel: byte)
  type Segments = map<byte, Mapping>

  // ---------------------------------------------------------------- the walk

  /** A segment behind a CPLD mux is entered, over an earlier entry for the same ID. */
  function AddSegment(seg: Data, result: Segments): Segments
    requires |seg| == SEGMENT_SIZE
  {
    if seg[16] == MUX_TYPE_CPLD then result[seg[5] := Mapping(seg[17], seg[19])] else result
  }

  /** Segments `i` up to `count` of one engine record, as far as they fit into that record. */
  function AddSegments(record: Data, count: nat, i: nat, result: Segments): Segments
    decreases count - i
  {
    var at := SEGMENTS_OFFSET + i * SEGMENT_SIZE;
    if i >= count || at + SEGMENT_SIZE > |record| then result
    else AddSegments(record, count, i + 1, AddSegment(record[at..at + SEGMENT_SIZE], result))
  }

  /** The size of the record in front of `blob`, or nothing where the walk stops. */
  function Stride(blob: Data): (size: Option<nat>)
    ensures size.Some? ==> 0 < size.value <= |blob|
  {
    if |blob| < RECORD_HEADER_SIZE || blob[0] == TYPE_END_OF_TABLE || blob[1] == 0 then None
    else
      var units: nat := blob[1];
      if units * 16 > |blob| || (blob[0] == TYPE_I2C_ENGINE && |blob| < SEGMENTS_OFFSET) then None
      else Some(units * 16)
  }

  function Records(blob: Data, result: Segments): Segments
    decreases |blob|
  {
    match Stride(blob)
    case None => result
    case Some(size) =>
      Records(blob[size..],
              if blob[0] == TYPE_I2C_ENGINE then AddSegments(blob[..size], blob[COUNT_OFFSET], 0, result) else result)
  }

  /** The walk runs only if the first record has the size of the table data. */
  function Parse(blob: Data): Segments {
    if |blob| < RECORD_HEADER_SIZE then map[]
    else
      var units: nat := blob[1];
      if units * 16 != TABLE_DATA_SIZE then map[] else Records(blob, map[])
  }

  method ParseI2cSegments(platDef: Data) returns (result: Segments)
    ensures result == Parse(platDef)
  {
    hide AddSegment;
    result := map[];
    if |platDef| < RECORD_HEADER_SIZE { return; }
    var firstUnits: nat := platDef[1];
    if firstUnits * 16 != TABLE_DATA_SIZE { return; }
    var pos := 0;
    assert platDef[0..] == platDef;
    while pos + RECORD_HEADER_SIZE <= |platDef|
      invariant pos <= |platDef|
      invariant Records(platDef[pos..], result) == Parse(platDef)
    {
      ghost var rest := platDef[pos..];
      var kind, units: nat := platDef[pos], platDef[pos + 1];
      if kind == TYPE_END_OF_TABLE || units == 0 { break; }
      var recordBytes := units * 16;
      if pos + recordBytes > |platDef| { break; }
      if kind == TYPE_I2C_ENGINE {
        var fixedEnd := pos + SEGMENTS_OFFSET;
        if fixedEnd > |platDef| { break; }
        var count: nat := platDef[pos + COUNT_OFFSET];
        result := ParseEngine(platDef, pos, recordBytes, count, result);
      }
      assert platDef[pos + recordBytes..] == rest[recordBytes..];
      pos := pos + recordBytes;
    }
  }

  /** The inner loop: the bound by the blob never stops it before the bound by the record does. */
  method ParseEngine(platDef: Data, pos: nat, recordBytes: nat, count: nat, before: Segments) returns (result: Segments)
    requires pos + recordBytes <= |platDef|
    ensures result == AddSegments(platDef[pos..][..recordBytes], count, 0, before)
  {
    hide AddSegment;
    ghost var record := platDef[pos..][..recordBytes];
    var recordEnd, segStart := pos + recordBytes, pos + SEGMENTS_OFFSET;
    result := before;
    var i := 0;
    while i < count
      invariant AddSegments(record, count, i, result) == AddSegments(record, count, 0, before)
    {
      var segOff := segStart + i * SEGMENT_SIZE;
      if segOff + SEGMENT_SIZE > |platDef| || segOff + SEGMENT_SIZE > recordEnd { break; }
      var seg := platDef[segOff..segOff + SEGMENT_SIZE];
      assert seg == record[segOff - pos..segOff - pos + SEGMENT_SIZE];
      result := AddSegment(seg, result);
      i := i + 1;
    }
  }

  // ---------------------------------------------------------------- any blob

  /** The walk over `blob` comes to a record at `pos`. */
  predicate Reaches(blob: Data, pos: nat)
    decreases |blob|
  {
    pos == 0 || match Stride(blob)
                case None => false
                case Some(size) => size <= pos && Reaches(blob[size..], pos - size)
  }

  /** Segment `i` of the engine record at `pos` lies inside that record, is counted by it, and gives this entry. */
  predicate Gives(blob: Data, pos: nat, i: nat, id: byte, m: Mapping) {
    && pos <= |blob|
    && var rest := blob[pos..];
      && Stride(rest).Some? && rest[0] == 14 && i < rest[70]
      && SegmentGives(rest[..Stride(rest).value], i, id, m)
  }

  predicate SegmentGives(record: Data, i: nat, id: byte, m: Mapping) {
    var at := 80 + i * 32;
    && at + 32 <= |record|
    && record[at + 16] == 1 && record[at + 5] == id
    && m == Mapping(record[at + 17], record[at + 19])
  }

  lemma {:induction false} FromSegments(record: Data, count: nat, i: nat, result: Segments, id: byte)
    returns (at: Option<nat>)
    requires id in AddSegments(record, count, i, result)
    ensures at.None? ==> id in result && AddSegments(record, count, i, result)[id] == result[id]
    ensures at.Some? ==>
      at.value < count && SegmentGives(record, at.value, id, AddSegments(record, count, i, result)[id])
    decreases count - i
  {
    var off := 80 + i * 32;
    if i >= count || off + 32 > |record| {
      at := None;
    } else {
      var seg := record[off..off + 32];
      at := FromSegments(record, count, i + 1, AddSegment(seg, result), id);
      if at.None? && seg[16] == 1 && seg[5] == id {
        at := Some(i);
      }
    }
  }

  lemma {:induction false} FromRecords(blob: Data, result: Segments, id: byte) returns (at: Option<(nat, nat)>)
    requires id in Records(blob, result)
    ensures at.None? ==> id in result && Records(blob, result)[id] == result[id]
    ensures at.Some? ==>
      Reaches(blob, at.value.0) && Gives(blob, at.value.0, at.value.1, id, Records(blob, result)[id])
    decreases |blob|
  {
    hide AddSegments, SegmentGives;
    at := None;
    match Stride(blob) {
      case None =>
      case Some(size) =>
        var rest := blob[size..];
        var engine := blob[0] == 14;
        var after := if engine then AddSegments(blob[..size], blob[70], 0, result) else result;
        at := FromRecords(rest, after, id);
        if at.Some? {
          assert rest[at.value.0..] == blob[size + at.value.0..];
          at := Some((size + at.value.0, at.value.1));
        } else if engine {
          var i := FromSegments(blob[..size], blob[70], 0, result, id);
          if i.Some? {
            assert blob[0..] == blob;
            at := Some((0, i.value));
          }
        }
    }
  }

  /** Whatever the bytes, each entry comes from a segment wholly inside an engine record that the walk came to. */
  lemma EntriesComeFromSegments(blob: Data, id: byte)
    requires id in Parse(blob)
    ensures exists pos: nat, i: nat :: Reaches(blob, pos) && Gives(blob, pos, i, id, Parse(blob)[id])
  {
    hide Records, Reaches, Gives;
    var at := FromRecords(blob, map[], id);
    assert Reaches(blob, at.value.0) && Gives(blob, at.value.0, at.value.1, id, Parse(blob)[id]);
  }

  // ---------------------------------------------------------------- a serialized record list

  /** A segment: flags and speed, its ID, the bytes up to its mux, and the mux. */
  datatype Segment = Segment(front: Data, id: byte, middle: Data, mux: Mux)
  datatype Mux =
    | Cpld(cpldRegister: byte, initMask: byte, selectMask: byte, padding: Data)
    | OtherMux(muxType: byte, padding: Data)

  datatype Record =
    | Engine(head: Data, fixed: Data, reserved: Data, segments: seq<Segment>, filling: Data)
    | OtherRecord(kind: byte, body: Data)
  {
    function Size(): nat {
      match this
      case Engine(_, _, _, segments, filling) => 80 + 32 * |segments| + |filling|
      case OtherRecord(_, body) => 2 + |body|
    }
  }

  predicate WellFormedSegment(s: Segment) {
    && |s.front| == 5 && |s.middle| == 10
    && match s.mux
      case Cpld(_, _, _, padding) => |padding| == 12
      case OtherMux(muxType, padding) => muxType != 1 && |padding| == 15
  }

  predicate WellFormed(r: Record) {
    && r.Size() % 16 == 0 && 32 <= r.Size() <= 255 * 16
    && match r
      case Engine(head, fixed, reserved, segments, _) =>
        && |head| == 30 && |fixed| == 38 && |reserved| == 9
        && forall i :: 0 <= i < |segments| ==> WellFormedSegment(segments[i])
      case OtherRecord(kind, _) => kind != 14 && kind != 255
  }

  function PrintMux(m: Mux): Data {
    match m
    case Cpld(cpldRegister, initMask, selectMask, padding) =>
      [1, cpldRegister, initMask, selectMask] + padding
    case OtherMux(muxType, padding) => [muxType] + padding
  }

  function PrintSegment(s: Segment): (b: Data)
    requires WellFormedSegment(s)
    ensures |b| == 32
  {
    s.front + ([s.id] + (s.middle + PrintMux(s.mux)))
  }

  function PrintSegments(segments: seq<Segment>): (b: Data)
    requires forall i :: 0 <= i < |segments| ==> WellFormedSegment(segments[i])
    ensures |b| == 32 * |segments|
  {
    if segments == [] then [] else PrintSegment(segments[0]) + PrintSegments(segments[1..])
  }

  function PrintRecord(r: Record): (b: Data)
    requires WellFormed(r)
    ensures |b| == r.Size() && b[1] == r.Size() / 16
  {
    match r
    case Engine(head, fixed, reserved, segments, filling) =>
      [14, r.Size() / 16] + head + fixed + [|segments|] + reserved + PrintSegments(segments) + filling
    case OtherRecord(kind, body) => [kind, r.Size() / 16] + body
  }

  predicate AllWellFormed(rs: seq<Record>) {
    forall i :: 0 <= i < |rs| ==> WellFormed(rs[i])
  }

  function PrintRecords(rs: seq<Record>): Data
    requires AllWellFormed(rs)
  {
    if rs == [] then [] else PrintRecord(rs[0]) + PrintRecords(rs[1..])
  }

  /** What may follow the records: an end marker or a record of size zero with anything behind it, or a remnant too
      short for a record header, for the record, or for the fixed part of an engine record. */
  predicate Ends(tail: Data) {
    |tail| < 32 || tail[0] == 255 || tail[1] == 0 || CutOff(tail[1], |tail|) || (tail[0] == 14 && |tail| < 80)
  }

  predicate CutOff(units: nat, left: nat) {
    units * 16 > left
  }

  // ---------------------------------------------------------------- last one wins

  function AllSegments(rs: seq<Record>): seq<Segment> {
    if rs == [] then []
    else (if rs[0].Engine? then rs[0].segments else []) + AllSegments(rs[1..])
  }

  /** The CPLD mux of the last segment with this ID that has one. */
  function LastFor(segments: seq<Segment>, id: byte): Option<Mapping> {
    if segments == [] then None
    else
      var last := segments[|segments| - 1];
      if last.mux.Cpld? && last.id == id then Some(Mapping(last.mux.cpldRegister, last.mux.selectMask))
      else LastFor(segments[..|segments| - 1], id)
  }

  function Lookup(m: Segments, id: byte): Option<Mapping> {
    if id in m then Some(m[id]) else None
  }

  /** Entering a list of segments one after the other. */
  function Enter(segments: seq<Segment>, result: Segments): Segments {
    if segments == [] then result
    else
      var s := segments[0];
      Enter(segments[1..],
            if s.mux.Cpld? then result[s.id := Mapping(s.mux.cpldRegister, s.mux.selectMask)] else result)
  }

  lemma {:induction false} EnterAppend(a: seq<Segment>, b: seq<Segment>, result: Segments)
    ensures Enter(a + b, result) == Enter(b, Enter(a, result))
    decreases |a|
  {
    if a == [] {
      assert a + b == b;
    } else {
      var s := a[0];
      assert (a + b)[1..] == a[1..] + b;
      EnterAppend(a[1..], b,
                  if s.mux.Cpld? then result[s.id := Mapping(s.mux.cpldRegister, s.mux.selectMask)] else result);
    }
  }

  lemma {:induction false} EnterIsLastWins(segments: seq<Segment>, id: byte)
    ensures Lookup(Enter(segments, map[]), id) == LastFor(segments, id)
  {
    if segments != [] {
      var front, last := segments[..|segments| - 1], segments[|segments| - 1];
      assert segments == front + [last];
      EnterAppend(front, [last], map[]);
      EnterIsLastWins(front, id);
    }
  }

  // ---------------------------------------------------------------- parsing what was serialized

  lemma SegmentReadsBack(s: Segment, result: Segments)
    requires WellFormedSegment(s)
    ensures AddSegment(PrintSegment(s), result) == Enter([s], result)
  {
    var b := PrintSegment(s);
    assert b[5] == s.id && b[16] == PrintMux(s.mux)[0];
    if s.mux.Cpld? {
      assert b[17] == PrintMux(s.mux)[1] && b[19] == PrintMux(s.mux)[3];
    }
  }

  lemma {:induction false} SegmentAt(segments: seq<Segment>, i: nat)
    requires (forall j :: 0 <= j < |segments| ==> WellFormedSegment(segments[j])) && i < |segments|
    ensures PrintSegments(segments)[i * 32..i * 32 + 32] == PrintSegment(segments[i])
  {
    hide PrintSegment, WellFormedSegment;
    var all := PrintSegments(segments);
    if i > 0 {
      SegmentAt(segments[1..], i - 1);
      assert all[i * 32..i * 32 + 32] ==
             PrintSegments(segments[1..])[(i - 1) * 32..(i - 1) * 32 + 32];
    }
  }

  /** The segments of a record are read one after the other, and nothing of the filling behind them. */
  lemma {:induction false} SegmentsReadBack(record: Data, segments: seq<Segment>, i: nat, result: Segments)
    requires forall j :: 0 <= j < |segments| ==> WellFormedSegment(segments[j])
    requires i <= |segments| && 80 + 32 * |segments| <= |record|
    requires record[80..80 + 32 * |segments|] == PrintSegments(segments)
    ensures AddSegments(record, |segments|, i, result) == Enter(segments[i..], result)
    decreases |segments| - i
  {
    hide PrintSegment, PrintSegments, WellFormedSegment, AddSegment;
    if i < |segments| {
      var at := 80 + i * 32;
      SliceOfSlice(record, 80, 32 * |segments|, i * 32, 32);
      SegmentAt(segments, i);
      SegmentReadsBack(segments[i], result);
      SegmentsReadBack(record, segments, i + 1, AddSegment(record[at..at + 32], result));
      EnterAppend([segments[i]], segments[i + 1..], result);
      assert segments[i..] == [segments[i]] + segments[i + 1..];
    }
  }

  lemma PrintedEngine(r: Record)
    requires WellFormed(r) && r.Engine?
    ensures var b := PrintRecord(r);
      && b[0] == 14 && b[70] == |r.segments|
      && b[80..80 + 32 * |r.segments|] == PrintSegments(r.segments)
  {
    hide PrintSegments, WellFormedSegment;
  }

  /** The walk takes one printed record at a time. */
  lemma RecordStep(r: Record, rest: Data, result: Segments)
    requires WellFormed(r)
    ensures Records(PrintRecord(r) + rest, result) ==
      Records(rest, Enter(if r.Engine? then r.segments else [], result))
  {
    hide PrintSegments, WellFormedSegment, AddSegments, Enter;
    var b := PrintRecord(r);
    assert (b + rest)[..|b|] == b && (b + rest)[|b|..] == rest;
    if r.Engine? {
      PrintedEngine(r);
      SegmentsReadBack(b, r.segments, 0, result);
      assert r.segments[0..] == r.segments;
    } else {
      EnterNone(result);
    }
  }

  lemma EnterNone(result: Segments)
    ensures Enter([], result) == result
  {
  }

  lemma {:induction false} RecordsReadBack(rs: seq<Record>, tail: Data, result: Segments)
    requires AllWellFormed(rs) && Ends(tail)
    ensures Records(PrintRecords(rs) + tail, result) == Enter(AllSegments(rs), result)
    decreases |rs|
  {
    hide WellFormed, PrintRecord;
    if rs == [] {
      assert PrintRecords(rs) + tail == tail;
    } else {
      hide Records, Enter, Ends;
      var own := if rs[0].Engine? then rs[0].segments else [];
      assert PrintRecords(rs) + tail == PrintRecord(rs[0]) + (PrintRecords(rs[1..]) + tail);
      RecordStep(rs[0], PrintRecords(rs[1..]) + tail, result);
      RecordsReadBack(rs[1..], tail, Enter(own, result));
      EnterAppend(own, AllSegments(rs[1..]), result);
    }
  }

  /** Parsing a serialized record list gives, for each segment ID, the CPLD mux of the last segment that has one, over
      all engine records before the end marker; and nothing if the first record has not the size of the table data. */
  lemma ParsesToLastWins(rs: seq<Record>, tail: Data, id: byte)
    requires AllWellFormed(rs) && Ends(tail)
    ensures Lookup(Parse(PrintRecords(rs) + tail), id) ==
      if rs != [] && rs[0].Size() == 112 then LastFor(AllSegments(rs), id) else None
  {
    hide WellFormed, PrintRecord, LastFor, AllSegments, Enter;
    var blob := PrintRecords(rs) + tail;
    if rs == [] {
      assert blob == tail;
    } else {
      assert blob == PrintRecord(rs[0]) + (PrintRecords(rs[1..]) + tail);
      assert blob[1] == PrintRecord(rs[0])[1];
      hide PrintRecords, Records;
      RecordSizes(rs[0]);
      RecordsReadBack(rs, tail, map[]);
      EnterIsLastWins(AllSegments(rs), id);
    }
  }

  lemma RecordSizes(r: Record)
    requires WellFormed(r)
    ensures r.Size() >= 32 && r.Size() / 16 * 16 == r.Size()
  {
  }
}
