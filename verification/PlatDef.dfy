/** The walkers over the platform definition blob: the bundle for the running platform, and the CPLD segments of
    its I2C engine records. */
module PlatDef {
  import opened Bytes

  // ---------------------------------------------------------------- bundles

  const SIGNATURE := Ascii("$PlatdefBundle1$")
  const BUNDLE_HEADER_SIZE := 24

  predicate IsBundle(blob: Data) {
    |blob| >= BUNDLE_HEADER_SIZE && blob[..16] == SIGNATURE
  }

  /** The platform IDs listed behind a bundle header. */
  function Ids(blob: Data, count: nat): (ids: seq<nat>)
    requires BUNDLE_HEADER_SIZE + 2 * count <= |blob|
    ensures |ids| == count
  {
    seq(count, i requires 0 <= i < count => FromLe(blob[BUNDLE_HEADER_SIZE + 2 * i..BUNDLE_HEADER_SIZE + 2 * i + 2]))
  }

  datatype Header = Header(totalSize: nat, headerBytes: nat, count: nat)

  function ReadHeader(blob: Data): Header
    requires |blob| >= BUNDLE_HEADER_SIZE
  {
    var units: nat, count: nat := blob[22], blob[23];
    Header(FromLe(blob[16..20]), units * 16, count)
  }

  /** The sizes in a bundle header agree with each other and with what is left of the blob. */
  predicate Consistent(h: Header, left: nat) {
    h.headerBytes >= BUNDLE_HEADER_SIZE + 2 * h.count && h.totalSize > h.headerBytes && h.totalSize <= left
  }

  /** Whether the bundle in front of `blob` is the one; `first` is whether it is the first of the whole blob. */
  predicate Selects(blob: Data, h: Header, first: bool, platformId: Option<nat>)
    requires |blob| >= BUNDLE_HEADER_SIZE && Consistent(h, |blob|)
  {
    match platformId
    case Some(id) => id in Ids(blob, h.count)
    case None => first && !IsBundle(blob[h.totalSize..])
  }

  /** The walk over the bundles from `blob` on. */
  function Select(blob: Data, first: bool, platformId: Option<nat>): Data
    decreases |blob|
  {
    if !IsBundle(blob) then []
    else
      var h := ReadHeader(blob);
      if !Consistent(h, |blob|) then []
      else if Selects(blob, h, first, platformId) then blob[h.headerBytes..h.totalSize]
      else Select(blob[h.totalSize..], false, platformId)
  }

  function SelectFrom(raw: Data, platformId: Option<nat>): Data {
    if !IsBundle(raw) then raw else Select(raw, true, platformId)
  }

  method SelectPlatDefBundle(raw: Data, platformId: Option<nat>) returns (table: Data)
    ensures table == SelectFrom(raw, platformId)
  {
    hide FromLe, Ids, Ascii, Select;
    if !IsBundle(raw) { return raw; }
    var offset := 0;
    assert raw[0..] == raw;
    while IsBundle(raw[offset..])
      invariant offset <= |raw|
      invariant Select(raw[offset..], offset == 0, platformId) == Select(raw, true, platformId)
      decreases |raw| - offset
    {
      var blob := raw[offset..];
      var units: nat, count: nat := blob[22], blob[23];
      var headerBytes := units * 16;
      var totalSize := FromLe(blob[16..20]);
      var bundleSize := BUNDLE_HEADER_SIZE + count * 2;
      assert ReadHeader(blob) == Header(totalSize, headerBytes, count);
      SelectCases(blob, offset == 0, platformId);
      if headerBytes < bundleSize || totalSize <= headerBytes || offset + totalSize > |raw| {
        return [];
      }
      SliceOfDrop(raw, offset, headerBytes, totalSize);
      var match_ := if platformId.Some? then platformId.value in Ids(blob, count)
                    else offset == 0 && !IsBundle(raw[offset + totalSize..]);
      if match_ {
        return raw[offset + headerBytes..offset + totalSize];
      }
      offset := offset + totalSize;
    }
    SelectEnds(raw[offset..], offset == 0, platformId);
    return [];
  }

  lemma SelectCases(blob: Data, first: bool, platformId: Option<nat>)
    requires IsBundle(blob)
    ensures var h := ReadHeader(blob);
      && (!Consistent(h, |blob|) ==> Select(blob, first, platformId) == [])
      && (Consistent(h, |blob|) ==>
        Select(blob, first, platformId) ==
          if Selects(blob, h, first, platformId) then blob[h.headerBytes..h.totalSize]
          else Select(blob[h.totalSize..], false, platformId))
  {
    hide FromLe, Ids, Ascii, ReadHeader, Selects, Consistent;
  }

  lemma SelectEnds(blob: Data, first: bool, platformId: Option<nat>)
    requires !IsBundle(blob)
    ensures Select(blob, first, platformId) == []
  {
    hide IsBundle;
  }

  // ---------------------------------------------------------------- any blob, and a chain of bundles

  /** Whatever the bytes, what is selected lies inside the blob. */
  lemma {:induction false} SelectedIsInside(blob: Data, first: bool, platformId: Option<nat>) returns (lo: nat, hi: nat)
    ensures lo <= hi <= |blob| && Select(blob, first, platformId) == blob[lo..hi]
    decreases |blob|
  {
    hide FromLe, Selects, Ascii, Ids, ReadHeader;
    lo, hi := 0, 0;
    if IsBundle(blob) {
      var h := ReadHeader(blob);
      if Consistent(h, |blob|) {
        if Selects(blob, h, first, platformId) {
          lo, hi := h.headerBytes, h.totalSize;
        } else {
          lo, hi := SelectedIsInside(blob[h.totalSize..], false, platformId);
          assert blob[h.totalSize..][lo..hi] == blob[h.totalSize + lo..h.totalSize + hi];
          lo, hi := h.totalSize + lo, h.totalSize + hi;
        }
      }
    }
  }

  /** A bundle: the platforms it covers, filling up to a whole number of 16-byte units, and its table data. */
  datatype Bundle = Bundle(flags: u16, ids: seq<u16>, filling: Data, table: Data)

  predicate WellFormed(b: Bundle) {
    && |b.ids| <= 255
    && (24 + 2 * |b.ids| + |b.filling|) % 16 == 0
    && 24 + 2 * |b.ids| + |b.filling| <= 255 * 16
    && b.table != []
    && 24 + 2 * |b.ids| + |b.filling| + |b.table| < 0x1_0000_0000
  }

  predicate AllWellFormed(bs: seq<Bundle>) {
    forall i :: 0 <= i < |bs| ==> WellFormed(bs[i])
  }

  function PrintIds(ids: seq<u16>): (b: Data)
    ensures |b| == 2 * |ids|
  {
    if ids == [] then [] else Le(ids[0], 2) + PrintIds(ids[1..])
  }

  function HeaderBytes(b: Bundle): nat {
    24 + 2 * |b.ids| + |b.filling|
  }

  function PrintBundle(b: Bundle): (p: Data)
    requires WellFormed(b)
    ensures |p| == HeaderBytes(b) + |b.table|
  {
    Ascii("$PlatdefBundle1$") + (Le(HeaderBytes(b) + |b.table|, 4) + (Le(b.flags, 2) +
    ([HeaderBytes(b) / 16, |b.ids|] + (PrintIds(b.ids) + (b.filling + b.table)))))
  }

  function PrintBundles(bs: seq<Bundle>): Data
    requires AllWellFormed(bs)
  {
    if bs == [] then [] else PrintBundle(bs[0]) + PrintBundles(bs[1..])
  }

  lemma {:induction false} IdAt(ids: seq<u16>, i: nat)
    requires i < |ids|
    ensures FromLe(PrintIds(ids)[2 * i..2 * i + 2]) == ids[i]
  {
    hide FromLe, Le;
    Widths();
    LeInverse(ids[0], 2);
    if i == 0 {
      assert PrintIds(ids)[0..2] == Le(ids[0], 2);
    } else {
      IdAt(ids[1..], i - 1);
      assert PrintIds(ids)[2 * i..2 * i + 2] == PrintIds(ids[1..])[2 * (i - 1)..2 * (i - 1) + 2];
    }
  }

  /** Where the fields of a printed bundle lie. */
  lemma PrintedFields(b: Bundle, rest: Data)
    requires WellFormed(b)
    ensures var blob := PrintBundle(b) + rest;
      && blob[..16] == Ascii("$PlatdefBundle1$")
      && blob[16..20] == Le(HeaderBytes(b) + |b.table|, 4)
      && blob[22] == HeaderBytes(b) / 16 && blob[23] == |b.ids|
      && blob[24..24 + 2 * |b.ids|] == PrintIds(b.ids)
      && blob[HeaderBytes(b)..HeaderBytes(b) + |b.table|] == b.table
      && blob[HeaderBytes(b) + |b.table|..] == rest
  {
    hide Le, PrintIds, Ascii;
  }

  lemma PrintedHeader(b: Bundle, rest: Data)
    requires WellFormed(b)
    ensures var blob := PrintBundle(b) + rest;
      && IsBundle(blob)
      && ReadHeader(blob) == Header(HeaderBytes(b) + |b.table|, HeaderBytes(b), |b.ids|)
      && Consistent(ReadHeader(blob), |blob|)
      && Ids(blob, |b.ids|) == b.ids
      && blob[ReadHeader(blob).headerBytes..ReadHeader(blob).totalSize] == b.table
      && blob[ReadHeader(blob).totalSize..] == rest
  {
    hide Le, FromLe, PrintIds, PrintBundle, Ascii;
    Widths();
    PrintedFields(b, rest);
    LeInverse(HeaderBytes(b) + |b.table|, 4);
    var blob := PrintBundle(b) + rest;
    forall i | 0 <= i < |b.ids|
      ensures Ids(blob, |b.ids|)[i] == b.ids[i]
    {
      IdAt(b.ids, i);
      assert blob[24 + 2 * i..24 + 2 * i + 2] == blob[24..24 + 2 * |b.ids|][2 * i..2 * i + 2];
    }
  }

  /** The walk takes one printed bundle at a time. */
  lemma SelectStep(b: Bundle, rest: Data, first: bool, platformId: Option<nat>)
    requires WellFormed(b)
    ensures IsBundle(PrintBundle(b) + rest)
    ensures Select(PrintBundle(b) + rest, first, platformId) ==
      if (match platformId case Some(id) => id in b.ids case None => first && !IsBundle(rest)) then b.table
      else Select(rest, false, platformId)
  {
    hide PrintBundle, ReadHeader, IsBundle, Consistent, Ids, WellFormed;
    PrintedHeader(b, rest);
  }

  lemma PrintBundlesCons(bs: seq<Bundle>, tail: Data)
    requires AllWellFormed(bs)
    ensures bs == [] ==> PrintBundles(bs) + tail == tail
    ensures bs != [] ==>
      PrintBundles(bs) + tail == PrintBundle(bs[0]) + (PrintBundles(bs[1..]) + tail)
  {
    hide PrintBundle, WellFormed;
  }

  /** The table data of the first bundle that lists the platform. */
  function FirstFor(bs: seq<Bundle>, id: nat): Data {
    if bs == [] then [] else if id in bs[0].ids then bs[0].table else FirstFor(bs[1..], id)
  }

  /** Nothing is selected from the bytes behind a chain, which may hold no bundle or one that is inconsistent. */
  predicate Barren(tail: Data, platformId: Option<nat>) {
    Select(tail, true, platformId) == [] && Select(tail, false, platformId) == []
  }

  lemma {:induction false} SelectsByPlatform(bs: seq<Bundle>, tail: Data, first: bool, id: nat)
    requires AllWellFormed(bs) && Barren(tail, Some(id))
    ensures Select(PrintBundles(bs) + tail, first, Some(id)) == FirstFor(bs, id)
    decreases |bs|
  {
    hide IsBundle, WellFormed, PrintBundles, PrintBundle;
    PrintBundlesCons(bs, tail);
    if bs != [] {
      hide Select;
      SelectStep(bs[0], PrintBundles(bs[1..]) + tail, first, Some(id));
      SelectsByPlatform(bs[1..], tail, false, id);
    }
  }

  lemma ChainStarts(bs: seq<Bundle>, tail: Data)
    requires AllWellFormed(bs)
    ensures IsBundle(PrintBundles(bs) + tail) <==> bs != [] || IsBundle(tail)
  {
    hide IsBundle, WellFormed, PrintBundles, PrintBundle, Select;
    PrintBundlesCons(bs, tail);
    if bs != [] {
      SelectStep(bs[0], PrintBundles(bs[1..]) + tail, true, None);
    }
  }

  lemma {:induction false} SelectsWithoutPlatform(bs: seq<Bundle>, tail: Data, first: bool)
    requires AllWellFormed(bs) && Barren(tail, None)
    ensures Select(PrintBundles(bs) + tail, first, None)
         == if first && |bs| == 1 && !IsBundle(tail) then bs[0].table else []
    decreases |bs|
  {
    hide IsBundle, WellFormed, PrintBundles, PrintBundle;
    PrintBundlesCons(bs, tail);
    if bs != [] {
      hide Select;
      SelectStep(bs[0], PrintBundles(bs[1..]) + tail, first, None);
      ChainStarts(bs[1..], tail);
      SelectsWithoutPlatform(bs[1..], tail, false);
    }
  }

  /** On a chain of well-formed bundles: with a platform ID the table of the first bundle that lists it, or nothing;
      without one, the table of a sole bundle only. A blob that starts with no bundle is passed on whole. */
  lemma SelectsTheBundle(bs: seq<Bundle>, tail: Data, platformId: Option<nat>)
    requires AllWellFormed(bs) && (|tail| < 24 || tail[..16] != Ascii("$PlatdefBundle1$"))
    ensures SelectFrom(PrintBundles(bs) + tail, platformId) ==
      if bs == [] then tail
      else if platformId.Some? then FirstFor(bs, platformId.value)
      else if |bs| == 1 then bs[0].table
      else []
  {
    assert !IsBundle(tail);
    hide PrintBundle, IsBundle, PrintBundles, WellFormed;
    SelectEnds(tail, true, platformId);
    SelectEnds(tail, false, platformId);
    hide Select;
    ChainStarts(bs, tail);
    PrintBundlesCons(bs, tail);
    match platformId {
      case Some(id) => SelectsByPlatform(bs, tail, true, id);
      case None => SelectsWithoutPlatform(bs, tail, true);
    }
  }

  /** A bundle whose header does not hold its platform IDs, is not followed by any table, or claims more bytes than
      there are. */
  predicate Inconsistent(tail: Data) {
    && |tail| >= 24 && tail[..16] == Ascii("$PlatdefBundle1$")
    && var total, units: nat, count: nat := FromLe(tail[16..20]), tail[22], tail[23];
    && (units * 16 < 24 + 2 * count || total <= units * 16 || total > |tail|)
  }

  /** An inconsistent bundle ends the walk: bundles in front of it are still found by platform, and nothing else is. */
  lemma StopsAtInconsistent(bs: seq<Bundle>, tail: Data, platformId: Option<nat>)
    requires AllWellFormed(bs) && Inconsistent(tail)
    ensures SelectFrom(PrintBundles(bs) + tail, platformId)
         == if platformId.Some? then FirstFor(bs, platformId.value) else []
  {
    assert IsBundle(tail) && !Consistent(ReadHeader(tail), |tail|);
    hide PrintBundle, IsBundle, PrintBundles, WellFormed, Consistent, ReadHeader, Inconsistent, Selects;
    SelectCases(tail, true, platformId);
    SelectCases(tail, false, platformId);
    hide Select;
    ChainStarts(bs, tail);
    match platformId {
      case Some(id) => SelectsByPlatform(bs, tail, true, id);
      case None => SelectsWithoutPlatform(bs, tail, true);
    }
  }
}
