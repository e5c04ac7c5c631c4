/** Boot options as the host publishes them: numbers, display names, target keywords and the boot order. */
module BootOptions {
  import opened Bytes
  import opened EvEntries

  const BOOT_PREFIX := Ascii("CQSBOOT")
  const BOOT_NEXT := Ascii("CQTBOOTNEXT")
  const BOOT_ORDER := Ascii("CQHBOOTORDER")

  // ---------------------------------------------------------------- names and numbers

  function HexDigit(c: byte): (n: Option<nat>)
    ensures n.Some? ==> n.value < 16
  {
    if 0x30 <= c <= 0x39 then Some(c - 0x30)
    else if 0x41 <= c <= 0x46 then Some(c - 0x41 + 10)
    else if 0x61 <= c <= 0x66 then Some(c - 0x61 + 10)
    else None
  }

  /** The UEFI option number in a CQSBOOT#### name. */
  function OptionNumber(name: Data): (n: Option<nat>)
    ensures n.Some? ==> n.value < 0x1_0000
  {
    if !(BOOT_PREFIX <= name) || |name| != |BOOT_PREFIX| + 4 then None
    else
      var a :- HexDigit(name[7]);
      var b :- HexDigit(name[8]);
      var c :- HexDigit(name[9]);
      var d :- HexDigit(name[10]);
      Some(((a * 16 + b) * 16 + c) * 16 + d)
  }

  /** The two digits that identify the option on D-Bus. */
  function BootOptionId(name: Data): (id: Option<Data>)
    ensures id.Some? ==> |id.value| == 2 && BOOT_PREFIX <= name
  {
    if BOOT_PREFIX <= name && |name| >= |BOOT_PREFIX| + 4 then Some(name[9..11]) else None
  }

  /** The names the service itself writes are not boot-option names. */
  lemma OwnNames()
    ensures !(BOOT_PREFIX <= BOOT_NEXT) && !(BOOT_PREFIX <= BOOT_ORDER) && BOOT_NEXT != BOOT_ORDER
    ensures OptionNumber(BOOT_NEXT).None? && OptionNumber(BOOT_ORDER).None?
    ensures GoodName(BOOT_NEXT) && GoodName(BOOT_ORDER)
  {
    assert BOOT_PREFIX[2] != BOOT_NEXT[2] && BOOT_PREFIX[2] != BOOT_ORDER[2];
    assert |BOOT_NEXT| == 11 && |BOOT_ORDER| == 12;
  }

  const QUESTION_MARK: byte := 0x3F

  /** The printable form of the UTF-16 text at `i`, up to a NUL character or the end. */
  function NameChars(data: Data, i: nat): (name: Data)
    decreases |data| - i
  {
    if i + 1 >= |data| then []
    else
      var ch := FromLe(data[i..i + 2]);
      if ch == 0 then []
      else [if 0x20 <= ch < 0x7F then ch else QUESTION_MARK] + NameChars(data, i + 2)
  }

  /** Past the fixed part, the structured boot string, six reserved bytes and the UEFI length field. */
  function NameOffset(data: Data): nat
    requires |data| >= 16
  {
    16 + FromLe(data[14..16]) + 6 + 2
  }

  function ParseBootOptionName(data: Data): Option<Data> {
    if |data| < 16 || NameOffset(data) >= |data| || NameChars(data, NameOffset(data)) == [] then None
    else Some(NameChars(data, NameOffset(data)))
  }

  lemma NameStep(data: Data, i: nat)
    ensures i + 1 >= |data| ==> NameChars(data, i) == []
    ensures i + 1 < |data| ==>
      var ch := FromLe(data[i..i + 2]);
      NameChars(data, i)
      == if ch == 0 then [] else [if 0x20 <= ch < 0x7F then ch else QUESTION_MARK] + NameChars(data, i + 2)
  {
    hide FromLe;
  }

  method ReadBootOptionName(data: Data) returns (name: Option<Data>)
    ensures name == ParseBootOptionName(data)
  {
    hide FromLe, NameChars;
    if |data| < 16 { return None; }
    var bootStrLen := FromLe(data[14..16]);
    var nameOffset := 16 + bootStrLen + 6 + 2;
    if nameOffset >= |data| { return None; }
    var text: Data := [];
    var i := nameOffset;
    while i + 1 < |data|
      invariant nameOffset <= i
      invariant NameChars(data, nameOffset) == text + NameChars(data, i)
      decreases |data| - i
    {
      NameStep(data, i);
      var ch := FromLe(data[i..i + 2]);
      if ch == 0 { break; }
      Regroup(text, [if 0x20 <= ch < 0x7F then ch else QUESTION_MARK], NameChars(data, i + 2));
      text := text + [if 0x20 <= ch < 0x7F then ch else QUESTION_MARK];
      i := i + 2;
    }
    NameStep(data, i);
    assert NameChars(data, nameOffset) == text;
    return if text == [] then None else Some(text);
  }

  function Utf16(chars: seq<u16>): Data {
    if chars == [] then [] else Le(chars[0], 2) + Utf16(chars[1..])
  }

  /** Printable ASCII is displayed as it is, every other character as a question mark. */
  function Displayed(chars: seq<u16>): (name: Data)
    ensures |name| == |chars|
    ensures forall i :: 0 <= i < |chars| ==> name[i] == if 0x20 <= chars[i] < 0x7F then chars[i] else 0x3F
  {
    seq(|chars|, i requires 0 <= i < |chars| => if 0x20 <= chars[i] < 0x7F then chars[i] else 0x3F)
  }

  /** The end of a name: a NUL character and anything behind it, or no whole character. */
  predicate Ended(rest: Data) {
    |rest| < 2 || FromLe(rest[..2]) == 0
  }

  lemma {:induction false} NameCharsBack(data: Data, i: nat, chars: seq<u16>, rest: Data)
    requires 0 !in chars && Ended(rest) && i <= |data| && data[i..] == Utf16(chars) + rest
    ensures NameChars(data, i) == Displayed(chars)
    decreases |chars|
  {
    hide FromLe, Le;
    if chars == [] {
      assert data[i..] == rest;
      assert |rest| >= 2 ==> data[i..i + 2] == rest[..2];
    } else {
      assert data[i..i + 2] == data[i..][..2] == Le(chars[0], 2);
      Widths();
      LeInverse(chars[0], 2);
      assert data[i + 2..] == data[i..][2..] == Utf16(chars[1..]) + rest;
      NameCharsBack(data, i + 2, chars[1..], rest);
      assert Displayed(chars) == [Displayed(chars)[0]] + Displayed(chars[1..]);
    }
  }

  /** The display name of an option is read back whole, whatever surrounds it; an option without one has none. */
  lemma ParseBack(head: Data, bootStr: Data, gap: Data, chars: seq<u16>, rest: Data)
    requires |head| == 14 && |bootStr| < 0x1_0000 && |gap| == 8 && 0 !in chars && Ended(rest)
    ensures ParseBootOptionName(head + (Le(|bootStr|, 2) + (bootStr + (gap + (Utf16(chars) + rest)))))
         == if chars == [] then None else Some(Displayed(chars))
  {
    hide Le, FromLe, Utf16, NameChars, Ended;
    Widths();
    LeInverse(|bootStr|, 2);
    var text := Utf16(chars) + rest;
    var data := head + (Le(|bootStr|, 2) + (bootStr + (gap + text)));
    assert data[14..16] == Le(|bootStr|, 2);
    assert data[16 + |bootStr| + 8..] == text;
    NameCharsBack(data, 16 + |bootStr| + 8, chars, rest);
    TextLength(chars);
  }

  lemma TextLength(chars: seq<u16>)
    ensures |Utf16(chars)| == 2 * |chars|
  {
    if chars != [] {
      TextLength(chars[1..]);
    }
  }

  // ---------------------------------------------------------------- matching a target

  datatype Source = Network | HTTP | RemovableMedia | ExternalMedia | Disk | DefaultSource
  datatype Mode = Regular | Safe | Setup

  const MEDIA_KEYWORDS: seq<Data> :=
    [Ascii("Virtual Media"), Ascii("Virtual CD"), Ascii("Virtual"), Ascii("CD/DVD"), Ascii("CD"), Ascii("DVD"),
     Ascii("Optical"), Ascii("Blu-ray")]

  const DISK_KEYWORDS: seq<Data> :=
    [Ascii("Logical Drive"), Ascii("Bay"), Ascii("NVMe"), Ascii("SATA"), Ascii("SAS"), Ascii("SSD"), Ascii("HDD"),
     Ascii("RAID"), Ascii("Hard"), Ascii("Disk")]

  function Keywords(source: Source, mode: Mode): seq<Data> {
    if mode == Setup then [Ascii("System Utilities"), Ascii("Setup")]
    else
      match source
      case Network => [Ascii("Network Boot"), Ascii("PXE")]
      case HTTP => [Ascii("HTTP Boot"), Ascii("HTTP")]
      case RemovableMedia => [Ascii("USB")]
      case ExternalMedia => MEDIA_KEYWORDS
      case Disk => DISK_KEYWORDS
      case DefaultSource => []
  }

  predicate OccursAt(text: Data, keyword: Data, i: nat) {
    i + |keyword| <= |text| && text[i..i + |keyword|] == keyword
  }

  predicate Contains(text: Data, keyword: Data) {
    exists i: nat :: i <= |text| && OccursAt(text, keyword, i)
  }

  /** A text contains a keyword exactly when it is made of something, the keyword, and something. */
  lemma ContainsMeans(text: Data, keyword: Data)
    ensures Contains(text, keyword) <==> exists before: Data, after: Data :: text == before + (keyword + after)
  {
    if Contains(text, keyword) {
      var i: nat :| i <= |text| && OccursAt(text, keyword, i);
      assert text == text[..i] + (keyword + text[i + |keyword|..]);
    }
    if before: Data, after: Data :| text == before + (keyword + after) {
      assert OccursAt(text, keyword, |before|);
    }
  }

  datatype BootOption = BootOption(number: nat, name: Data)

  function FirstWith(options: seq<BootOption>, keyword: Data): (n: Option<nat>) {
    if options == [] then None
    else if Contains(options[0].name, keyword) then Some(options[0].number)
    else FirstWith(options[1..], keyword)
  }

  function MatchOption(options: seq<BootOption>, keywords: seq<Data>): (n: Option<nat>) {
    if keywords == [] then None
    else
      var first := FirstWith(options, keywords[0]);
      if first.Some? then first else MatchOption(options, keywords[1..])
  }

  /** Option `j` is the first to carry keyword `i`, and no option carries an earlier keyword. */
  predicate BestMatch(options: seq<BootOption>, keywords: seq<Data>, i: nat, j: nat) {
    && i < |keywords| && j < |options|
    && Contains(options[j].name, keywords[i])
    && (forall b :: 0 <= b < j ==> !Contains(options[b].name, keywords[i]))
    && (forall a, b :: 0 <= a < i && 0 <= b < |options| ==> !Contains(options[b].name, keywords[a]))
  }

  lemma {:induction false} FirstWithIsFirst(options: seq<BootOption>, keyword: Data) returns (j: nat)
    ensures FirstWith(options, keyword).None? ==> j == |options|
    ensures FirstWith(options, keyword).Some? ==>
      j < |options| && Contains(options[j].name, keyword) && FirstWith(options, keyword).value == options[j].number
    ensures forall b :: 0 <= b < j ==> !Contains(options[b].name, keyword)
  {
    if options == [] || Contains(options[0].name, keyword) {
      j := 0;
    } else {
      j := FirstWithIsFirst(options[1..], keyword);
      j := j + 1;
    }
  }

  /** Keywords are tried in order of priority, and options in storage order under each keyword. */
  lemma {:induction false} MatchIsBest(options: seq<BootOption>, keywords: seq<Data>) returns (i: nat, j: nat)
    ensures MatchOption(options, keywords).Some? ==>
      BestMatch(options, keywords, i, j) && MatchOption(options, keywords).value == options[j].number
    ensures MatchOption(options, keywords).None? ==>
      forall a, b :: 0 <= a < |keywords| && 0 <= b < |options| ==> !Contains(options[b].name, keywords[a])
    decreases |keywords|
  {
    i, j := 0, 0;
    if keywords != [] {
      hide Contains;
      j := FirstWithIsFirst(options, keywords[0]);
      if j == |options| {
        i, j := MatchIsBest(options, keywords[1..]);
        i := i + 1;
      }
    }
  }

  method FindMatch(options: seq<BootOption>, keywords: seq<Data>) returns (n: Option<nat>)
    ensures n == MatchOption(options, keywords)
  {
    hide Contains;
    for i := 0 to |keywords|
      invariant MatchOption(options, keywords[i..]) == MatchOption(options, keywords)
    {
      assert keywords[i..][1..] == keywords[i + 1..];
      for j := 0 to |options|
        invariant FirstWith(options[j..], keywords[i]) == FirstWith(options, keywords[i])
      {
        assert options[j..][1..] == options[j + 1..];
        if Contains(options[j].name, keywords[i]) {
          return Some(options[j].number);
        }
      }
    }
    return None;
  }

  // ---------------------------------------------------------------- the boot order

  function EncodeOption(option: u16): (b: Data)
    ensures |b| == 2
  {
    Le(option, 2)
  }

  /** The options of a boot order; an odd byte at the end is no option. */
  function DecodeOrder(b: Data): (order: seq<u16>) {
    if |b| < 2 then [] else
    U16(b[..2]);
    [FromLe(b[..2])] + DecodeOrder(b[2..])
  }

  function EncodeOrder(order: seq<u16>): (b: Data)
    ensures |b| == 2 * |order|
  {
    if order == [] then [] else EncodeOption(order[0]) + EncodeOrder(order[1..])
  }

  function Without(order: seq<u16>, option: u16): (rest: seq<u16>) {
    if order == [] then []
    else if order[0] == option then Without(order[1..], option)
    else [order[0]] + Without(order[1..], option)
  }

  function Reorder(current: Data, option: u16): Data {
    EncodeOrder([option] + Without(DecodeOrder(current), option))
  }

  method ReadOrder(current: Data) returns (order: seq<u16>)
    ensures order == DecodeOrder(current)
  {
    hide FromLe, Le;
    order := [];
    var i := 0;
    while i + 1 < |current|
      invariant 0 <= i <= |current|
      invariant order + DecodeOrder(current[i..]) == DecodeOrder(current)
    {
      U16(current[i..i + 2]);
      assert current[i..][..2] == current[i..i + 2] && current[i..][2..] == current[i + 2..];
      order := order + [FromLe(current[i..i + 2])];
      i := i + 2;
    }
    assert DecodeOrder(current[i..]) == [];
  }

  /** Every occurrence goes. */
  method Erase(order: seq<u16>, option: u16) returns (kept: seq<u16>)
    ensures kept == Without(order, option)
  {
    kept := [];
    for k := 0 to |order|
      invariant kept + Without(order[k..], option) == Without(order, option)
    {
      assert order[k..][1..] == order[k + 1..];
      if order[k] != option {
        kept := kept + [order[k]];
      }
    }
    assert Without(order[|order|..], option) == [];
  }

  method WriteOrder(order: seq<u16>) returns (out: Data)
    ensures out == EncodeOrder(order)
  {
    hide EncodeOption;
    out := [];
    for k := 0 to |order|
      invariant out + EncodeOrder(order[k..]) == EncodeOrder(order)
    {
      assert order[k..][1..] == order[k + 1..];
      out := out + EncodeOption(order[k]);
    }
    assert EncodeOrder(order[|order|..]) == [];
  }

  method ReorderBootOrder(current: Data, option: u16) returns (out: Data)
    ensures out == Reorder(current, option)
  {
    var order := ReadOrder(current);
    order := Erase(order, option);
    order := [option] + order;
    out := WriteOrder(order);
  }

  lemma {:induction false} DecodeEncode(order: seq<u16>)
    ensures DecodeOrder(EncodeOrder(order)) == order
  {
    if order != [] {
      Widths();
      LeInverse(order[0], 2);
      var b := EncodeOrder(order);
      assert b[..2] == EncodeOption(order[0]) && b[2..] == EncodeOrder(order[1..]);
      DecodeEncode(order[1..]);
    }
  }

  lemma {:induction false} WithoutMeans(order: seq<u16>, option: u16)
    ensures option !in Without(order, option)
    ensures forall v :: v != option ==> multiset(Without(order, option))[v] == multiset(order)[v]
    ensures option !in order ==> Without(order, option) == order
  {
    if order != [] {
      WithoutMeans(order[1..], option);
      assert order == [order[0]] + order[1..];
    }
  }

  predicate NoDuplicates(order: seq<u16>) {
    forall i, j :: 0 <= i < j < |order| ==> order[i] != order[j]
  }

  lemma {:induction false} WithoutKeepsDistinct(order: seq<u16>, option: u16)
    requires NoDuplicates(order)
    ensures NoDuplicates(Without(order, option)) && forall v :: v in Without(order, option) ==> v in order
  {
    if order != [] {
      WithoutKeepsDistinct(order[1..], option);
      var rest := Without(order[1..], option);
      assert forall v :: v in rest ==> v in order[1..];
      assert order[0] !in order[1..];
      if order[0] != option {
        assert forall i :: 0 <= i < |rest| ==> rest[i] in rest;
      }
    }
  }

  /** One sequence is what remains of another after some elements are left out. */
  predicate Subsequence(a: seq<u16>, b: seq<u16>) {
    if a == [] then true
    else if b == [] then false
    else if a[0] == b[0] then Subsequence(a[1..], b[1..])
    else Subsequence(a, b[1..])
  }

  lemma {:induction false} WithoutIsSubsequence(order: seq<u16>, option: u16)
    ensures Subsequence(Without(order, option), order)
  {
    if order != [] {
      WithoutIsSubsequence(order[1..], option);
      WithoutMeans(order[1..], option);
      var kept, rest := Without(order, option), Without(order[1..], option);
      if order[0] == option {
        assert kept == rest;
        assert rest != [] ==> rest[0] in rest && rest[0] != option;
      } else {
        assert kept[0] == order[0] && kept[1..] == rest;
      }
    } else {
      assert Without(order, option) == [];
    }
  }

  /** The option moves to the front; all others keep their order and number; a second time changes nothing. */
  lemma ReorderMovesToFront(current: Data, option: u16)
    ensures var was, now := DecodeOrder(current), DecodeOrder(Reorder(current, option));
      && |now| > 0 && now[0] == option
      && option !in now[1..]
      && Subsequence(now[1..], was)
      && (forall v :: v != option ==> multiset(now)[v] == multiset(was)[v])
      && (NoDuplicates(was) ==> NoDuplicates(now))
      && |Reorder(current, option)| % 2 == 0
      && Reorder(Reorder(current, option), option) == Reorder(current, option)
  {
    hide DecodeOrder, EncodeOrder, Without;
    var was := DecodeOrder(current);
    var rest := Without(was, option);
    DecodeEncode([option] + rest);
    WithoutMeans(was, option);
    WithoutIsSubsequence(was, option);
    WithoutMeans(rest, option);
    WithoutOfFront(rest, option);
    if NoDuplicates(was) {
      WithoutKeepsDistinct(was, option);
    }
    assert ([option] + rest)[1..] == rest;
  }

  lemma WithoutOfFront(rest: seq<u16>, option: u16)
    ensures Without([option] + rest, option) == Without(rest, option)
  {
    assert ([option] + rest)[1..] == rest;
  }

  /** Any sequence of selections keeps a duplicate-free order duplicate-free. */
  function ReorderAll(current: Data, options: seq<u16>): Data
    decreases |options|
  {
    if options == [] then current else ReorderAll(Reorder(current, options[0]), options[1..])
  }

  lemma {:induction false} ReorderAllKeepsDistinct(current: Data, options: seq<u16>)
    requires NoDuplicates(DecodeOrder(current))
    ensures NoDuplicates(DecodeOrder(ReorderAll(current, options)))
    decreases |options|
  {
    if options != [] {
      ReorderMovesToFront(current, options[0]);
      ReorderAllKeepsDistinct(Reorder(current, options[0]), options[1..]);
    }
  }
}
