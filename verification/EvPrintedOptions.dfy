/** Stores whose boot options are laid out from their numbers and display names: what the next boot is set to, and what
    the BIOS table shows. */
module EvPrintedOptions {
  import opened Bytes
  import opened EvEntries
  import opened EvOrderedMap
  import B = BootOptions
  import opened EvWorld
  import opened EvBootRuns
  import opened EvTableRuns

  // ---------------------------------------------------------------- names

  /** `c` is the character of the hexadecimal digit `n`, in either case. */
  predicate IsHex(c: byte, n: nat) {
    if n < 10 then c == '0' as int + n
    else n < 16 && (c == 'A' as int + (n - 10) || c == 'a' as int + (n - 10))
  }

  /** `CQSBOOT` and the number in four hexadecimal digits, the most significant one first. */
  predicate IsOptionName(name: Data, n: nat) {
    && |name| == 11 && name[..7] == Ascii("CQSBOOT")
    && IsHex(name[7], n / 4096) && IsHex(name[8], n / 256 % 16)
    && IsHex(name[9], n / 16 % 16) && IsHex(name[10], n % 16)
  }

  lemma DigitRead(c: byte, n: nat)
    ensures B.HexDigit(c) == Some(n) <==> IsHex(c, n)
  {
  }

  lemma DigitsApart(n: nat, a: nat, b: nat, c: nat, d: nat)
    requires b < 16 && c < 16 && d < 16
    ensures ((a * 16 + b) * 16 + c) * 16 + d == n
       <==> n / 4096 == a && n / 256 % 16 == b && n / 16 % 16 == c && n % 16 == d
  {
    var high := n / 16;
    var higher := high / 16;
    assert n / 256 == higher && n / 4096 == higher / 16;
  }

  /** A name stands for an option number exactly when it is `CQSBOOT` and that number in four hexadecimal digits. */
  lemma NumberRead(name: Data, n: nat)
    ensures B.OptionNumber(name) == Some(n) <==> IsOptionName(name, n)
  {
    if |name| == 11 && B.BOOT_PREFIX <= name {
      assert name[..7] == Ascii("CQSBOOT");
      var a, b, c, d := B.HexDigit(name[7]), B.HexDigit(name[8]), B.HexDigit(name[9]), B.HexDigit(name[10]);
      DigitRead(name[7], n / 4096);
      DigitRead(name[8], n / 256 % 16);
      DigitRead(name[9], n / 16 % 16);
      DigitRead(name[10], n % 16);
      hide IsHex, B.HexDigit;
      if a.Some? && b.Some? && c.Some? && d.Some? {
        DigitsApart(n, a.value, b.value, c.value, d.value);
      }
    } else {
      assert |name| == 11 && name[..7] == Ascii("CQSBOOT") ==> B.BOOT_PREFIX <= name;
    }
  }

  /** On D-Bus an option goes by its third and fourth digit, whatever follows; other names have none. */
  lemma IdRead(digits: Data, rest: Data, name: Data)
    requires |digits| == 4
    ensures B.BootOptionId(Ascii("CQSBOOT") + (digits + rest)) == Some([digits[2], digits[3]])
    ensures B.BootOptionId(name).Some? <==> |name| >= 11 && name[..7] == Ascii("CQSBOOT")
  {
    var printed := Ascii("CQSBOOT") + (digits + rest);
    assert printed[..7] == B.BOOT_PREFIX && printed[9..11] == [digits[2], digits[3]];
    assert |name| >= 11 && name[..7] == Ascii("CQSBOOT") ==> B.BOOT_PREFIX <= name;
    assert B.BOOT_PREFIX <= name ==> name[..7] == Ascii("CQSBOOT");
  }

  // ---------------------------------------------------------------- stores

  datatype Item =
    | Option(digits: Data, number: nat, head: Data, bootStr: Data, gap: Data, chars: seq<u16>, rest: Data)
    | Other(entry: Entry)

  predicate WellFormedItem(item: Item) {
    match item
    case Option(digits, number, head, bootStr, gap, chars, rest) =>
      && |digits| == 4 && IsOptionName(Ascii("CQSBOOT") + digits, number)
      && |head| == 14 && |bootStr| < 0x1_0000 && |gap| == 8 && 0 !in chars && B.Ended(rest)
    case Other(entry) => !(Ascii("CQSBOOT") <= entry.name)
  }

  predicate AllWellFormed(items: seq<Item>) {
    forall i :: 0 <= i < |items| ==> WellFormedItem(items[i])
  }

  /** An option is stored under its name: the fixed part, the structured boot string behind its length, what stands
      between it and the display name, and the display name in UTF-16. */
  function PrintItem(item: Item): Entry {
    match item
    case Option(digits, _, head, bootStr, gap, chars, rest) =>
      Entry(Ascii("CQSBOOT") + digits,
            head + (Le(|bootStr| % 0x1_0000, 2) + (bootStr + (gap + (B.Utf16(chars) + rest)))))
    case Other(entry) => entry
  }

  function PrintItems(items: seq<Item>): (es: seq<Entry>)
    ensures |es| == |items|
  {
    if items == [] then [] else [PrintItem(items[0])] + PrintItems(items[1..])
  }

  predicate Shows(item: Item) {
    item.Option? && item.chars != []
  }

  /** The options with a display name, in the order of the store. */
  function Listed(items: seq<Item>): seq<B.BootOption> {
    if items == [] then []
    else
      (if Shows(items[0]) then [B.BootOption(items[0].number, B.Displayed(items[0].chars))] else [])
      + Listed(items[1..])
  }

  lemma ItemRead(item: Item)
    requires WellFormedItem(item)
    ensures var e := PrintItem(item);
      && (item.Option? ==> B.OptionNumber(e.name) == Some(item.number))
      && (item.Option? ==> B.BootOptionId(e.name) == Some(item.digits[2..]))
      && (item.Option? ==>
           B.ParseBootOptionName(e.data) == if item.chars == [] then None else Some(B.Displayed(item.chars)))
      && (item.Other? ==> B.OptionNumber(e.name).None? && B.BootOptionId(e.name).None?)
  {
    hide IsHex, Le, FromLe, B.ParseBootOptionName, B.Utf16, B.Ended;
    if item.Option? {
      NumberRead(Ascii("CQSBOOT") + item.digits, item.number);
      IdRead(item.digits, [], []);
      assert item.digits + [] == item.digits;
      assert item.digits[2..] == [item.digits[2], item.digits[3]];
      B.ParseBack(item.head, item.bootStr, item.gap, item.chars, item.rest);
    }
  }

  lemma {:induction false} OptionsListed(items: seq<Item>)
    requires AllWellFormed(items)
    ensures Options(PrintItems(items)) == Listed(items)
  {
    hide WellFormedItem, PrintItem, B.OptionNumber, B.ParseBootOptionName, B.Displayed;
    if items != [] {
      ItemRead(items[0]);
      OptionsListed(items[1..]);
      assert PrintItems(items)[1..] == PrintItems(items[1..]);
    }
  }

  // ---------------------------------------------------------------- the BIOS table

  /** One attribute for every option with a display name, under `Boot` and the last two digits; of two options that
      share them the first one counts. */
  function Attributes(items: seq<Item>): map<Data, Attribute>
    requires AllWellFormed(items)
  {
    if items == [] then map[]
    else if Shows(items[0]) then
      Attributes(items[1..])[Ascii("Boot") + items[0].digits[2..] := BootAttribute(B.Displayed(items[0].chars))]
    else Attributes(items[1..])
  }

  lemma {:induction false} OursAreAttributes(items: seq<Item>)
    requires AllWellFormed(items)
    ensures Ours(PrintItems(items)) == Attributes(items)
  {
    if items != [] {
      ItemRead(items[0]);
      hide WellFormedItem, PrintItem, B.BootOptionId, B.ParseBootOptionName, B.Displayed;
      OursAreAttributes(items[1..]);
      assert PrintItems(items)[1..] == PrintItems(items[1..]);
    }
  }

  /** Whenever the table agrees with such a store, its boot attributes are exactly those of the printed options. */
  lemma TableShowsOptions(w: World, items: seq<Item>)
    requires AllWellFormed(items) && w.entries == PrintItems(items) && TableMatches(w)
    ensures forall key :: key in w.table && key !in Attributes(items) ==> !(Ascii("Boot") <= key && |key| == 6)
    ensures forall key :: key in Attributes(items) ==> key in w.table && w.table[key] == Attributes(items)[key]
  {
    hide WellFormedItem, Ours;
    OursAreAttributes(items);
    OursAreBootKeys(w.entries);
  }

  /** A publication that is written leaves exactly those attributes, and every other one that was read and not
      managed. */
  lemma PublishesOptions(w: World, items: seq<Item>, io: Io)
    requires AllWellFormed(items) && w.entries == PrintItems(items) && io.writeTable
    ensures var after := Publish(w, io);
      && after.managed == Attributes(items).Keys
      && (forall key :: key in Attributes(items) ==> key in after.table && after.table[key] == Attributes(items)[key])
      && (forall key :: key in after.table && key !in Attributes(items) ==>
            io.readTable && key in w.table && key !in w.managed && after.table[key] == w.table[key])
  {
    hide WellFormedItem, Ours, Attributes;
    OursAreAttributes(items);
  }

  // ---------------------------------------------------------------- the next boot

  const NEXT_NAME: Data := Ascii("CQTBOOTNEXT")
  const ORDER_NAME: Data := Ascii("CQHBOOTORDER")

  /** What the display name of an option has to contain for each boot source, most wanted first; the setup mode has its
      own list whatever the source. */
  function Wanted(source: B.Source, mode: B.Mode): seq<Data> {
    if mode == B.Setup then [Ascii("System Utilities"), Ascii("Setup")]
    else match source
      case Network => [Ascii("Network Boot"), Ascii("PXE")]
      case HTTP => [Ascii("HTTP Boot"), Ascii("HTTP")]
      case RemovableMedia => [Ascii("USB")]
      case ExternalMedia =>
        [Ascii("Virtual Media"), Ascii("Virtual CD"), Ascii("Virtual"), Ascii("CD/DVD"), Ascii("CD"), Ascii("DVD"),
         Ascii("Optical"), Ascii("Blu-ray")]
      case Disk =>
        [Ascii("Logical Drive"), Ascii("Bay"), Ascii("NVMe"), Ascii("SATA"), Ascii("SAS"), Ascii("SSD"), Ascii("HDD"),
         Ascii("RAID"), Ascii("Hard"), Ascii("Disk")]
      case DefaultSource => []
  }

  /** What the settings want now; a source or mode that cannot be read counts as the default one. */
  function WantedNow(w: World, io: Io): seq<Data> {
    Wanted(if io.readSource then w.settings.source else B.DefaultSource,
           if io.readMode then w.settings.mode else B.Regular)
  }

  lemma KeywordsAreWanted(source: B.Source, mode: B.Mode)
    ensures B.Keywords(source, mode) == Wanted(source, mode)
  {
  }

  lemma OneBest(options: seq<B.BootOption>, keywords: seq<Data>, i: nat, j: nat, i2: nat, j2: nat)
    requires B.BestMatch(options, keywords, i, j) && B.BestMatch(options, keywords, i2, j2)
    ensures i == i2 && j == j2
  {
    hide B.Contains;
  }

  predicate Carried(options: seq<B.BootOption>, keywords: seq<Data>) {
    exists a, b :: 0 <= a < |keywords| && 0 <= b < |options| && B.Contains(options[b].name, keywords[a])
  }

  lemma TargetIsBest(items: seq<Item>, source: B.Source, mode: B.Mode, i: nat, j: nat)
    requires AllWellFormed(items)
    ensures B.BestMatch(Listed(items), Wanted(source, mode), i, j) ==>
      ResolveTarget(PrintItems(items), source, mode) == Some(Listed(items)[j].number)
    ensures !Carried(Listed(items), Wanted(source, mode)) ==> ResolveTarget(PrintItems(items), source, mode) == None
  {
    hide WellFormedItem, Wanted, B.Keywords, B.Contains;
    OptionsListed(items);
    KeywordsAreWanted(source, mode);
    var options, keywords := Listed(items), Wanted(source, mode);
    var i2, j2 := B.MatchIsBest(options, keywords);
    if B.BestMatch(options, keywords, i, j) && B.MatchOption(options, keywords).Some? {
      OneBest(options, keywords, i, j, i2, j2);
    }
  }

  /** Two bytes, the low one first. */
  function OptionBytes(n: nat): Data
    requires n < 0x1_0000
  {
    [n % 256, n / 256]
  }

  lemma EncodedBytes(n: u16)
    ensures B.EncodeOption(n) == OptionBytes(n)
  {
    TwoBytes(n);
  }

  lemma {:induction false} ListedNumbers(items: seq<Item>)
    requires AllWellFormed(items)
    ensures forall i :: 0 <= i < |Listed(items)| ==> Listed(items)[i].number < 0x1_0000
  {
    if items != [] {
      hide IsHex;
      ListedNumbers(items[1..]);
      if items[0].Option? { NumberInRange(items[0]); }
    }
  }

  lemma NumberInRange(item: Item)
    requires WellFormedItem(item) && item.Option?
    ensures item.number < 0x1_0000
  {
  }

  /** With one-time boot enabled, the next boot is set to the option with the best display name: its number goes to
      `CQTBOOTNEXT`, low byte first, if it fits. */
  lemma ArmsBestOption(w: World, items: seq<Item>, io: Io, i: nat, j: nat)
    requires AllWellFormed(items) && w.entries == PrintItems(items) && Unique(w.entries)
    requires io.readEnabled && w.settings.oneTime
    requires B.BestMatch(Listed(items), WantedNow(w, io), i, j)
    ensures var n, after := Listed(items)[j].number, SyncEffective(w, io).entries;
      && n < 0x1_0000
      && if SetEntries(w.entries, NEXT_NAME, OptionBytes(n)).Some?
         then Lookup(after, NEXT_NAME) == Some(Entry(NEXT_NAME, OptionBytes(n)))
         else after == w.entries
  {
    assert j < |Listed(items)|;
    hide WellFormedItem, Wanted, SetEntries, Lookup, Unique, SyncEffective, ResolveTarget, OptionBytes, PrintItems,
      B.BestMatch, B.EncodeOption;
    ListedNumbers(items);
    TargetIsBest(items, BootSource(w, io), BootMode(w, io), i, j);
    EncodedBytes(Listed(items)[j].number);
    SyncAgrees(w, io, []);
  }

  /** Without it, the option goes to the front of the boot order, if there is one and the result fits, and
      `CQTBOOTNEXT` goes. */
  lemma MovesBestOption(w: World, items: seq<Item>, io: Io, i: nat, j: nat, order: Data)
    requires AllWellFormed(items) && w.entries == PrintItems(items) && Unique(w.entries)
    requires !(io.readEnabled && w.settings.oneTime)
    requires B.BestMatch(Listed(items), WantedNow(w, io), i, j)
    requires Lookup(w.entries, ORDER_NAME) == Some(Entry(ORDER_NAME, order)) && |order| >= 2
    ensures var n, after := Listed(items)[j].number, SyncEffective(w, io).entries;
      && Lookup(after, NEXT_NAME) == None
      && n < 0x1_0000 && OptionBytes(n) <= B.Reorder(order, n)
      && var dropped := Dropped(w.entries, NEXT_NAME);
         var fits := SetEntries(dropped, ORDER_NAME, B.Reorder(order, n)).Some?;
         Lookup(after, ORDER_NAME)
         == Some(Entry(ORDER_NAME, if fits then B.Reorder(order, n) else order))
  {
    assert j < |Listed(items)|;
    hide WellFormedItem, Wanted, SetEntries, Lookup, Unique, SyncEffective, ResolveTarget, OptionBytes, PrintItems,
      B.BestMatch, B.EncodeOption, Dropped, B.Reorder;
    ListedNumbers(items);
    TargetIsBest(items, BootSource(w, io), BootMode(w, io), i, j);
    var n := Listed(items)[j].number;
    ReorderedFront(order, n);
    LookupsAfterDrop(w.entries, []);
    SyncAgrees(w, io, []);
  }

  lemma ReorderedFront(order: Data, n: u16)
    ensures OptionBytes(n) <= B.Reorder(order, n)
  {
    hide B.Without, B.DecodeOrder, OptionBytes;
    EncodedBytes(n);
    assert ([n] + B.Without(B.DecodeOrder(order), n))[0] == n;
  }

  /** When no display name contains any of the wanted texts, `CQTBOOTNEXT` goes and the boot order stays. */
  lemma NothingWanted(w: World, items: seq<Item>, io: Io)
    requires AllWellFormed(items) && w.entries == PrintItems(items) && Unique(w.entries)
    requires !Carried(Listed(items), WantedNow(w, io))
    ensures var after := SyncEffective(w, io).entries;
      && Lookup(after, NEXT_NAME) == None
      && Lookup(after, ORDER_NAME) == Lookup(w.entries, ORDER_NAME)
  {
    hide WellFormedItem, Wanted, Lookup, Unique, SyncEffective, ResolveTarget, PrintItems, Carried;
    TargetIsBest(items, BootSource(w, io), BootMode(w, io), 0, 0);
    SyncAgrees(w, io, []);
  }
}
