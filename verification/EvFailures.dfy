/** Inputs for which a failing save or D-Bus call shows. */
module EvFailures {
  import opened Bytes
  import opened EvEntries
  import opened EvProtocol
  import B = BootOptions
  import opened EvWorld
  import opened EvFrames
  import opened EvRuns
  import opened EvBootRuns
  import opened EvTableRuns
  import opened EvUnsaved

  const FINE := Io(Saved, Saved, true, true, true, true, true, true, true, true)

  const OPTION_NAME := Ascii("CQSBOOT0001")
  const PXE := Ascii("PXE")

  /** A boot option that displays "PXE". */
  function OptionData(): Data {
    Zeros(14) + (Le(|Zeros(0)|, 2) + (Zeros(0) + (Zeros(8) + (B.Utf16(PXE) + []))))
  }

  lemma OptionShowsPxe()
    ensures B.ParseBootOptionName(OptionData()) == Some(PXE) && |OptionData()| == 30
  {
    hide Le, FromLe, B.Utf16, B.ParseBootOptionName;
    B.ParseBack(Zeros(14), Zeros(0), Zeros(8), PXE, []);
    B.TextLength(PXE);
    assert B.Displayed(PXE) == PXE;
  }

  lemma OptionIsPxe()
    ensures B.ParseBootOptionName(OptionData()) == Some(PXE) && |OptionData()| == 30
    ensures B.OptionNumber(OPTION_NAME) == Some(1) && B.BootOptionId(OPTION_NAME) == Some(Ascii("01"))
    ensures GoodName(OPTION_NAME)
  {
    OptionShowsPxe();
    hide OptionData, B.ParseBootOptionName;
    assert OPTION_NAME[9..11] == Ascii("01");
  }

  /** A store with one boot option and a one-time entry for it, and a user who asked for the network once. */
  function Armed(): World {
    World([Entry(OPTION_NAME, OptionData()), Entry(B.BOOT_NEXT, B.EncodeOption(1))], None,
          Settings(B.Regular, B.Network, true), 0, map[], {})
  }

  lemma ArmedIsGood()
    ensures Inv(Armed()) && Consumes(Armed(), Delete(B.BOOT_NEXT))
    ensures SerializedSize(Armed().entries) == 108 && |Lookup(Armed().entries, B.BOOT_NEXT).value.data| == 2
  {
    OptionIsPxe();
    OwnNamesAreNoOptions();
    B.OwnNames();
    hide OptionData, B.EncodeOption, B.OptionNumber, B.BootOptionId, B.ParseBootOptionName;
    var es := Armed().entries;
    assert es == [es[0]] + [es[1]];
    assert SerializedSize([es[1]]) == SerializedSize([]) + ENTRY_OVERHEAD + 2;
    assert es[1..] == [es[1]];
    LookupCons(es[0], [es[1]], B.BOOT_NEXT);
    assert [es[1]] == [es[1]] + [];
    LookupCons(es[1], [], B.BOOT_NEXT);
  }

  lemma NetworkResolves()
    ensures ResolveTarget(Armed().entries, B.Network, B.Regular).Some?
  {
    OptionIsPxe();
    OwnNamesAreNoOptions();
    hide OptionData, B.EncodeOption, B.OptionNumber, B.BootOptionId, B.ParseBootOptionName, Ours;
    var es := Armed().entries;
    var option := B.BootOption(1, PXE);
    assert es == [es[0]] + [es[1]];
    OptionsCons(es[0], [es[1]]);
    assert [es[1]] == [es[1]] + [];
    OptionsCons(es[1], []);
    assert Options([]) == [];
    assert Options(es) == [option];
    var keywords := B.Keywords(B.Network, B.Regular);
    assert keywords[1] == PXE;
    assert B.OccursAt(PXE, PXE, 0);
    var i, j := B.MatchIsBest(Options(es), keywords);
    assert B.Contains(Options(es)[0].name, keywords[1]);
  }

  /** The host deletes CQTBOOTNEXT; only the save fails, or only the enabled flag cannot be read, or only it cannot be
      cleared together with the source: in each case the next signal arms the entry again. With nothing failing it
      does not. */
  lemma RearmsForOneFailure()
    ensures forall io | io in {FINE.(save := NotWritten), FINE.(readEnabled := false),
                               FINE.(writeEnabled := false, writeSource := false)} ::
      Has(SyncEffective(Execute(Armed(), Delete(B.BOOT_NEXT), io).0, FINE).entries, B.BOOT_NEXT)
    ensures !Has(SyncEffective(Execute(Armed(), Delete(B.BOOT_NEXT), FINE).0, FINE).entries, B.BOOT_NEXT)
  {
    ArmedIsGood();
    NetworkResolves();
    hide Inv, SerializedSize, Lookup, Execute, SyncEffective, Consumes, ResolveTarget, Has;
    assert Armed().settings == Settings(B.Regular, B.Network, true);
    RearmsExactlyWhen(Armed(), Delete(B.BOOT_NEXT), FINE.(save := NotWritten), FINE);
    RearmsExactlyWhen(Armed(), Delete(B.BOOT_NEXT), FINE.(readEnabled := false), FINE);
    RearmsExactlyWhen(Armed(), Delete(B.BOOT_NEXT), FINE.(writeEnabled := false, writeSource := false), FINE);
    RearmsExactlyWhen(Armed(), Delete(B.BOOT_NEXT), FINE, FINE);
  }

  /** A first boot option whose save fails is in the store and missing from the table. */
  lemma UnsavedOptionIsMissing(settings: Settings)
    ensures var w, r := Fresh(settings, 0, map[]), Set(OPTION_NAME, OptionData());
      TableMatches(w) && !TableMatches(Execute(w, r, FINE.(save := NotWritten)).0)
  {
    var w, r := Fresh(settings, 0, map[]), Set(OPTION_NAME, OptionData());
    FreshHoldsAll(settings, 0, map[]);
    FirstOptionIsShown();
    hide TableMatches, Execute, LeavesShown, OptionData;
    UnsavedChange(w, r, FINE.(save := NotWritten));
  }

  lemma FirstOptionIsShown()
    ensures !LeavesShown([], Set(OPTION_NAME, OptionData()))
  {
    OptionIsPxe();
    NothingDisplayed(Ascii("01"));
    LookupNone(OPTION_NAME);
    hide OptionData, B.BootOptionId, B.ParseBootOptionName, Lookup, Display;
    assert SetEntries([], OPTION_NAME, OptionData()).Some?;
    hide SetEntries;
    assert Front([], OPTION_NAME) == [] && Back([], OPTION_NAME) == [];
  }

  /** A table that cannot be read when the store is cleared is written back without another provider's attribute. */
  lemma UnreadTableLosesAttribute(settings: Settings, key: Data, attribute: Attribute)
    ensures key !in Execute(Fresh(settings, 0, map[key := attribute]), DeleteAll, FINE.(readTable := false)).0.table
  {
    hide FileAfter;
    OwnNamesAreNoOptions();
    assert Ours([]) == map[];
  }

  /** The table of a store whose only boot option displays "PXE". */
  function Published(settings: Settings): World {
    World([Entry(OPTION_NAME, OptionData())], None, settings, 0,
          map[BOOT_KEY_PREFIX + Ascii("01") := BootAttribute(PXE)], {BOOT_KEY_PREFIX + Ascii("01")})
  }

  lemma PublishedMatches(settings: Settings)
    ensures TableMatches(Published(settings))
    ensures Ours(Published(settings).entries) == map[BOOT_KEY_PREFIX + Ascii("01") := BootAttribute(PXE)]
    ensures DelEntries(Published(settings).entries, OPTION_NAME) == Some([])
  {
    OptionIsPxe();
    hide OptionData, B.BootOptionId, B.ParseBootOptionName, B.OptionNumber;
    var e := Entry(OPTION_NAME, OptionData());
    assert [e] == [e] + [];
    OptionsCons(e, []);
    NothingOurs();
    assert [e][..0] + [e][1..] == [];
  }

  lemma FailedDelete(settings: Settings)
    ensures var w := Published(settings); var failed := Execute(w, Delete(OPTION_NAME), FINE.(writeTable := false)).0;
      failed.entries == [] && failed.table == w.table && failed.managed == {}
  {
    hide Execute, TableMatches, Ours, OptionData, DelEntries;
    PublishedMatches(settings);
    OptionNameIsAnnounced();
    UnwrittenDelete(Published(settings), OPTION_NAME, FINE.(writeTable := false));
  }

  lemma OptionNameIsAnnounced()
    ensures B.BOOT_PREFIX <= OPTION_NAME && OPTION_NAME != B.BOOT_NEXT && OPTION_NAME != []
  {
    assert OPTION_NAME[2] != B.BOOT_NEXT[2];
  }

  lemma UnwrittenDelete(w: World, name: Data, io: Io)
    requires DelEntries(w.entries, name) == Some([]) && io.save.Saved? && !io.writeTable
    requires B.BOOT_PREFIX <= name && name != B.BOOT_NEXT && name != []
    ensures var after := Execute(w, Delete(name), io).0;
      after.entries == [] && after.table == w.table && after.managed == {}
  {
    hide Ours, FileAfter, DelEntries, Lookup, ClearOverride, Ascii;
    var stored := w.(entries := [], file := FileAfter(w.file, [], io.save));
    var after := Execute(w, Delete(name), io).0;
    assert after == Publish(stored, io);
    hide Execute;
    NothingManaged(stored, io);
  }

  lemma NothingManaged(w: World, io: Io)
    requires w.entries == []
    ensures Publish(w, io).managed == {}
  {
    NothingOurs();
  }

  lemma ClearedTable(w: World)
    requires w.managed == {}
    ensures Execute(w, DeleteAll, FINE).0.table == w.table
  {
    NothingOurs();
    hide Ours, FileAfter, Lookup, Ascii;
    var base := w.table - {};
    assert base + map[] == w.table;
  }

  /** The host deletes the only option while the table cannot be written: its attribute is still there after the next
      publication, although everything goes well then. */
  lemma StaleOptionStays(settings: Settings)
    ensures var w, key := Published(settings), BOOT_KEY_PREFIX + Ascii("01");
      var failed := Execute(w, Delete(OPTION_NAME), FINE.(writeTable := false)).0;
      TableMatches(w) && key in failed.table && key in Execute(failed, DeleteAll, FINE).0.table
  {
    hide Execute, TableMatches, Ours, OptionData;
    PublishedMatches(settings);
    FailedDelete(settings);
    ClearedTable(Execute(Published(settings), Delete(OPTION_NAME), FINE.(writeTable := false)).0);
  }
}
