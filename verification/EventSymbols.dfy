/** `decode_kevent_fflags` of `event_structs.py`, with the tables of `symbols/kqueue.py`, and exactly
    which words survive it. */
module EventSymbols {
  import opened Prelude
  import opened Text
  import opened Bits
  import opened FlagTables

  // The NOTE_* tables are listed in the order in which `sorted` walks them.
  const NOTE_VNODE_FLAGS: FlagTable :=
    [ Flag(0x1, "NOTE_DELETE"), Flag(0x2, "NOTE_WRITE"), Flag(0x4, "NOTE_EXTEND"), Flag(0x8, "NOTE_ATTRIB"),
      Flag(0x10, "NOTE_LINK"), Flag(0x20, "NOTE_RENAME"), Flag(0x40, "NOTE_REVOKE"), Flag(0x80, "NOTE_NONE") ]

  const NOTE_PROC_FLAGS: FlagTable :=
    [ Flag(0x200_0000, "NOTE_EXIT_DETAIL"), Flag(0x400_0000, "NOTE_EXITSTATUS"), Flag(0x800_0000, "NOTE_SIGNAL"),
      Flag(0x1000_0000, "NOTE_REAP"), Flag(0x2000_0000, "NOTE_EXEC"), Flag(0x4000_0000, "NOTE_FORK"),
      Flag(0x8000_0000, "NOTE_EXIT") ]

  const NOTE_TIMER_FLAGS: FlagTable :=
    [ Flag(0x1, "NOTE_SECONDS"), Flag(0x2, "NOTE_USECONDS"), Flag(0x4, "NOTE_NSECONDS"), Flag(0x8, "NOTE_ABSOLUTE"),
      Flag(0x10, "NOTE_LEEWAY"), Flag(0x20, "NOTE_CRITICAL"), Flag(0x40, "NOTE_BACKGROUND"),
      Flag(0x80, "NOTE_MACH_CONTINUOUS_TIME"), Flag(0x100, "NOTE_MACHTIME") ]

  const NOTE_USER_FLAGS: FlagTable :=
    [ Flag(0, "NOTE_FFNOP"), Flag(0x100_0000, "NOTE_TRIGGER"), Flag(0x4000_0000, "NOTE_FFAND"),
      Flag(0x8000_0000, "NOTE_FFOR"), Flag(0xC000_0000, "NOTE_FFCOPY") ]

  // ---------------------------------------------------------------------------------------------
  // The printer
  // ---------------------------------------------------------------------------------------------

  const EVFILT_VNODE := -4
  const EVFILT_PROC := -5
  const EVFILT_TIMER := -7
  const EVFILT_USER := -10

  function FilterFlags(filter: int): Option<FlagTable> {
    if filter == EVFILT_VNODE then Some(NOTE_VNODE_FLAGS)
    else if filter == EVFILT_PROC then Some(NOTE_PROC_FLAGS)
    else if filter == EVFILT_TIMER then Some(NOTE_TIMER_FLAGS)
    else if filter == EVFILT_USER then Some(NOTE_USER_FLAGS)
    else None
  }

  /** Each of the four filters has its own names; no other filter has any. */
  lemma FilterNames(filter: int)
    ensures FilterFlags(filter).Some? <==> filter in {-4, -5, -7, -10}
    ensures Lookup(FflagsTable(-4), "NOTE_DELETE") == Some(0x1)
    ensures Lookup(FflagsTable(-5), "NOTE_EXIT_DETAIL") == Some(0x200_0000)
    ensures Lookup(FflagsTable(-7), "NOTE_SECONDS") == Some(0x1)
    ensures Lookup(FflagsTable(-10), "NOTE_TRIGGER") == Some(0x100_0000)
  {
  }

  function FflagsText(value: nat, filter: int): string {
    if value == 0 then "0"
    else if FilterFlags(filter).None? then Decimal(value)
    else
      var table := FilterFlags(filter).value;
      if Matching(table, value) != [] && Residue(table, value) == 0 then Join(Names(Matching(table, value)), "|")
      else Decimal(value)
  }

  method DecodeKeventFflags(value: nat, filter: int) returns (text: string)
    ensures text == FflagsText(value, filter)
  {
    if value == 0 {
      return "0";
    }
    match FilterFlags(filter)
    case None =>
      return Decimal(value);
    case Some(table) =>
      var flags, remaining := CollectFlags(table, value);
      if flags != [] && remaining == 0 {
        return Join(flags, "|");
      }
      return Decimal(value);
  }

  // ---------------------------------------------------------------------------------------------
  // The tables
  // ---------------------------------------------------------------------------------------------

  lemma VnodeNames()
    ensures PlainName("NOTE_DELETE") && PlainName("NOTE_WRITE")
    ensures PlainName("NOTE_EXTEND") && PlainName("NOTE_ATTRIB")
    ensures PlainName("NOTE_LINK") && PlainName("NOTE_RENAME")
    ensures PlainName("NOTE_REVOKE") && PlainName("NOTE_NONE")
  {
  }

  lemma VnodePlain()
    ensures PlainNames(NOTE_VNODE_FLAGS)
  {
    VnodeNames();
  }

  lemma VnodeDistinct()
    ensures DistinctNames(NOTE_VNODE_FLAGS)
  {
  }

  lemma ProcNames()
    ensures PlainName("NOTE_EXIT_DETAIL") && PlainName("NOTE_EXITSTATUS")
    ensures PlainName("NOTE_SIGNAL") && PlainName("NOTE_REAP")
    ensures PlainName("NOTE_EXEC") && PlainName("NOTE_FORK")
    ensures PlainName("NOTE_EXIT")
  {
  }

  lemma ProcPlain()
    ensures PlainNames(NOTE_PROC_FLAGS)
  {
    ProcNames();
  }

  lemma ProcDistinct()
    ensures DistinctNames(NOTE_PROC_FLAGS)
  {
  }

  lemma TimerNamesLow()
    ensures PlainName("NOTE_SECONDS") && PlainName("NOTE_USECONDS")
    ensures PlainName("NOTE_NSECONDS") && PlainName("NOTE_ABSOLUTE")
    ensures PlainName("NOTE_LEEWAY")
  {
  }

  lemma TimerNamesHigh()
    ensures PlainName("NOTE_CRITICAL") && PlainName("NOTE_BACKGROUND")
    ensures PlainName("NOTE_MACH_CONTINUOUS_TIME") && PlainName("NOTE_MACHTIME")
  {
  }

  lemma TimerPlain()
    ensures PlainNames(NOTE_TIMER_FLAGS)
  {
    TimerNamesLow();
    TimerNamesHigh();
  }

  lemma TimerDistinct()
    ensures DistinctNames(NOTE_TIMER_FLAGS)
  {
  }

  lemma UserNames()
    ensures PlainName("NOTE_FFNOP") && PlainName("NOTE_TRIGGER")
    ensures PlainName("NOTE_FFAND") && PlainName("NOTE_FFOR")
    ensures PlainName("NOTE_FFCOPY")
  {
  }

  lemma UserPlain()
    ensures PlainNames(NOTE_USER_FLAGS)
  {
    UserNames();
  }

  lemma UserDistinct()
    ensures DistinctNames(NOTE_USER_FLAGS)
  {
  }

  lemma NoteSingleBits()
    ensures SingleBits(NOTE_VNODE_FLAGS) && SingleBits(NOTE_PROC_FLAGS) && SingleBits(NOTE_TIMER_FLAGS)
  {
    PowersOfTwo();
  }

  // ---------------------------------------------------------------------------------------------
  // Which values survive
  // ---------------------------------------------------------------------------------------------

  /** The printed form of a filter flag word is exact unless a flag straddles a word that has no
      unnamed bit. */
  lemma FflagsValue(table: FlagTable, value: nat)
    requires WellNamed(table) && value < TWO_TO_64 && value != 0
    ensures var m := Matching(table, value);
            var text := if m != [] && Residue(table, value) == 0 then Join(Names(m), "|") else Decimal(value);
            ParseFlags(table, text) == Some(value) <==> Covered(table, value) || AndNot(value, Union(table)) != 0
  {
    var m := Matching(table, value);
    ResidueIsUnnamed(table, value);
    if m != [] && Residue(table, value) == 0 {
      NamesValue(table, m);
      if Covered(table, value) {
        UnionOfMatching(table, value);
        forall k: nat ensures TestBit(And(value, Union(table)), k) <==> TestBit(value, k) {
          ZeroBit(k);
          assert !TestBit(AndNot(value, Union(table)), k);
        }
        SameBits(And(value, Union(table)), value);
      } else {
        StraddlerIsKept(table, value);
      }
    } else {
      DecimalAlone(table, value);
      if m == [] {
        MatchingIsEmpty(table, value);
        NothingShared(table, value);
      }
    }
  }

  lemma DecimalAlone(table: FlagTable, value: nat)
    requires value < TWO_TO_64
    ensures ParseFlags(table, Decimal(value)) == Some(value)
  {
    DecimalRoundTrip(value);
    ParseNumberAlone(table, Decimal(value), value);
  }

  lemma NothingShared(table: FlagTable, value: nat)
    requires Matching(table, value) == []
    ensures Covered(table, value)
  {
    forall f | f in table && Shares(value, f.bits) ensures false {
      FilterKeeps((g: Flag) => Shares(value, g.bits), table, f);
    }
  }

  lemma StraddlerIsKept(table: FlagTable, value: nat)
    requires !Covered(table, value)
    ensures Union(Matching(table, value)) != value
  {
    var f :| f in table && Shares(value, f.bits) && And(value, f.bits) != f.bits;
    FilterKeeps((g: Flag) => Shares(value, g.bits), table, f);
    if Union(Matching(table, value)) == value {
      forall k: nat ensures TestBit(And(value, f.bits), k) <==> TestBit(f.bits, k) {
        BitsOfUnion(Matching(table, value), k);
      }
      SameBits(And(value, f.bits), f.bits);
    }
  }

  /** The words of the USER filter that hold one half of `NOTE_FFCOPY` (bits 30 and 31) and no
      unnamed bit. */
  predicate HalfOfCopy(value: nat) {
    value in {0x4000_0000, 0x4100_0000, 0x8000_0000, 0x8100_0000}
  }

  lemma BitsOfUserFlags(k: nat)
    ensures TestBit(Union(NOTE_USER_FLAGS), k) <==> k == 24 || k == 30 || k == 31
  {
    var t := NOTE_USER_FLAGS;
    BitsOfUnion(t, k);
    UserPowers();
    ZeroBit(k);
    BitOfPow2(24, k);
    BitOfPow2(30, k);
    BitOfPow2(31, k);
    BitsOfCopy(k);
    assert t[0] in t && t[1] in t && t[2] in t && t[3] in t && t[4] in t;
  }

  lemma UserPowers()
    ensures Pow2(24) == 0x100_0000 && Pow2(30) == 0x4000_0000 && Pow2(31) == 0x8000_0000
  {
    assert Pow2(8) == 0x100;
    assert Pow2(16) == 0x1_0000;
  }

  lemma BitsOfCopy(k: nat)
    ensures TestBit(0xC000_0000, k) <==> k == 30 || k == 31
  {
    UserPowers();
    assert 0xC000_0000 == 0 + Pow2(30) * 3;
    BitOfConcat(0, 3, 30, k);
    ZeroBit(k);
    if k >= 30 {
      BitsOfThree(k - 30);
    }
  }

  lemma UserCovered(value: nat)
    ensures Covered(NOTE_USER_FLAGS, value) <==> (TestBit(value, 30) <==> TestBit(value, 31))
  {
    PowersOfTwo();
    CoveredButForCopy(NOTE_USER_FLAGS, value);
  }

  lemma CoveredButForCopy(t: FlagTable, value: nat)
    requires |t| == 5 && SingleBits(t[..4]) && t[4].bits == 0xC000_0000
    ensures Covered(t, value) <==> (TestBit(value, 30) <==> TestBit(value, 31))
  {
    SingleBitsCover(t[..4], value);
    CoveredSnoc(t[..4], t[4], value);
    assert t == t[..4] + [t[4]];
    CopyCovered(value);
  }

  lemma CoveredSnoc(t: FlagTable, f: Flag, value: nat)
    ensures Covered(t + [f], value) <==> Covered(t, value) && (Shares(value, f.bits) ==> And(value, f.bits) == f.bits)
  {
    assert (t + [f])[|t|] == f;
    assert forall g :: g in t + [f] <==> g in t || g == f;
  }

  lemma CopyCovered(value: nat)
    ensures (Shares(value, 0xC000_0000) ==> And(value, 0xC000_0000) == 0xC000_0000) <==>
            (TestBit(value, 30) <==> TestBit(value, 31))
  {
    BitsOfCopy(30);
    BitsOfCopy(31);
    if TestBit(value, 30) <==> TestBit(value, 31) {
      CopyIsWhole(value);
    } else {
      SharedBit(value, 0xC000_0000, if TestBit(value, 30) then 30 else 31);
    }
  }

  lemma CopyIsWhole(value: nat)
    requires TestBit(value, 30) <==> TestBit(value, 31)
    ensures Shares(value, 0xC000_0000) ==> And(value, 0xC000_0000) == 0xC000_0000
  {
    if Shares(value, 0xC000_0000) {
      var k := HasBit(And(value, 0xC000_0000));
      forall j: nat ensures TestBit(And(value, 0xC000_0000), j) <==> TestBit(0xC000_0000, j) {
        BitsOfCopy(j);
        BitsOfCopy(k);
      }
      SameBits(And(value, 0xC000_0000), 0xC000_0000);
    }
  }

  lemma HighBits(value: nat)
    ensures TestBit(value, 30) <==> value / 0x4000_0000 % 2 == 1
    ensures TestBit(value, 31) <==> value / 0x8000_0000 % 2 == 1
  {
    UserPowers();
    BitOfQuotient(value, 30);
    BitOfQuotient(value, 31);
  }

  lemma OnlyTrigger(value: nat, k: nat)
    requires AndNot(value, Union(NOTE_USER_FLAGS)) == 0
    ensures TestBit(value % Pow2(30), k) ==> k == 24
  {
    BitOfRemainder(value, 30, k);
    BitsOfUserFlags(k);
    ZeroBit(k);
  }

  /** A word without unnamed bits has nothing but `NOTE_TRIGGER` below bit 30. */
  lemma NamedLowBits(value: nat)
    requires AndNot(value, Union(NOTE_USER_FLAGS)) == 0
    ensures value % Pow2(30) == 0 || value % Pow2(30) == Pow2(24)
  {
    var low := value % Pow2(30);
    if low != 0 {
      var n := HasBit(low);
      OnlyTrigger(value, n);
      forall k: nat ensures TestBit(low, k) <==> TestBit(Pow2(24), k) {
        OnlyTrigger(value, k);
        BitOfPow2(24, k);
      }
      SameBits(low, Pow2(24));
    }
  }

  lemma UnnamedLowBits(value: nat)
    requires value < Pow2(32)
    requires value % Pow2(30) == 0 || value % Pow2(30) == Pow2(24)
    ensures AndNot(value, Union(NOTE_USER_FLAGS)) == 0
  {
    forall k: nat ensures !TestBit(AndNot(value, Union(NOTE_USER_FLAGS)), k) {
      BitsOfUserFlags(k);
      BitOfRemainder(value, 30, k);
      BitOfPow2(24, k);
      ZeroBit(k);
      BitBelow(value, 32, k);
    }
    NoBits(AndNot(value, Union(NOTE_USER_FLAGS)));
  }

  lemma BitBelow(value: nat, n: nat, k: nat)
    requires value < Pow2(n)
    ensures TestBit(value, k) ==> k < n
  {
    BitOfConcat(value, 0, n, k);
    assert value + Pow2(n) * 0 == value;
    if k >= n {
      ZeroBit(k - n);
    }
  }

  lemma HalfOfCopyByParts(value: nat)
    requires value < TWO_TO_32
    ensures (value / 0x4000_0000 % 2 == 1 <==> value / 0x8000_0000 % 2 != 1) && value % 0x4000_0000 in {0, 0x100_0000}
            <==> HalfOfCopy(value)
  {
  }

  lemma UserStraddlers(value: nat)
    requires value < TWO_TO_32
    ensures !Covered(NOTE_USER_FLAGS, value) && AndNot(value, Union(NOTE_USER_FLAGS)) == 0 <==> HalfOfCopy(value)
  {
    UserCovered(value);
    HighBits(value);
    UserPowers();
    assert Pow2(32) == 2 * Pow2(31);
    if AndNot(value, Union(NOTE_USER_FLAGS)) == 0 {
      NamedLowBits(value);
    } else if value % Pow2(30) in {0, Pow2(24)} {
      UnnamedLowBits(value);
    }
    HalfOfCopyByParts(value);
  }

  function FflagsTable(filter: int): FlagTable {
    if FilterFlags(filter).Some? then FilterFlags(filter).value else []
  }

  lemma NoteNames(filter: int)
    ensures WellNamed(FflagsTable(filter))
  {
    VnodePlain(); VnodeDistinct();
    ProcPlain(); ProcDistinct();
    TimerPlain(); TimerDistinct();
    UserPlain(); UserDistinct();
  }

  lemma OtherFiltersCover(value: nat, filter: int)
    requires filter != EVFILT_USER
    ensures Covered(FflagsTable(filter), value)
  {
    OtherFilters(filter);
    SingleBitsCover(FflagsTable(filter), value);
  }

  lemma OtherFilters(filter: int)
    requires filter != EVFILT_USER
    ensures SingleBits(FflagsTable(filter))
  {
    NoteSingleBits();
  }

  /** `decode_kevent_fflags` is exact for every filter and every 32-bit word, except for four words
      of the USER filter, whose two-bit `NOTE_FFCOPY` is printed for half of its bits. */
  lemma FflagsRoundTrip(value: nat, filter: int)
    requires value < TWO_TO_32
    ensures ParseFlags(FflagsTable(filter), FflagsText(value, filter)) == Some(value) <==>
            !(filter == EVFILT_USER && HalfOfCopy(value))
  {
    if value == 0 || FilterFlags(filter).None? {
      DecimalAlone(FflagsTable(filter), value);
    } else {
      NoteNames(filter);
      FflagsOfTable(FflagsTable(filter), value, filter);
      if filter == EVFILT_USER {
        UserStraddlers(value);
      } else {
        OtherFiltersCover(value, filter);
      }
    }
  }

  lemma FflagsOfTable(table: FlagTable, value: nat, filter: int)
    requires 0 < value < TWO_TO_32 && WellNamed(table) && FilterFlags(filter) == Some(table)
    ensures ParseFlags(table, FflagsText(value, filter)) == Some(value) <==>
            Covered(table, value) || AndNot(value, Union(table)) != 0
  {
    FflagsValue(table, value);
  }

  /** The text is symbolic exactly when the table names every set bit. */
  lemma FflagsSymbolic(value: nat, filter: int)
    requires value != 0 && FilterFlags(filter).Some?
    ensures var table := FflagsTable(filter);
            FflagsText(value, filter) ==
            if AndNot(value, Union(table)) == 0 then Join(Names(Matching(table, value)), "|") else Decimal(value)
  {
    var table := FflagsTable(filter);
    ResidueIsUnnamed(table, value);
    MatchingIsEmpty(table, value);
    if AndNot(value, Union(table)) == 0 && And(value, Union(table)) == 0 {
      ZeroHasNoBits();
      forall k: nat ensures !TestBit(value, k) {
        assert TestBit(And(value, Union(table)), k) || TestBit(AndNot(value, Union(table)), k) || !TestBit(value, k);
      }
      NoBits(value);
    }
  }
}
