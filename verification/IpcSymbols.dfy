/** `symbols/ipc.py`: the printer of IPC flags, and exactly which values survive it. */
module IpcSymbols {
  import opened Prelude
  import opened Text
  import opened Bits
  import opened FlagTables

  const IPC_FLAGS: FlagTable :=
    [ Flag(0x200, "IPC_CREAT"), Flag(0x400, "IPC_EXCL"), Flag(0x800, "IPC_NOWAIT"),
      Flag(0x100, "IPC_R"), Flag(0x80, "IPC_W"), Flag(0x1000, "IPC_M") ]

  /** The names of the matching flags, then what is left of the nine permission bits in octal. */
  function NamesAndMode(table: FlagTable, value: nat): seq<string> {
    Names(Matching(table, value)) + ModeTerm(And(Residue(table, value), 0x1FF))
  }

  function ModeTerm(mode: nat): seq<string> {
    if mode != 0 then ["0" + Digits(mode, 8)] else []
  }

  function IpcText(value: u64): string {
    if value == 0 then "0" else JoinOrHex(NamesAndMode(IPC_FLAGS, value), value)
  }

  method CollectNamesAndMode(table: FlagTable, value: nat) returns (flags: seq<string>)
    ensures flags == NamesAndMode(table, value)
  {
    var remaining;
    flags, remaining := CollectFlags(table, value);
    if And(remaining, 0x1FF) != 0 {
      flags := flags + ["0" + Digits(And(remaining, 0x1FF), 8)];
    }
  }

  method DecodeIpcFlags(value: u64) returns (text: string)
    ensures text == IpcText(value)
  {
    if value == 0 {
      return "0";
    }
    var flags := CollectNamesAndMode(IPC_FLAGS, value);
    text := JoinOrHex(flags, value);
  }

  // ---------------------------------------------------------------------------------------------
  // The table
  // ---------------------------------------------------------------------------------------------

  lemma IpcNames()
    ensures PlainName("IPC_CREAT") && PlainName("IPC_EXCL")
    ensures PlainName("IPC_NOWAIT") && PlainName("IPC_R")
    ensures PlainName("IPC_W") && PlainName("IPC_M")
  {
  }

  lemma IpcPlain()
    ensures PlainNames(IPC_FLAGS)
  {
    IpcNames();
  }

  lemma IpcDistinct()
    ensures DistinctNames(IPC_FLAGS)
  {
  }

  lemma IpcSingleBits()
    ensures SingleBits(IPC_FLAGS)
  {
    PowersOfTwo();
  }

  // ---------------------------------------------------------------------------------------------
  // Which values survive
  // ---------------------------------------------------------------------------------------------

  /** The bits that the table or the mode covers are the named ones and the mode bits left over. */
  lemma NamedOrMode(table: FlagTable, value: nat)
    ensures And(value, Or(Union(table), 0x1FF)) == Or(And(value, Union(table)), And(Residue(table, value), 0x1FF))
  {
    ResidueIsUnnamed(table, value);
    var known := And(value, Or(Union(table), 0x1FF));
    var parts := Or(And(value, Union(table)), And(AndNot(value, Union(table)), 0x1FF));
    assert forall k: nat :: TestBit(known, k) <==> TestBit(parts, k);
    SameBits(known, parts);
  }

  /** The text of a residue-tracking printer stands for the bits that the table or the mode covers;
      it is a hexadecimal number exactly when there are none. */
  lemma NamesAndModeValue(table: FlagTable, value: u64)
    requires WellNamed(table) && SingleBits(table)
    ensures var known := And(value, Or(Union(table), 0x1FF));
            ParseFlags(table, JoinOrHex(NamesAndMode(table, value), value)) ==
            Some(if known == 0 then value else known)
  {
    var named, mode := And(value, Union(table)), And(Residue(table, value), 0x1FF);
    SingleBitsCover(table, value);
    UnionOfMatching(table, value);
    MatchingIsEmpty(table, value);
    NamedOrMode(table, value);
    OrIsZero(named, mode);
    if NamesAndMode(table, value) == [] {
      HexAlone(table, value);
    } else {
      NineBits(Residue(table, value));
      ModeTermValue(table, mode);
      ParseJoined(table, Matching(table, value), ModeTerm(mode));
    }
  }

  lemma OrIsZero(a: nat, b: nat)
    ensures Or(a, b) == 0 <==> a == 0 && b == 0
  {
    ZeroHasNoBits();
    if a + b != 0 {
      var k := HasBit(if a != 0 then a else b);
      assert TestBit(Or(a, b), k);
    } else {
      OrZero(0);
    }
  }

  lemma NineBits(v: nat)
    ensures And(v, 0x1FF) < 0x200
  {
    assert Pow2(9) == 0x200;
    AndOnes(v, 9);
  }

  lemma ModeTermValue(table: FlagTable, mode: nat)
    requires mode < TWO_TO_64
    ensures ParseTerms(table, ModeTerm(mode)) == Some(mode)
    ensures forall t | t in ModeTerm(mode) :: '|' !in t
  {
    if mode != 0 {
      OctalRoundTrip(mode);
      OneNumber(table, "0" + Digits(mode, 8), mode);
    }
  }

  lemma OneNumber(table: FlagTable, t: string, n: nat)
    requires n < TWO_TO_64 && LooksNumeric(t) && ParseNumber(t) == Some(n)
    ensures ParseTerms(table, [t]) == Some(n)
  {
    assert [t][1..] == [];
    assert ParseTerm(table, t) == Some(n);
    OrZero(n);
  }

  /** The union of single bits has just these bits. */
  lemma {:induction false} BitsOfSingles(table: FlagTable, exponents: seq<nat>, k: nat)
    requires |table| == |exponents|
    requires forall i | 0 <= i < |table| :: table[i].bits == Pow2(exponents[i])
    ensures TestBit(Union(table), k) <==> k in exponents
  {
    if table == [] {
      ZeroBit(k);
    } else {
      BitOfPow2(exponents[0], k);
      BitsOfSingles(table[1..], exponents[1..], k);
      assert exponents == [exponents[0]] + exponents[1..];
    }
  }

  lemma IpcExponents()
    ensures Pow2(7) == 0x80 && Pow2(8) == 0x100 && Pow2(9) == 0x200
    ensures Pow2(10) == 0x400 && Pow2(11) == 0x800 && Pow2(12) == 0x1000 && Pow2(13) == 0x2000
  {
  }

  const IPC_EXPONENTS: seq<nat> := [9, 10, 11, 8, 7, 12]

  lemma IpcExponentRange(k: nat)
    ensures k in IPC_EXPONENTS <==> 7 <= k < 13
  {
    assert IPC_EXPONENTS[0] == 9 && IPC_EXPONENTS[1] == 10 && IPC_EXPONENTS[2] == 11;
    assert IPC_EXPONENTS[3] == 8 && IPC_EXPONENTS[4] == 7 && IPC_EXPONENTS[5] == 12;
  }

  lemma IpcBits(k: nat)
    ensures TestBit(Union(IPC_FLAGS), k) <==> k in IPC_EXPONENTS
  {
    IpcExponents();
    BitsOfSingles(IPC_FLAGS, IPC_EXPONENTS, k);
  }

  lemma MaskIsOnes(mask: nat, n: nat)
    requires forall k: nat :: TestBit(mask, k) <==> k < n
    ensures mask == Pow2(n) - 1
  {
    forall k: nat ensures TestBit(mask, k) <==> TestBit(Pow2(n) - 1, k) {
      BitOfOnes(n, k);
    }
    SameBits(mask, Pow2(n) - 1);
  }

  lemma IpcMask()
    ensures Or(Union(IPC_FLAGS), 0x1FF) == 0x1FFF
  {
    IpcExponents();
    var named, low := Union(IPC_FLAGS), Pow2(9) - 1;
    forall k: nat ensures TestBit(Or(named, low), k) <==> k < 13 {
      IpcBits(k);
      IpcExponentRange(k);
      BitOfOnes(9, k);
    }
    MaskIsOnes(Or(named, low), 13);
  }

  lemma IpcKnownPart(value: nat)
    ensures And(value, Or(Union(IPC_FLAGS), 0x1FF)) == value % 0x2000
  {
    IpcMask();
    Low13(value);
  }

  lemma Low13(value: nat)
    ensures And(value, 0x1FFF) == value % 0x2000
  {
    IpcExponents();
    AndOnes(value, 13);
  }

  /** A value whose printed part is its remainder by `bound` survives exactly when nothing or
      everything of it is printed. */
  lemma RoundTripByRemainder(value: u64, printed: nat, bound: nat)
    requires bound == 0x2000 && printed == value % bound
    ensures (if printed == 0 then value else printed) == value <==> value < bound || value % bound == 0
  {
  }

  /** `decode_ipc_flags` is exact on 0..0x1FFF and on the multiples of 0x2000, and on nothing else:
      a higher bit is lost as soon as a known one is printed. */
  lemma IpcRoundTrip(value: u64)
    ensures ParseFlags(IPC_FLAGS, IpcText(value)) == Some(value) <==> value < 0x2000 || value % 0x2000 == 0
  {
    if value == 0 {
      ParseNumberAlone(IPC_FLAGS, "0", 0);
    } else {
      IpcTextValue(value);
      RoundTripByRemainder(value, value % 0x2000, 0x2000);
    }
  }

  lemma IpcTextValue(value: u64)
    requires value != 0
    ensures var printed := value % 0x2000;
            ParseFlags(IPC_FLAGS, IpcText(value)) == Some(if printed == 0 then value else printed)
  {
    IpcPlain();
    IpcDistinct();
    IpcSingleBits();
    NamesAndModeValue(IPC_FLAGS, value);
    IpcKnownPart(value);
  }
}
