/** `symbols/file.py`: the printer of `open` flags, and exactly which values survive it. */
module FileSymbols {
  import opened Prelude
  import opened Bits
  import opened FlagTables

  const O_FLAGS: FlagTable :=
    [ Flag(0x0, "O_RDONLY"), Flag(0x1, "O_WRONLY"), Flag(0x2, "O_RDWR"),
      Flag(0x8, "O_APPEND"), Flag(0x200, "O_CREAT"), Flag(0x400, "O_TRUNC"), Flag(0x800, "O_EXCL"),
      Flag(0x4, "O_NONBLOCK"), Flag(0x40, "O_ASYNC"), Flag(0x80, "O_SYNC"), Flag(0x100, "O_NOFOLLOW"),
      Flag(0x10, "O_SHLOCK"), Flag(0x20, "O_EXLOCK"), Flag(0x8000, "O_EVTONLY"),
      Flag(0x2_0000, "O_NOCTTY"), Flag(0x10_0000, "O_DIRECTORY"), Flag(0x20_0000, "O_SYMLINK"),
      Flag(0x40_0000, "O_DSYNC"), Flag(0x100_0000, "O_CLOEXEC"), Flag(0x2000_0000, "O_NOFOLLOW_ANY"),
      Flag(0x4000_0000, "O_EXEC") ]

  /** A flag above the two access mode bits that shares a bit with `remaining`. */
  predicate IsStatus(remaining: nat, f: Flag) {
    f.bits > 3 && Shares(remaining, f.bits)
  }

  /** The entry of the access mode, if it has one, then the status flags above it. */
  function OpenFlags(table: FlagTable, value: nat): FlagTable {
    Filter((f: Flag) => f.bits == And(value, 3), table) + Filter((f: Flag) => IsStatus(AndNot(value, 3), f), table)
  }

  function OpenText(value: u64): string {
    if value == 0 then "O_RDONLY" else JoinOrHex(Names(OpenFlags(O_FLAGS, value)), value)
  }

  method CollectOpenFlags(table: FlagTable, value: nat) returns (flags: seq<string>)
    ensures flags == Names(OpenFlags(table, value))
  {
    var access := Filter((f: Flag) => f.bits == And(value, 3), table);
    flags := Names(access);
    var remaining := AndNot(value, 3);
    ghost var p := (f: Flag) => IsStatus(remaining, f);
    for i := 0 to |table|
      invariant flags == Names(access + Filter(p, table[..i]))
    {
      FilterSnoc(p, table, i);
      if table[i].bits <= 3 {
        continue;
      }
      if Shares(remaining, table[i].bits) {
        flags := flags + [table[i].name];
      }
    }
    assert table[..|table|] == table;
  }

  method DecodeOpenFlags(value: u64) returns (text: string)
    ensures text == OpenText(value)
  {
    if value == 0 {
      return "O_RDONLY";
    }
    var flags := CollectOpenFlags(O_FLAGS, value);
    text := JoinOrHex(flags, value);
  }

  // ---------------------------------------------------------------------------------------------
  // The table
  // ---------------------------------------------------------------------------------------------

  lemma OpenNamesLow()
    ensures PlainName("O_RDONLY") && PlainName("O_WRONLY")
    ensures PlainName("O_RDWR") && PlainName("O_APPEND")
    ensures PlainName("O_CREAT") && PlainName("O_TRUNC")
    ensures PlainName("O_EXCL") && PlainName("O_NONBLOCK")
    ensures PlainName("O_ASYNC") && PlainName("O_SYNC")
  {
  }

  lemma OpenNamesHigh()
    ensures PlainName("O_NOFOLLOW") && PlainName("O_SHLOCK")
    ensures PlainName("O_EXLOCK") && PlainName("O_EVTONLY")
    ensures PlainName("O_NOCTTY") && PlainName("O_DIRECTORY")
    ensures PlainName("O_SYMLINK") && PlainName("O_DSYNC")
    ensures PlainName("O_CLOEXEC") && PlainName("O_NOFOLLOW_ANY")
    ensures PlainName("O_EXEC")
  {
  }

  lemma OpenPlain()
    ensures PlainNames(O_FLAGS)
  {
    OpenNamesLow();
    OpenNamesHigh();
  }

  lemma OpenDistinctLow()
    ensures DistinctFrom(O_FLAGS, 0, 10)
  {
  }

  lemma OpenDistinctHigh()
    ensures DistinctFrom(O_FLAGS, 10, 21)
  {
  }

  lemma OpenApart()
    ensures ApartFrom(O_FLAGS, 0, 10, 21)
  {
  }

  lemma OpenDistinct()
    ensures DistinctNames(O_FLAGS)
  {
    OpenDistinctLow();
    OpenDistinctHigh();
    OpenApart();
    DistinctBlocks(O_FLAGS, 10);
  }

  lemma OpenSingleBits()
    ensures SingleBits(O_FLAGS)
  {
    PowersOfTwo();
  }

  // ---------------------------------------------------------------------------------------------
  // Which values survive
  // ---------------------------------------------------------------------------------------------

  /** A table that has an entry for each access mode, and none for the unassigned mode 3. */
  predicate HasAccessModes(table: FlagTable) {
    && |table| >= 3 && table[0].bits == 0 && table[1].bits == 1 && table[2].bits == 2
    && forall i | 0 <= i < |table| :: table[i].bits != 3
  }

  lemma BigSingleBit(bits: nat, k: nat)
    requires IsPow2(bits) && TestBit(bits, k) && k >= 2
    ensures bits > 3
  {
    var n := ExponentOf(bits);
    BitOfPow2(n, k);
    assert Pow2(n) == 2 * Pow2(n - 1) && Pow2(n - 1) == 2 * Pow2(n - 2);
  }

  /** The printed status flags are the bits above the access mode that the table names. */
  lemma StatusValue(table: FlagTable, value: nat)
    requires SingleBits(table)
    ensures Union(Filter((f: Flag) => IsStatus(AndNot(value, 3), f), table)) == And(AndNot(value, 3), Union(table))
  {
    var rest := AndNot(value, 3);
    var status := Filter((f: Flag) => IsStatus(rest, f), table);
    SingleBitsCover(table, rest);
    forall k: nat ensures TestBit(Union(status), k) <==> TestBit(And(rest, Union(table)), k) {
      BitsOfUnion(status, k);
      BitsOfUnion(table, k);
      if TestBit(Union(status), k) {
        var f :| f in status && TestBit(f.bits, k);
        assert TestBit(And(rest, f.bits), k);
      }
      if TestBit(rest, k) && TestBit(Union(table), k) {
        var f :| f in table && TestBit(f.bits, k);
        BitsOfThree(k);
        ZeroBit(k);
        BigSingleBit(f.bits, k);
        SharedBit(rest, f.bits, k);
        FilterKeeps((g: Flag) => IsStatus(rest, g), table, f);
      }
    }
    SameBits(Union(status), And(rest, Union(table)));
  }

  lemma StatusIsEmpty(table: FlagTable, value: nat)
    requires SingleBits(table)
    ensures Filter((f: Flag) => IsStatus(AndNot(value, 3), f), table) == [] <==>
            And(AndNot(value, 3), Union(table)) == 0
  {
    var rest := AndNot(value, 3);
    var status := Filter((f: Flag) => IsStatus(rest, f), table);
    StatusValue(table, value);
    if status != [] {
      assert status[0] in status;
      var k := HasBit(And(rest, status[0].bits));
      BitsOfUnion(status, k);
      ZeroBit(k);
    }
  }

  /** All entries of one access mode have its bits. */
  lemma {:induction false} UnionOfEqual(fs: FlagTable, mode: nat)
    requires forall f | f in fs :: f.bits == mode
    ensures Union(fs) == if fs == [] then 0 else mode
  {
    if fs != [] {
      assert forall f | f in fs[1..] :: f in fs;
      UnionOfEqual(fs[1..], mode);
      SameBits(Or(mode, mode), mode);
      OrZero(mode);
    }
  }

  lemma AccessValue(table: FlagTable, mode: nat)
    requires HasAccessModes(table) && mode < 4
    ensures var access := Filter((f: Flag) => f.bits == mode, table);
            Union(access) == (if mode == 3 then 0 else mode) && (access == [] <==> mode == 3)
  {
    var p := (f: Flag) => f.bits == mode;
    UnionOfEqual(Filter(p, table), mode);
    if mode < 3 {
      FilterKeeps(p, table, table[mode]);
    } else {
      assert forall f | f in Filter(p, table) :: f in table && f.bits == 3;
    }
  }

  /** What is left of a value when it is printed by the table and read back. */
  lemma OpenValue(table: FlagTable, value: u64)
    requires WellNamed(table) && SingleBits(table) && HasAccessModes(table)
    ensures var mode, status := And(value, 3), And(AndNot(value, 3), Union(table));
            ParseFlags(table, JoinOrHex(Names(OpenFlags(table, value)), value)) ==
            Some(if mode != 3 then Or(mode, status) else if status == 0 then value else status)
  {
    var mode, status := And(value, 3), And(AndNot(value, 3), Union(table));
    AndOnes(value, 2);
    assert Pow2(2) == 4;
    AccessValue(table, mode);
    StatusValue(table, value);
    StatusIsEmpty(table, value);
    UnionAppend(Filter((f: Flag) => f.bits == mode, table),
                Filter((f: Flag) => IsStatus(AndNot(value, 3), f), table));
    OrZero(status);
    if OpenFlags(table, value) == [] {
      HexAlone(table, value);
    } else {
      NamesValue(table, OpenFlags(table, value));
    }
  }

  /** The values `decode_open_flags` prints without loss. */
  predicate OpenIsExact(table: FlagTable, value: nat) {
    if And(value, 3) == 3 then And(AndNot(value, 3), Union(table)) == 0 else AndNot(value, Union(table)) == 0
  }

  lemma OpenExactness(table: FlagTable, value: nat)
    requires HasAccessModes(table)
    ensures var mode, status := And(value, 3), And(AndNot(value, 3), Union(table));
            (if mode != 3 then Or(mode, status) else if status == 0 then value else status) == value <==>
            OpenIsExact(table, value)
  {
    var mode, status := And(value, 3), And(AndNot(value, 3), Union(table));
    BitsOfThree(0);
    if mode == 3 {
      assert TestBit(mode, 0) && !TestBit(status, 0);
    } else {
      AccessBitsAreNamed(table);
      if OpenIsExact(table, value) {
        ZeroHasNoBits();
        forall k: nat ensures TestBit(Or(mode, status), k) <==> TestBit(value, k) {
          assert !TestBit(AndNot(value, Union(table)), k);
        }
        SameBits(Or(mode, status), value);
      }
      if Or(mode, status) == value {
        forall k: nat ensures !TestBit(AndNot(value, Union(table)), k) {
          BitsOfThree(k);
        }
        NoBits(AndNot(value, Union(table)));
      }
    }
  }

  lemma AccessBitsAreNamed(table: FlagTable)
    requires HasAccessModes(table)
    ensures TestBit(Union(table), 0) && TestBit(Union(table), 1)
  {
    BitsOfUnion(table, 0);
    BitsOfUnion(table, 1);
    assert table[1] in table && table[2] in table;
    assert TestBit(1, 0) && TestBit(2, 1);
  }

  /** `decode_open_flags` re-encodes exactly: every value with an assigned access mode and no unknown
      bit, and every value of access mode 3 that holds no known flag at all. */
  lemma OpenRoundTrip(value: u64)
    ensures ParseFlags(O_FLAGS, OpenText(value)) == Some(value) <==> OpenIsExact(O_FLAGS, value)
  {
    OpenTable();
    if value == 0 {
      OpenZero(O_FLAGS);
    } else {
      OpenRoundTripOf(O_FLAGS, value);
    }
  }

  lemma OpenTable()
    ensures WellNamed(O_FLAGS) && SingleBits(O_FLAGS) && HasAccessModes(O_FLAGS)
  {
    OpenPlain();
    OpenDistinct();
    OpenSingleBits();
  }

  lemma OpenRoundTripOf(table: FlagTable, value: u64)
    requires WellNamed(table) && SingleBits(table) && HasAccessModes(table)
    ensures ParseFlags(table, JoinOrHex(Names(OpenFlags(table, value)), value)) == Some(value) <==>
            OpenIsExact(table, value)
  {
    OpenExactness(table, value);
    OpenValue(table, value);
  }

  lemma OpenZero(table: FlagTable)
    requires WellNamed(table) && |table| > 0 && table[0] == Flag(0, "O_RDONLY")
    ensures ParseFlags(table, "O_RDONLY") == Some(0)
    ensures OpenIsExact(table, 0)
  {
    NamesValue(table, [table[0]]);
    assert Names([table[0]]) == ["O_RDONLY"];
    OrZero(0);
    assert Union([table[0]]) == Or(0, Union([]));
  }
}
