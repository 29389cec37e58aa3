/** Flag tables, the loop that the flag printers share, and a reader for their output. */
module FlagTables {
  import opened Prelude
  import opened Text
  import opened Bits

  datatype Flag = Flag(bits: nat, name: string)

  type FlagTable = seq<Flag>

  // ---------------------------------------------------------------------------------------------
  // What the printing loops compute
  // ---------------------------------------------------------------------------------------------

  predicate Shares(value: nat, bits: nat) {
    And(value, bits) != 0
  }

  /** The flags that share a bit with `value`, in table order. */
  function Matching(table: FlagTable, value: nat): (fs: FlagTable) {
    Filter((f: Flag) => Shares(value, f.bits), table)
  }

  function Names(fs: FlagTable): seq<string> {
    Map((f: Flag) => f.name, fs)
  }

  /** The OR of a list of masks. */
  function Union(fs: FlagTable): nat {
    if fs == [] then 0 else Or(fs[0].bits, Union(fs[1..]))
  }

  /** `value` with every matching flag cleared. */
  function Residue(table: FlagTable, value: nat): nat {
    AndNot(value, Union(Matching(table, value)))
  }

  lemma {:induction false} UnionAppend(a: FlagTable, b: FlagTable)
    ensures Union(a + b) == Or(Union(a), Union(b))
  {
    if a == [] {
      assert a + b == b;
      OrZero(Union(b));
    } else {
      assert (a + b)[1..] == a[1..] + b;
      UnionAppend(a[1..], b);
      OrAssociates(a[0].bits, Union(a[1..]), Union(b));
    }
  }

  lemma OrAssociates(a: nat, b: nat, c: nat)
    ensures Or(a, Or(b, c)) == Or(Or(a, b), c)
  {
    SameBits(Or(a, Or(b, c)), Or(Or(a, b), c));
  }

  lemma OrZero(a: nat)
    ensures Or(a, 0) == a && Or(0, a) == a
  {
    ZeroHasNoBits();
    SameBits(Or(a, 0), a);
  }

  lemma ClearMore(value: nat, cleared: nat, more: nat)
    ensures AndNot(AndNot(value, cleared), more) == AndNot(value, Or(cleared, more))
  {
    SameBits(AndNot(AndNot(value, cleared), more), AndNot(value, Or(cleared, more)));
  }

  lemma ClearNothing(value: nat)
    ensures AndNot(value, 0) == value
  {
    ZeroHasNoBits();
    SameBits(AndNot(value, 0), value);
  }

  /** One more round of the printing loop. */
  lemma CollectStep(table: FlagTable, i: nat, value: nat)
    requires i < |table|
    ensures var done, next := Matching(table[..i], value), Matching(table[..i + 1], value);
            if Shares(value, table[i].bits) then
              && Names(next) == Names(done) + [table[i].name]
              && AndNot(value, Union(next)) == AndNot(AndNot(value, Union(done)), table[i].bits)
            else next == done
  {
    FilterSnoc((f: Flag) => Shares(value, f.bits), table, i);
    var done := Matching(table[..i], value);
    if Shares(value, table[i].bits) {
      UnionAppend(done, [table[i]]);
      assert Union([table[i]]) == Or(table[i].bits, Union([]));
      OrZero(table[i].bits);
      ClearMore(value, Union(done), table[i].bits);
    }
  }

  /** The loop both residue-tracking printers share:
      `if value & flag: flags.append(name); remaining &= ~flag`. */
  method CollectFlags(table: FlagTable, value: nat) returns (names: seq<string>, remaining: nat)
    ensures names == Names(Matching(table, value))
    ensures remaining == Residue(table, value)
  {
    names, remaining := [], value;
    ClearNothing(value);
    for i := 0 to |table|
      invariant names == Names(Matching(table[..i], value))
      invariant remaining == AndNot(value, Union(Matching(table[..i], value)))
    {
      CollectStep(table, i, value);
      if Shares(value, table[i].bits) {
        names := names + [table[i].name];
        remaining := AndNot(remaining, table[i].bits);
      }
    }
    assert table[..|table|] == table;
  }

  // ---------------------------------------------------------------------------------------------
  // Reading a printed value back
  // ---------------------------------------------------------------------------------------------

  /** The 64-bit pattern of a printed number. */
  function ToBits(v: int): nat {
    v % TWO_TO_64
  }

  function Lookup(table: FlagTable, name: string): Option<nat> {
    if table == [] then None
    else if table[0].name == name then Some(table[0].bits)
    else Lookup(table[1..], name)
  }

  predicate LooksNumeric(s: string) {
    s != "" && (s[0] == '-' || '0' <= s[0] <= '9')
  }

  function ParseTerm(table: FlagTable, s: string): Option<nat> {
    if LooksNumeric(s) then
      var n := ParseNumber(s);
      if n.Some? then Some(ToBits(n.value)) else None
    else
      Lookup(table, s)
  }

  function ParseTerms(table: FlagTable, terms: seq<string>): Option<nat> {
    if terms == [] then Some(0)
    else
      var first, rest := ParseTerm(table, terms[0]), ParseTerms(table, terms[1..]);
      if first.Some? && rest.Some? then Some(Or(first.value, rest.value)) else None
  }

  /** OR together the terms of `NAME|NAME|number`. */
  function ParseFlags(table: FlagTable, text: string): Option<nat> {
    ParseTerms(table, Split(text, '|'))
  }

  /** Names that a reader can tell from numbers and from the separator. */
  predicate PlainNames(table: FlagTable) {
    forall i | 0 <= i < |table| :: PlainName(table[i].name)
  }

  predicate PlainName(name: string) {
    name != "" && forall k | 0 <= k < |name| :: 'A' <= name[k] <= '_'
  }

  predicate DistinctNames(table: FlagTable) {
    forall i, j | 0 <= i < j < |table| :: table[i].name != table[j].name
  }

  predicate WellNamed(table: FlagTable) {
    PlainNames(table) && DistinctNames(table)
  }

  lemma {:induction false} LookupFinds(table: FlagTable, k: nat)
    requires WellNamed(table) && k < |table|
    ensures Lookup(table, table[k].name) == Some(table[k].bits)
  {
    if k > 0 {
      LookupFinds(table[1..], k - 1);
    }
  }

  predicate PartOf(fs: FlagTable, table: FlagTable) {
    forall f | f in fs :: f in table
  }

  lemma {:induction false} ParseNames(table: FlagTable, fs: FlagTable, more: seq<string>)
    requires WellNamed(table) && PartOf(fs, table)
    ensures var rest := ParseTerms(table, more);
            ParseTerms(table, Names(fs) + more) ==
            if rest.Some? then Some(Or(Union(fs), rest.value)) else None
  {
    if fs == [] {
      assert Names(fs) + more == more;
      var rest := ParseTerms(table, more);
      if rest.Some? {
        OrZero(rest.value);
      }
    } else {
      assert fs[0] in table;
      var k :| 0 <= k < |table| && table[k] == fs[0];
      LookupFinds(table, k);
      assert forall f | f in fs[1..] :: f in fs;
      ParseNames(table, fs[1..], more);
      assert (Names(fs) + more)[1..] == Names(fs[1..]) + more;
      var rest := ParseTerms(table, more);
      if rest.Some? {
        OrAssociates(fs[0].bits, Union(fs[1..]), rest.value);
      }
    }
  }

  /** Printing a list of table names, possibly followed by one number, parses to their union. */
  lemma ParseJoined(table: FlagTable, fs: FlagTable, more: seq<string>)
    requires WellNamed(table) && PartOf(fs, table)
    requires fs != [] || more != []
    requires forall t | t in more :: '|' !in t
    ensures var rest := ParseTerms(table, more);
            ParseFlags(table, Join(Names(fs) + more, "|")) ==
            if rest.Some? then Some(Or(Union(fs), rest.value)) else None
  {
    var terms := Names(fs) + more;
    forall t | t in terms ensures '|' !in t {
      if t !in more {
        var i :| 0 <= i < |fs| && t == Names(fs)[i];
        assert fs[i] in table;
      }
    }
    SplitJoin(terms, '|');
    ParseNames(table, fs, more);
  }

  /** A text that is one number parses to that number. */
  lemma ParseNumberAlone(table: FlagTable, text: string, value: nat)
    requires '|' !in text && LooksNumeric(text)
    requires ParseNumber(text).Some? && ToBits(ParseNumber(text).value) == value
    ensures ParseFlags(table, text) == Some(value)
  {
    SplitWhole(text, '|');
    assert ParseTerms(table, [text][1..]) == Some(0);
    OrZero(value);
  }

  // ---------------------------------------------------------------------------------------------
  // Single-bit tables
  // ---------------------------------------------------------------------------------------------

  /** Every flag that shares a bit with a value lies inside it. */
  predicate Covered(table: FlagTable, value: nat) {
    forall f | f in table && Shares(value, f.bits) :: And(value, f.bits) == f.bits
  }

  lemma {:induction false} BitsOfUnion(fs: FlagTable, k: nat)
    ensures TestBit(Union(fs), k) <==> exists f :: f in fs && TestBit(f.bits, k)
  {
    if fs == [] {
      ZeroBit(k);
    } else {
      BitsOfUnion(fs[1..], k);
      assert forall f :: f in fs <==> f == fs[0] || f in fs[1..];
    }
  }

  lemma SharedBit(value: nat, bits: nat, k: nat)
    requires TestBit(value, k) && TestBit(bits, k)
    ensures Shares(value, bits)
  {
    assert TestBit(And(value, bits), k);
    ZeroBit(k);
  }

  /** When no flag straddles `value`, the matching flags make up all its bits that the table names. */
  lemma UnionOfMatching(table: FlagTable, value: nat)
    requires Covered(table, value)
    ensures Union(Matching(table, value)) == And(value, Union(table))
  {
    var u := Union(Matching(table, value));
    forall k: nat ensures TestBit(u, k) <==> TestBit(And(value, Union(table)), k) {
      BitsOfUnion(Matching(table, value), k);
      BitsOfUnion(table, k);
      if TestBit(u, k) {
        var f :| f in Matching(table, value) && TestBit(f.bits, k);
        assert TestBit(And(value, f.bits), k);
      }
      if TestBit(And(value, Union(table)), k) {
        var f :| f in table && TestBit(f.bits, k);
        SharedBit(value, f.bits, k);
        FilterKeeps((g: Flag) => Shares(value, g.bits), table, f);
      }
    }
    SameBits(u, And(value, Union(table)));
  }

  predicate SingleBits(table: FlagTable) {
    forall i | 0 <= i < |table| :: table[i].bits == 0 || IsPow2(table[i].bits)
  }

  lemma SingleBitsCover(table: FlagTable, value: nat)
    requires SingleBits(table)
    ensures Covered(table, value)
  {
    forall f | f in table && Shares(value, f.bits) ensures And(value, f.bits) == f.bits {
      var k := HasBit(And(value, f.bits));
      ZeroBit(k);
      var n := ExponentOf(f.bits);
      BitOfPow2(n, k);
      forall j: nat ensures TestBit(And(value, f.bits), j) <==> TestBit(f.bits, j) {
        BitOfPow2(n, j);
      }
      SameBits(And(value, f.bits), f.bits);
    }
  }

  /** Clearing the matching flags leaves the bits that no flag of the table has. */
  lemma ResidueIsUnnamed(table: FlagTable, value: nat)
    ensures Residue(table, value) == AndNot(value, Union(table))
  {
    forall k: nat ensures TestBit(Residue(table, value), k) <==> TestBit(AndNot(value, Union(table)), k) {
      BitsOfUnion(Matching(table, value), k);
      BitsOfUnion(table, k);
      if TestBit(value, k) && TestBit(Union(table), k) {
        var f :| f in table && TestBit(f.bits, k);
        SharedBit(value, f.bits, k);
        FilterKeeps((g: Flag) => Shares(value, g.bits), table, f);
      }
    }
    SameBits(Residue(table, value), AndNot(value, Union(table)));
  }

  lemma MatchingIsEmpty(table: FlagTable, value: nat)
    ensures Matching(table, value) == [] <==> And(value, Union(table)) == 0
  {
    var m := Matching(table, value);
    if m != [] {
      assert m[0] in m && Shares(value, m[0].bits);
      var k := HasBit(And(value, m[0].bits));
      BitsOfUnion(table, k);
      ZeroBit(k);
    } else if And(value, Union(table)) != 0 {
      var k := HasBit(And(value, Union(table)));
      BitsOfUnion(table, k);
      var f :| f in table && TestBit(f.bits, k);
      SharedBit(value, f.bits, k);
      FilterKeeps((g: Flag) => Shares(value, g.bits), table, f);
    }
  }

  /** `"|".join(parts) if parts else hex(value)` */
  function JoinOrHex(parts: seq<string>, value: u64): string {
    if parts != [] then Join(parts, "|") else Hex(ToSigned(value))
  }

  // ---------------------------------------------------------------------------------------------
  // Facts about literal tables
  // ---------------------------------------------------------------------------------------------

  /** Distinctness of a longer table, block by block. */
  predicate ApartFrom(table: FlagTable, lo: nat, mid: nat, hi: nat) {
    mid <= hi <= |table| && forall i, j | lo <= i < mid <= j < hi :: table[i].name != table[j].name
  }

  predicate DistinctFrom(table: FlagTable, lo: nat, hi: nat) {
    hi <= |table| && forall i, j | lo <= i < j < hi :: table[i].name != table[j].name
  }

  lemma DistinctBlocks(table: FlagTable, mid: nat)
    requires mid <= |table|
    requires DistinctFrom(table, 0, mid) && DistinctFrom(table, mid, |table|) && ApartFrom(table, 0, mid, |table|)
    ensures DistinctNames(table)
  {
  }

  lemma PowersOfTwo()
    ensures IsPow2(0x1) && IsPow2(0x2) && IsPow2(0x4) && IsPow2(0x8)
    ensures IsPow2(0x10) && IsPow2(0x20) && IsPow2(0x40) && IsPow2(0x80)
    ensures IsPow2(0x100) && IsPow2(0x200) && IsPow2(0x400) && IsPow2(0x800) && IsPow2(0x1000)
    ensures IsPow2(0x8000) && IsPow2(0x2_0000) && IsPow2(0x10_0000) && IsPow2(0x20_0000) && IsPow2(0x40_0000)
    ensures IsPow2(0x100_0000) && IsPow2(0x200_0000) && IsPow2(0x400_0000) && IsPow2(0x800_0000)
    ensures IsPow2(0x1000_0000) && IsPow2(0x2000_0000) && IsPow2(0x4000_0000) && IsPow2(0x8000_0000)
  {
  }

  lemma HexAlone(table: FlagTable, value: u64)
    ensures ParseFlags(table, Hex(ToSigned(value))) == Some(value)
  {
    HexRoundTrip(ToSigned(value));
    ParseNumberAlone(table, Hex(ToSigned(value)), value);
  }

  lemma NamesValue(table: FlagTable, fs: FlagTable)
    requires WellNamed(table) && PartOf(fs, table) && fs != []
    ensures ParseFlags(table, Join(Names(fs), "|")) == Some(Union(fs))
  {
    assert Names(fs) + [] == Names(fs);
    ParseJoined(table, fs, []);
    OrZero(Union(fs));
  }

  lemma BitsOfThree(k: nat)
    ensures TestBit(3, k) <==> k < 2
  {
    BitOfOnes(2, k);
    assert Pow2(2) == 4;
  }
}
