/** Shared vocabulary: options, bytes, 64-bit words, debuggee memory and little-endian integers. */
module Prelude {

  datatype Option<+T> = None | Some(value: T)

  const TWO_TO_32: int := 0x1_0000_0000
  const TWO_TO_63: int := 0x8000_0000_0000_0000
  const TWO_TO_64: int := 0x1_0000_0000_0000_0000

  type byte = b: int | 0 <= b < 256

  /** The unsigned value of a 64-bit register. */
  type u64 = w: int | 0 <= w < TWO_TO_64

  /** Memory of the traced process: unmapped addresses are absent. */
  type Memory = map<int, byte>

  predicate Readable(mem: Memory, addr: int, n: nat) {
    forall a | addr <= a < addr + n :: a in mem
  }

  function Block(mem: Memory, addr: int, n: nat): (block: seq<byte>)
    requires Readable(mem, addr, n)
    ensures |block| == n
    ensures forall i | 0 <= i < n :: addr + i in mem && block[i] == mem[addr + i]
  {
    seq(n, i requires 0 <= i < n && addr + i in mem => mem[addr + i])
  }

  lemma BlockCons(mem: Memory, addr: int, n: nat)
    requires n > 0 && Readable(mem, addr, n)
    ensures Block(mem, addr, n) == [mem[addr]] + Block(mem, addr + 1, n - 1)
  {
  }

  /** `ReadMemory` of the debugger: it fails (an empty read is a failure too), or returns exactly
      the `n` bytes asked for. */
  function ReadMemory(mem: Memory, addr: int, n: nat): (r: Option<seq<byte>>)
    ensures r.Some? <==> n > 0 && Readable(mem, addr, n)
    ensures r.Some? ==> |r.value| == n
  {
    if n > 0 && Readable(mem, addr, n) then Some(Block(mem, addr, n)) else None
  }

  function Pow2(n: nat): (p: nat)
    ensures p > 0
  {
    if n == 0 then 1 else 2 * Pow2(n - 1)
  }

  /** Exclusive bound of the integers that `n` bytes can hold. */
  function Pow256(n: nat): (p: nat)
    ensures p > 0
  {
    if n == 0 then 1 else 256 * Pow256(n - 1)
  }

  /** `int.from_bytes(bytes, "little")`. */
  function FromLittleEndian(bytes: seq<byte>): (v: nat)
    ensures v < Pow256(|bytes|)
  {
    if bytes == [] then 0 else bytes[0] + 256 * FromLittleEndian(bytes[1..])
  }

  /** `int.from_bytes(bytes, "little", signed=True)`; also `struct.unpack("<i")`, `"<q"`. */
  function FromLittleEndianSigned(bytes: seq<byte>): int {
    var v := FromLittleEndian(bytes);
    if 2 * v < Pow256(|bytes|) then v else v - Pow256(|bytes|)
  }

  /** The `n` low-order bytes of `v`, least significant first. */
  function ToLittleEndian(v: nat, n: nat): (bytes: seq<byte>)
    ensures |bytes| == n
  {
    if n == 0 then [] else [v % 256] + ToLittleEndian(v / 256, n - 1)
  }

  lemma {:induction false} LittleEndianRoundTrip(v: nat, n: nat)
    requires v < Pow256(n)
    ensures FromLittleEndian(ToLittleEndian(v, n)) == v
  {
    if n != 0 {
      LittleEndianRoundTrip(v / 256, n - 1);
      assert ToLittleEndian(v, n)[1..] == ToLittleEndian(v / 256, n - 1);
    }
  }

  lemma EightBytesHoldAWord()
    ensures Pow256(8) == TWO_TO_64
  {
    assert Pow256(4) == TWO_TO_32;
    assert Pow256(6) == 0x1_0000_0000_0000;
  }

  /** `_to_signed_int`: a 64-bit register read as two's complement. */
  function ToSigned(w: u64): (v: int)
    ensures -TWO_TO_63 <= v < TWO_TO_63
    ensures v % TWO_TO_64 == w
  {
    if w < TWO_TO_63 then w else w - TWO_TO_64
  }

  /** `_to_signed_int32`: the low 32 bits of a register read as two's complement. */
  function ToSigned32(w: u64): (v: int)
    ensures -0x8000_0000 <= v < 0x8000_0000
    ensures (w - v) % TWO_TO_32 == 0
  {
    var low := w % TWO_TO_32;
    if low < 0x8000_0000 then low else low - TWO_TO_32
  }

  /** `[x for x in s if p(x)]` */
  function Filter<T>(p: T -> bool, s: seq<T>): (r: seq<T>)
    ensures forall x | x in r :: x in s && p(x)
  {
    if s == [] then [] else (if p(s[0]) then [s[0]] else []) + Filter(p, s[1..])
  }

  lemma {:induction false} FilterAppend<T>(p: T -> bool, a: seq<T>, b: seq<T>)
    ensures Filter(p, a + b) == Filter(p, a) + Filter(p, b)
  {
    if a == [] {
      assert a + b == b;
    } else {
      assert (a + b)[1..] == a[1..] + b;
      FilterAppend(p, a[1..], b);
    }
  }

  /** One more round of a filtering loop. */
  lemma FilterSnoc<T>(p: T -> bool, s: seq<T>, i: nat)
    requires i < |s|
    ensures Filter(p, s[..i + 1]) == Filter(p, s[..i]) + if p(s[i]) then [s[i]] else []
  {
    FilterAppend(p, s[..i], [s[i]]);
    FilterOne(p, s[i]);
    assert s[..i + 1] == s[..i] + [s[i]];
  }

  lemma FilterOne<T>(p: T -> bool, x: T)
    ensures Filter(p, [x]) == if p(x) then [x] else []
  {
    assert [x][1..] == [];
  }

  lemma {:induction false} FilterKeeps<T>(p: T -> bool, s: seq<T>, x: T)
    requires x in s && p(x)
    ensures x in Filter(p, s)
  {
    if x != s[0] {
      FilterKeeps(p, s[1..], x);
    }
  }

  /** `[f(x) for x in s]` */
  function Map<S, T>(f: S -> T, s: seq<S>): (r: seq<T>)
    ensures |r| == |s|
    ensures forall i | 0 <= i < |s| :: r[i] == f(s[i])
  {
    seq(|s|, i requires 0 <= i < |s| => f(s[i]))
  }
}
