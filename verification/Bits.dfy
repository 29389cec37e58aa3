/** Bitwise operations on the integers of the traced program, and the bits they act on. */
module Bits {
  import opened Prelude

  /** Whether `v & (1 << k)` is nonzero. */
  predicate TestBit(v: nat, k: nat) {
    if k == 0 then v % 2 == 1 else TestBit(v / 2, k - 1)
  }

  predicate Odd(v: nat) {
    v % 2 == 1
  }

  /** The number with lowest bit `bit` and the bits of `half` above it. */
  function Cons(bit: bool, half: nat): (r: nat)
    ensures forall k: nat :: TestBit(r, k) <==> if k == 0 then bit else TestBit(half, k - 1)
  {
    var r := (if bit then 1 else 0) + 2 * half;
    assert r / 2 == half;
    r
  }

  function And(a: nat, b: nat): (r: nat)
    ensures forall k: nat :: TestBit(r, k) <==> TestBit(a, k) && TestBit(b, k)
    decreases a
  {
    if a == 0 then
      ZeroHasNoBits();
      0
    else
      Cons(Odd(a) && Odd(b), And(a / 2, b / 2))
  }

  /** `a & ~b` */
  function AndNot(a: nat, b: nat): (r: nat)
    ensures forall k: nat :: TestBit(r, k) <==> TestBit(a, k) && !TestBit(b, k)
    decreases a
  {
    if a == 0 then
      ZeroHasNoBits();
      0
    else
      Cons(Odd(a) && !Odd(b), AndNot(a / 2, b / 2))
  }

  function Or(a: nat, b: nat): (r: nat)
    ensures forall k: nat :: TestBit(r, k) <==> TestBit(a, k) || TestBit(b, k)
    decreases a
  {
    if a == 0 then
      ZeroHasNoBits();
      b
    else
      Cons(Odd(a) || Odd(b), Or(a / 2, b / 2))
  }

  lemma ZeroHasNoBits()
    ensures forall k: nat :: !TestBit(0, k)
  {
    forall k: nat ensures !TestBit(0, k) {
      ZeroBit(k);
    }
  }

  lemma {:induction false} ZeroBit(k: nat)
    ensures !TestBit(0, k)
  {
    if k > 0 {
      ZeroBit(k - 1);
    }
  }

  /** Two numbers with the same bits are equal. */
  lemma {:induction false} SameBits(a: nat, b: nat)
    requires forall k: nat :: TestBit(a, k) <==> TestBit(b, k)
    ensures a == b
    decreases a + b
  {
    assert TestBit(a, 0) <==> TestBit(b, 0);
    if a + b > 0 {
      forall k: nat ensures TestBit(a / 2, k) <==> TestBit(b / 2, k) {
        assert TestBit(a, k + 1) <==> TestBit(b, k + 1);
      }
      SameBits(a / 2, b / 2);
    }
  }

  /** A nonzero number has a bit. */
  lemma HasBit(a: nat) returns (k: nat)
    requires a != 0
    ensures TestBit(a, k)
  {
    if a % 2 == 1 {
      k := 0;
    } else {
      k := HasBit(a / 2);
      k := k + 1;
    }
  }

  lemma {:induction false} BitOfPow2(n: nat, k: nat)
    ensures TestBit(Pow2(n), k) <==> k == n
  {
    if n == 0 || k == 0 {
      if k > 0 { ZeroBit(k - 1); }
    } else {
      BitOfPow2(n - 1, k - 1);
    }
  }

  /** The `n` low bits of a sum `low + 2^n * high` are those of `low`, the others those of `high`. */
  lemma {:induction false} BitOfConcat(low: nat, high: nat, n: nat, k: nat)
    requires low < Pow2(n)
    ensures TestBit(low + Pow2(n) * high, k) <==> if k < n then TestBit(low, k) else TestBit(high, k - n)
  {
    if n > 0 {
      var half := low / 2 + Pow2(n - 1) * high;
      assert low + Pow2(n) * high == Cons(Odd(low), half) by {
        assert Pow2(n) * high == 2 * (Pow2(n - 1) * high);
      }
      if k > 0 {
        BitOfConcat(low / 2, high, n - 1, k - 1);
      }
    }
  }

  /** A remainder by `2^n` keeps just the `n` low bits. */
  lemma BitOfRemainder(v: nat, n: nat, k: nat)
    ensures TestBit(v % Pow2(n), k) <==> k < n && TestBit(v, k)
  {
    var low, high := DivideAndRemain(v, Pow2(n));
    BitOfParts(v, low, high, n, k);
  }

  lemma DivideAndRemain(v: nat, d: nat) returns (low: nat, high: nat)
    requires d > 0
    ensures low == v % d && high == v / d && low < d && v == low + d * high
  {
    low, high := v % d, v / d;
  }

  lemma BitOfParts(v: nat, low: nat, high: nat, n: nat, k: nat)
    requires low < Pow2(n) && v == low + Pow2(n) * high
    ensures TestBit(low, k) <==> k < n && TestBit(v, k)
  {
    BitOfConcat(low, high, n, k);
    BitOfSmall(low, n, k);
  }

  /** Bit `n` is the parity of the quotient by `2^n`. */
  lemma BitOfQuotient(v: nat, n: nat)
    ensures TestBit(v, n) <==> v / Pow2(n) % 2 == 1
  {
    var low, high := DivideAndRemain(v, Pow2(n));
    BitOfConcat(low, high, n, n);
  }

  /** A number below `2^n` has no bit from `n` on. */
  lemma BitOfSmall(m: nat, n: nat, k: nat)
    requires m < Pow2(n)
    ensures k >= n ==> !TestBit(m, k)
  {
    BitOfConcat(m, 0, n, k);
    if k >= n {
      ZeroBit(k - n);
    }
  }

  /** A number without bits from `n` on is below `2^n`. */
  lemma LowBitsOnly(m: nat, n: nat)
    requires forall k: nat | k >= n :: !TestBit(m, k)
    ensures m < Pow2(n)
  {
    forall k: nat ensures TestBit(m % Pow2(n), k) <==> TestBit(m, k) {
      BitOfRemainder(m, n, k);
    }
    SameBits(m % Pow2(n), m);
  }

  lemma {:induction false} BitOfOnes(n: nat, k: nat)
    ensures TestBit(Pow2(n) - 1, k) <==> k < n
  {
    if n == 0 {
      ZeroBit(k);
    } else {
      assert Pow2(n) - 1 == Cons(true, Pow2(n - 1) - 1);
      if k > 0 {
        BitOfOnes(n - 1, k - 1);
      }
    }
  }

  lemma AndOnes(v: nat, n: nat)
    ensures And(v, Pow2(n) - 1) == v % Pow2(n)
  {
    forall k: nat ensures TestBit(And(v, Pow2(n) - 1), k) <==> TestBit(v % Pow2(n), k) {
      BitOfOnes(n, k);
      BitOfRemainder(v, n, k);
    }
    SameBits(And(v, Pow2(n) - 1), v % Pow2(n));
  }

  /** A number is zero exactly when it has no bit. */
  lemma NoBits(v: nat)
    requires forall k: nat :: !TestBit(v, k)
    ensures v == 0
  {
    ZeroHasNoBits();
    SameBits(v, 0);
  }

  predicate IsPow2(v: nat) {
    v == 1 || (v > 0 && v % 2 == 0 && IsPow2(v / 2))
  }

  lemma {:induction false} ExponentOf(v: nat) returns (n: nat)
    requires IsPow2(v)
    ensures v == Pow2(n)
  {
    if v == 1 {
      n := 0;
    } else {
      n := ExponentOf(v / 2);
      n := n + 1;
    }
  }
}
