/** `FdSetParam` of `event_structs.py`: which descriptors a 128-byte bitmap holds, and the inverse. */
module FdSet {
  import opened Prelude
  import opened Bits

  const FD_SETSIZE := 1024
  const NFDBITS := 32
  const ARRAY_SIZE := 32

  /** `FD_ISSET`: bit `fd % 8` of byte `fd / 8`. */
  predicate IsSet(data: seq<byte>, fd: nat)
    requires fd < 8 * |data|
  {
    TestBit(data[fd / 8], fd % 8)
  }

  predicate Ascending(fds: seq<nat>) {
    forall i, j | 0 <= i < j < |fds| :: fds[i] < fds[j]
  }

  /** The list holds exactly the descriptors below `bound` whose bit is set. */
  ghost predicate Lists(fds: seq<nat>, data: seq<byte>, bound: nat)
    requires bound <= 8 * |data|
  {
    && Ascending(fds)
    && forall fd: nat :: fd in fds <==> fd < bound && IsSet(data, fd)
  }

  /** Bit `k` of a little-endian word is bit `k % 8` of its byte `k / 8`. */
  lemma {:induction false} BitOfLittleEndian(bytes: seq<byte>, k: nat)
    requires k < 8 * |bytes|
    ensures TestBit(FromLittleEndian(bytes), k) <==> TestBit(bytes[k / 8], k % 8)
  {
    assert Pow2(8) == 256;
    BitOfConcat(bytes[0], FromLittleEndian(bytes[1..]), 8, k);
    if k >= 8 {
      BitOfLittleEndian(bytes[1..], k - 8);
      assert bytes[1..][(k - 8) / 8] == bytes[k / 8];
    }
  }

  /** The descriptors below `bound` in the set, in order. */
  function FdsBelow(data: seq<byte>, bound: nat): (fds: seq<nat>)
    requires bound <= 8 * |data|
  {
    if bound == 0 then []
    else FdsBelow(data, bound - 1) + if IsSet(data, bound - 1) then [bound - 1] else []
  }

  lemma {:induction false} FdsBelowLists(data: seq<byte>, bound: nat)
    requires bound <= 8 * |data|
    ensures Lists(FdsBelow(data, bound), data, bound)
  {
    if bound > 0 {
      FdsBelowLists(data, bound - 1);
      var fds := FdsBelow(data, bound - 1);
      assert forall i | 0 <= i < |fds| :: fds[i] in fds;
    }
  }

  function Word(data: seq<byte>, i: nat): nat
    requires |data| == ARRAY_SIZE * 4 && i < ARRAY_SIZE
  {
    FromLittleEndian(data[i * 4..i * 4 + 4])
  }

  lemma WordBit(data: seq<byte>, i: nat, bit: nat)
    requires |data| == ARRAY_SIZE * 4 && i < ARRAY_SIZE && bit < NFDBITS
    ensures TestBit(Word(data, i), bit) <==> IsSet(data, i * NFDBITS + bit)
  {
    BitOfLittleEndian(data[i * 4..i * 4 + 4], bit);
  }

  /** `bitmap` holds the bits of the 32 descriptors from `base` on. */
  ghost predicate Covers(bitmap: nat, data: seq<byte>, base: nat)
    requires base + NFDBITS <= 8 * |data|
  {
    forall bit: nat | bit < NFDBITS :: TestBit(bitmap, bit) <==> IsSet(data, base + bit)
  }

  /** The inner loop of `decode`: the bits of one word. */
  method AppendSetBits(bitmap: nat, ghost data: seq<byte>, base: nat, before: seq<nat>) returns (fds: seq<nat>)
    requires base + NFDBITS <= 8 * |data| && Covers(bitmap, data, base)
    requires before == FdsBelow(data, base)
    ensures fds == FdsBelow(data, base + NFDBITS)
  {
    fds := before;
    for bit := 0 to NFDBITS
      invariant fds == FdsBelow(data, base + bit)
    {
      if TestBit(bitmap, bit) {
        fds := fds + [base + bit];
      }
    }
  }

  /** The loop over the 32 words of the bitmap. */
  method DecodeBitmap(data: seq<byte>) returns (fds: seq<nat>)
    requires |data| == ARRAY_SIZE * 4
    ensures fds == FdsBelow(data, FD_SETSIZE)
    ensures Lists(fds, data, FD_SETSIZE)
  {
    fds := [];
    for i := 0 to ARRAY_SIZE
      invariant fds == FdsBelow(data, i * NFDBITS)
    {
      forall bit: nat | bit < NFDBITS ensures TestBit(Word(data, i), bit) <==> IsSet(data, i * NFDBITS + bit) {
        WordBit(data, i, bit);
      }
      fds := AppendSetBits(Word(data, i), data, i * NFDBITS, fds);
    }
    FdsBelowLists(data, FD_SETSIZE);
  }

  // ---------------------------------------------------------------------------------------------
  // The inverse: FD_ZERO, then FD_SET for every descriptor
  // ---------------------------------------------------------------------------------------------

  function SetBit(data: seq<byte>, fd: nat): (r: seq<byte>)
    requires fd < 8 * |data|
    ensures |r| == |data|
  {
    ByteRange(data[fd / 8], fd % 8);
    data[fd / 8 := Or(data[fd / 8], Pow2(fd % 8))]
  }

  lemma ByteRange(b: byte, k: nat)
    requires k < 8
    ensures Or(b, Pow2(k)) < 256
  {
    assert Pow2(8) == 256;
    forall j: nat | j >= 8 ensures !TestBit(Or(b, Pow2(k)), j) {
      BitOfSmall(b, 8, j);
      BitOfPow2(k, j);
    }
    LowBitsOnly(Or(b, Pow2(k)), 8);
  }

  predicate InRange(fds: seq<nat>) {
    forall i | 0 <= i < |fds| :: fds[i] < FD_SETSIZE
  }

  function Encode(fds: seq<nat>): (data: seq<byte>)
    requires InRange(fds)
    ensures |data| == ARRAY_SIZE * 4
  {
    if fds == [] then seq(ARRAY_SIZE * 4, i => 0) else SetBit(Encode(fds[..|fds| - 1]), fds[|fds| - 1])
  }

  lemma {:induction false} EncodeSets(fds: seq<nat>, fd: nat)
    requires InRange(fds)
    requires fd < FD_SETSIZE
    ensures IsSet(Encode(fds), fd) <==> fd in fds
  {
    if fds == [] {
      ZeroBit(fd % 8);
    } else {
      var front, last := fds[..|fds| - 1], fds[|fds| - 1];
      EncodeSets(front, fd);
      BitOfPow2(last % 8, fd % 8);
      assert fds == front + [last];
    }
  }

  lemma {:induction false} AscendingListsAreEqual(a: seq<nat>, b: seq<nat>)
    requires Ascending(a) && Ascending(b)
    requires forall x: nat :: x in a <==> x in b
    ensures a == b
  {
    assert (a != [] ==> a[0] in a) && (b != [] ==> b[0] in b);
    if a != [] {
      assert a[0] in b && b[0] in a;
      assert a[0] == b[0];
      assert a == [a[0]] + a[1..] && b == [b[0]] + b[1..];
      forall x: nat ensures x in a[1..] <==> x in b[1..] {
        assert x in a <==> x == a[0] || x in a[1..];
        assert x in b <==> x == b[0] || x in b[1..];
        assert a[0] !in a[1..] && b[0] !in b[1..];
      }
      AscendingListsAreEqual(a[1..], b[1..]);
    }
  }

  lemma BytesWithSameBits(a: seq<byte>, b: seq<byte>)
    requires |a| == |b|
    requires forall fd: nat | fd < 8 * |a| :: IsSet(a, fd) <==> IsSet(b, fd)
    ensures a == b
  {
    forall i | 0 <= i < |a| ensures a[i] == b[i] {
      forall k: nat ensures TestBit(a[i], k) <==> TestBit(b[i], k) {
        if k < 8 {
          var fd := 8 * i + k;
          assert IsSet(a, fd) <==> IsSet(b, fd);
        } else {
          assert Pow2(8) == 256;
          BitOfRemainder(a[i], 8, k);
          BitOfRemainder(b[i], 8, k);
        }
      }
      SameBits(a[i], b[i]);
    }
  }

  /** Decoding the bitmap of an ascending list of descriptors gives the list back. */
  lemma DecodeOfEncode(fds: seq<nat>, decoded: seq<nat>)
    requires Ascending(fds) && InRange(fds)
    requires Lists(decoded, Encode(fds), FD_SETSIZE)
    ensures decoded == fds
  {
    assert forall x | x in fds :: x < FD_SETSIZE;
    forall x: nat ensures x in decoded <==> x in fds {
      if x < FD_SETSIZE {
        EncodeSets(fds, x);
      }
    }
    AscendingListsAreEqual(decoded, fds);
  }

  /** Setting the decoded descriptors rebuilds the bitmap, byte for byte. */
  lemma EncodeOfDecode(data: seq<byte>, decoded: seq<nat>)
    requires |data| == ARRAY_SIZE * 4 && Lists(decoded, data, FD_SETSIZE)
    ensures InRange(decoded)
    ensures Encode(decoded) == data
  {
    forall i | 0 <= i < |decoded| ensures decoded[i] < FD_SETSIZE {
      assert decoded[i] in decoded;
    }
    forall fd: nat | fd < 8 * |data| ensures IsSet(Encode(decoded), fd) <==> IsSet(data, fd) {
      EncodeSets(decoded, fd);
    }
    BytesWithSameBits(Encode(decoded), data);
  }
}
