/** Integers as the traced process stores them. */
module Numbers {
  import opened Prelude

  predicate InRange(size: nat, signed: bool, v: int) {
    if signed then 0 <= 2 * v + Pow256(size) < 2 * Pow256(size) else 0 <= v < Pow256(size)
  }

  /** The bytes of an integer, in two's complement, least significant first. */
  function NumberBytes(size: nat, v: int): (bytes: seq<byte>)
    requires 0 <= v + Pow256(size)
    ensures |bytes| == size
  {
    ToLittleEndian(if v < 0 then v + Pow256(size) else v, size)
  }

  /** The memory holds this integer. */
  predicate HoldsNumber(mem: Memory, addr: int, size: nat, signed: bool, v: int) {
    InRange(size, signed, v) && Readable(mem, addr, size) && Block(mem, addr, size) == NumberBytes(size, v)
  }

  lemma NumberIsRead(mem: Memory, addr: int, size: nat, signed: bool, v: int)
    requires HoldsNumber(mem, addr, size, signed, v)
    ensures var data := Block(mem, addr, size);
            v == if signed then FromLittleEndianSigned(data) else FromLittleEndian(data)
  {
    LittleEndianRoundTrip(if v < 0 then v + Pow256(size) else v, size);
  }
}
