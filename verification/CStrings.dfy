/** Strings in the memory of the traced process: `_read_string` and `ArrayOfStringsParam`. */
module CStrings {
  import opened Prelude
  import opened Args

  const CHUNK_SIZE := 256
  const MAX_STRING := 4096

  /** What `_read_string` found. */
  datatype StringRead = NullPointer | Unreadable(address: int) | Bytes(bytes: seq<byte>)
  {
    /** The text it returns; every byte stands for one character. */
    function Text(): string {
      match this
      case NullPointer => "NULL"
      case Unreadable(address) => HexLiteral(address)
      case Bytes(bytes) => Map((b: byte) => b as char, bytes)
    }
  }

  // ---------------------------------------------------------------------------------------------
  // The string as C sees it
  // ---------------------------------------------------------------------------------------------

  /** The mapped bytes from `addr` to the terminator, at most `n`. */
  function CString(mem: Memory, addr: int, n: int): (s: seq<byte>)
    ensures 0 !in s
    ensures |s| <= if n < 0 then 0 else n
    decreases n
  {
    if n <= 0 || addr !in mem || mem[addr] == 0 then [] else [mem[addr]] + CString(mem, addr + 1, n - 1)
  }

  // ---------------------------------------------------------------------------------------------
  // The chunked reader
  // ---------------------------------------------------------------------------------------------

  function ChunkLength(n: int): (c: nat)
    requires n > 0
    ensures 0 < c <= n && c <= CHUNK_SIZE
  {
    if n < CHUNK_SIZE then n else CHUNK_SIZE
  }

  /** The bytes before the first NUL, or all of them. */
  function UntilNul(chunk: seq<byte>): (s: seq<byte>)
    ensures s <= chunk && 0 !in s
    ensures 0 !in chunk ==> s == chunk
    ensures 0 in chunk ==> |s| < |chunk| && chunk[|s|] == 0
  {
    if chunk == [] || chunk[0] == 0 then [] else [chunk[0]] + UntilNul(chunk[1..])
  }

  /** What the chunks from `addr` on contribute: reading stops at a NUL, at an unreadable chunk, or
      after `n` bytes. */
  function Chunks(mem: Memory, addr: int, n: int): seq<byte>
    decreases n
  {
    if n <= 0 then []
    else
      var chunk := ReadMemory(mem, addr, ChunkLength(n));
      if chunk.None? then []
      else if 0 in chunk.value then UntilNul(chunk.value)
      else chunk.value + Chunks(mem, addr + ChunkLength(n), n - ChunkLength(n))
  }

  predicate FirstReadFails(mem: Memory, address: int, maxLength: int) {
    maxLength > 0 && ReadMemory(mem, address, ChunkLength(maxLength)).None?
  }

  function ReadString(mem: Memory, address: int, maxLength: int): StringRead {
    if address == 0 then NullPointer
    else if FirstReadFails(mem, address, maxLength) then Unreadable(address)
    else Bytes(Chunks(mem, address, maxLength))
  }

  lemma NextChunk(mem: Memory, addr: int, n: int, chunk: Option<seq<byte>>, before: seq<byte>, whole: seq<byte>)
    requires n > 0 && whole == before + Chunks(mem, addr, n) && chunk == ReadMemory(mem, addr, ChunkLength(n))
    ensures chunk.None? ==> whole == before
    ensures chunk.Some? && 0 in chunk.value ==> whole == before + UntilNul(chunk.value)
    ensures chunk.Some? && 0 !in chunk.value ==>
              whole == (before + chunk.value) + Chunks(mem, addr + |chunk.value|, n - |chunk.value|)
  {
  }

  /** The loop of `_read_string`. It ends because every successful read returns at least one byte. */
  method ReadStringAt(mem: Memory, address: int, maxLength: int) returns (r: StringRead)
    ensures r == ReadString(mem, address, maxLength)
  {
    if address == 0 {
      return NullPointer;
    }
    ghost var whole := Chunks(mem, address, maxLength);
    ghost var fails := FirstReadFails(mem, address, maxLength);
    var resultBytes: seq<byte> := [];
    var currentAddress := address;
    var bytesRead, remaining := 0, maxLength;
    while bytesRead < maxLength
      invariant bytesRead >= 0 && remaining == maxLength - bytesRead
      invariant if bytesRead == 0 then currentAddress == address else !fails
      invariant whole == resultBytes + Chunks(mem, currentAddress, remaining)
    {
      var chunk := ReadMemory(mem, currentAddress, ChunkLength(remaining));
      NextChunk(mem, currentAddress, remaining, chunk, resultBytes, whole);
      if chunk.None? {
        if bytesRead == 0 {
          return Unreadable(address);
        }
        break;
      }
      if 0 in chunk.value {
        resultBytes := resultBytes + UntilNul(chunk.value);
        break;
      }
      resultBytes := resultBytes + chunk.value;
      currentAddress := currentAddress + |chunk.value|;
      bytesRead := bytesRead + |chunk.value|;
      remaining := remaining - |chunk.value|;
    }
    r := Bytes(resultBytes);
  }

  // ---------------------------------------------------------------------------------------------
  // Refinement of the byte-wise string
  // ---------------------------------------------------------------------------------------------

  lemma ConsOverBlock(b: byte, rest: seq<byte>, tail: seq<byte>, s: seq<byte>)
    requires s == if 0 in rest then UntilNul(rest) else rest + tail
    ensures var block := [b] + rest;
            (if b == 0 then [] else [b] + s) == if 0 in block then UntilNul(block) else block + tail
  {
    UntilNulCons(b, rest);
    InCons(b, rest);
    if b != 0 && 0 !in rest {
      ConcatAssociates([b], rest, tail);
    }
  }

  lemma InCons(b: byte, rest: seq<byte>)
    ensures 0 in [b] + rest <==> b == 0 || 0 in rest
  {
    assert ([b] + rest)[0] == b && ([b] + rest)[1..] == rest;
  }

  lemma ConcatAssociates(a: seq<byte>, b: seq<byte>, c: seq<byte>)
    ensures a + (b + c) == (a + b) + c
  {
  }

  lemma UntilNulCons(b: byte, rest: seq<byte>)
    ensures UntilNul([b] + rest) == if b == 0 then [] else [b] + UntilNul(rest)
  {
    assert ([b] + rest)[1..] == rest;
  }

  /** A readable block can be consumed at once. */
  lemma {:induction false} CStringOverBlock(mem: Memory, addr: int, c: nat, n: int)
    requires Readable(mem, addr, c) && c <= n
    ensures var block := Block(mem, addr, c);
            CString(mem, addr, n) ==
            if 0 in block then UntilNul(block) else block + CString(mem, addr + c, n - c)
    decreases c
  {
    var block := Block(mem, addr, c);
    if c == 0 {
      assert block + CString(mem, addr, n) == CString(mem, addr, n);
    } else {
      BlockCons(mem, addr, c);
      CStringOverBlock(mem, addr + 1, c - 1, n - 1);
      ConsOverBlock(mem[addr], Block(mem, addr + 1, c - 1), CString(mem, addr + c, n - c),
                    CString(mem, addr + 1, n - 1));
    }
  }

  /** One successful read of the loop, seen from the byte-wise string. */
  lemma CStringOverChunk(mem: Memory, addr: int, n: int)
    requires n > 0 && Readable(mem, addr, ChunkLength(n))
    ensures var chunk := ReadMemory(mem, addr, ChunkLength(n)).value;
            CString(mem, addr, n) ==
            if 0 in chunk then UntilNul(chunk) else chunk + CString(mem, addr + |chunk|, n - |chunk|)
  {
    CStringOverBlock(mem, addr, ChunkLength(n), n);
  }

  /** The chunked result is free of NULs and a prefix of the true string. */
  lemma {:induction false} ChunksArePrefix(mem: Memory, addr: int, n: int)
    ensures Chunks(mem, addr, n) <= CString(mem, addr, n)
    ensures 0 !in Chunks(mem, addr, n)
    decreases n
  {
    if n > 0 && Readable(mem, addr, ChunkLength(n)) {
      CStringOverChunk(mem, addr, n);
      var c, chunk := ChunkLength(n), ReadMemory(mem, addr, ChunkLength(n)).value;
      if 0 !in chunk {
        ChunksArePrefix(mem, addr + c, n - c);
        PrefixTails(chunk, Chunks(mem, addr + c, n - c), CString(mem, addr + c, n - c));
      }
    }
  }

  lemma PrefixTails(head: seq<byte>, a: seq<byte>, b: seq<byte>)
    requires a <= b && 0 !in head && 0 !in a
    ensures head + a <= head + b && 0 !in head + a
  {
  }

  /** Every chunk that holds a byte of the true string is readable as a whole. */
  ghost predicate ChunksReadable(mem: Memory, addr: int, n: int) {
    forall k: nat | CHUNK_SIZE * k < |CString(mem, addr, n)| ::
      Readable(mem, addr + CHUNK_SIZE * k, ChunkLength(n - CHUNK_SIZE * k))
  }

  /** The chunked reader returns the whole string exactly when these chunks are readable. */
  lemma {:induction false} ChunksAreExact(mem: Memory, addr: int, n: int)
    ensures Chunks(mem, addr, n) == CString(mem, addr, n) <==> ChunksReadable(mem, addr, n)
    decreases n
  {
    if n > 0 && Readable(mem, addr, ChunkLength(n)) {
      var chunk := ReadMemory(mem, addr, ChunkLength(n)).value;
      if 0 in chunk {
        CStringOverChunk(mem, addr, n);
        OneChunk(mem, addr, n);
      } else {
        ChunksAreExact(mem, addr + |chunk|, n - |chunk|);
        ExactPastChunk(mem, addr, n, chunk);
      }
    } else if n > 0 {
      UnreadableChunk(mem, addr, n);
    }
  }

  lemma ExactPastChunk(mem: Memory, addr: int, n: int, chunk: seq<byte>)
    requires n > 0 && ReadMemory(mem, addr, ChunkLength(n)) == Some(chunk) && 0 !in chunk
    requires Chunks(mem, addr + |chunk|, n - |chunk|) == CString(mem, addr + |chunk|, n - |chunk|) <==>
             ChunksReadable(mem, addr + |chunk|, n - |chunk|)
    ensures Chunks(mem, addr, n) == CString(mem, addr, n) <==> ChunksReadable(mem, addr, n)
  {
    var rest := CString(mem, addr + |chunk|, n - |chunk|);
    CStringOverChunk(mem, addr, n);
    ChunksReadableShift(mem, addr, n, rest);
    SameTails(chunk, Chunks(mem, addr + |chunk|, n - |chunk|), rest);
  }

  lemma UnreadableChunk(mem: Memory, addr: int, n: int)
    requires n > 0 && !Readable(mem, addr, ChunkLength(n))
    ensures Chunks(mem, addr, n) == CString(mem, addr, n) <==> ChunksReadable(mem, addr, n)
  {
    if |CString(mem, addr, n)| > 0 {
      assert !Readable(mem, addr + CHUNK_SIZE * 0, ChunkLength(n - CHUNK_SIZE * 0));
    }
  }

  lemma SameTails(head: seq<byte>, a: seq<byte>, b: seq<byte>)
    ensures head + a == head + b <==> a == b
  {
    assert (head + a)[|head|..] == a && (head + b)[|head|..] == b;
  }

  lemma OneChunk(mem: Memory, addr: int, n: int)
    requires n > 0 && Readable(mem, addr, ChunkLength(n)) && |CString(mem, addr, n)| < CHUNK_SIZE
    ensures ChunksReadable(mem, addr, n)
  {
  }

  lemma ChunksReadableShift(mem: Memory, addr: int, n: int, rest: seq<byte>)
    requires n > 0 && Readable(mem, addr, ChunkLength(n))
    requires rest == CString(mem, addr + ChunkLength(n), n - ChunkLength(n))
    requires |CString(mem, addr, n)| == ChunkLength(n) + |rest|
    ensures ChunksReadable(mem, addr, n) <==> ChunksReadable(mem, addr + ChunkLength(n), n - ChunkLength(n))
  {
    var c := ChunkLength(n);
    if ChunksReadable(mem, addr, n) {
      forall k: nat | CHUNK_SIZE * k < |rest|
        ensures Readable(mem, addr + c + CHUNK_SIZE * k, ChunkLength(n - c - CHUNK_SIZE * k))
      {
        assert CHUNK_SIZE * (k + 1) < |CString(mem, addr, n)|;
        assert Readable(mem, addr + CHUNK_SIZE * (k + 1), ChunkLength(n - CHUNK_SIZE * (k + 1)));
      }
    }
    if ChunksReadable(mem, addr + c, n - c) {
      forall k: nat | CHUNK_SIZE * k < |CString(mem, addr, n)|
        ensures Readable(mem, addr + CHUNK_SIZE * k, ChunkLength(n - CHUNK_SIZE * k))
      {
        if k > 0 {
          assert CHUNK_SIZE * (k - 1) < |rest|;
          assert Readable(mem, addr + c + CHUNK_SIZE * (k - 1), ChunkLength(n - c - CHUNK_SIZE * (k - 1)));
        }
      }
    }
  }

  /** `_read_string` returns the C string, cut at `maxLength`, for exactly those non-null addresses
      where the first chunk and all chunks holding string bytes can be read; otherwise it returns a
      proper prefix of it, or the address. */
  lemma ReadStringRefines(mem: Memory, address: int, maxLength: int)
    requires address != 0
    ensures ReadString(mem, address, maxLength) == Bytes(CString(mem, address, maxLength)) <==>
            && (maxLength > 0 ==> Readable(mem, address, ChunkLength(maxLength)))
            && ChunksReadable(mem, address, maxLength)
    ensures ReadString(mem, address, maxLength).Bytes? ==>
            && ReadString(mem, address, maxLength).bytes <= CString(mem, address, maxLength)
            && 0 !in ReadString(mem, address, maxLength).bytes
  {
    ChunksArePrefix(mem, address, maxLength);
    ChunksAreExact(mem, address, maxLength);
  }

  // ---------------------------------------------------------------------------------------------
  // argv and envp
  // ---------------------------------------------------------------------------------------------

  function PointerAt(mem: Memory, addr: int): Option<nat> {
    var data := ReadMemory(mem, addr, 8);
    if data.Some? then Some(FromLittleEndian(data.value)) else None
  }

  /** The strings of the pointer array from index `i` on. */
  function StringsFrom(mem: Memory, addr: int, i: nat, max: nat): seq<string>
    decreases max - i
  {
    if i >= max || PointerAt(mem, addr + i * 8).None? || PointerAt(mem, addr + i * 8).value == 0 then []
    else
      [TextAt(mem, PointerAt(mem, addr + i * 8).value)] + StringsFrom(mem, addr, i + 1, max)
  }

  lemma NextString(mem: Memory, addr: int, i: nat, max: nat, before: seq<string>, whole: seq<string>)
    requires i < max && whole == before + StringsFrom(mem, addr, i, max)
    ensures var ptr := PointerAt(mem, addr + i * 8);
            whole == if ptr.None? || ptr.value == 0 then before
                     else (before + [ReadString(mem, ptr.value, MAX_STRING).Text()])
                          + StringsFrom(mem, addr, i + 1, max)
  {
  }

  /** The loop of `ArrayOfStringsParam.decode`. */
  method ReadStrings(mem: Memory, addr: int, max: nat) returns (strings: seq<string>)
    ensures strings == StringsFrom(mem, addr, 0, max)
  {
    ghost var whole := StringsFrom(mem, addr, 0, max);
    strings := [];
    for i := 0 to max
      invariant whole == strings + StringsFrom(mem, addr, i, max)
    {
      NextString(mem, addr, i, max, strings, whole);
      var data := ReadMemory(mem, addr + i * 8, 8);
      if data.None? {
        return;
      }
      var ptr := FromLittleEndian(data.value);
      if ptr == 0 {
        return;
      }
      var s := ReadStringAt(mem, ptr, MAX_STRING);
      strings := strings + [s.Text()];
    }
  }

  /** The array of `ptrs` lies at `addr`, ended by a null pointer or by the end of readable memory. */
  predicate HoldsPointers(mem: Memory, addr: int, ptrs: seq<nat>) {
    && (forall i | 0 <= i < |ptrs| :: PointerAt(mem, addr + i * 8) == Some(ptrs[i]) && ptrs[i] != 0)
    && PointerAt(mem, addr + |ptrs| * 8) in {None, Some(0)}
  }

  function TextAt(mem: Memory, ptr: nat): string {
    ReadString(mem, ptr, MAX_STRING).Text()
  }

  /** The strings that a list of pointers points to. */
  function TextsAt(mem: Memory, ptrs: seq<nat>): seq<string> {
    Map((p: nat) => TextAt(mem, p), ptrs)
  }

  lemma {:induction false} StringsOfPointersFrom(mem: Memory, addr: int, ptrs: seq<nat>, i: nat, last: nat, max: nat)
    requires HoldsPointers(mem, addr, ptrs) && i <= last <= |ptrs| && last <= max
    requires last == |ptrs| || last == max
    ensures StringsFrom(mem, addr, i, max) == TextsAt(mem, ptrs[i..last])
    decreases last - i
  {
    if i < last {
      StringsOfPointersFrom(mem, addr, ptrs, i + 1, last, max);
      PointerOf(mem, addr, ptrs, i);
      StringsStep(mem, addr, i, max, ptrs[i]);
      TextsCons(mem, ptrs, i, last);
    } else {
      PointersEnd(mem, addr, ptrs);
      StringsEnd(mem, addr, last, max);
    }
  }

  lemma PointerOf(mem: Memory, addr: int, ptrs: seq<nat>, i: nat)
    requires HoldsPointers(mem, addr, ptrs) && i < |ptrs|
    ensures PointerAt(mem, addr + i * 8) == Some(ptrs[i]) && ptrs[i] != 0
  {
  }

  lemma PointersEnd(mem: Memory, addr: int, ptrs: seq<nat>)
    requires HoldsPointers(mem, addr, ptrs)
    ensures PointerAt(mem, addr + |ptrs| * 8) in {None, Some(0)}
  {
  }

  lemma StringsEnd(mem: Memory, addr: int, last: nat, max: nat)
    requires last == max || PointerAt(mem, addr + last * 8) in {None, Some(0)}
    ensures StringsFrom(mem, addr, last, max) == []
  {
  }

  lemma StringsStep(mem: Memory, addr: int, i: nat, max: nat, ptr: nat)
    requires i < max && PointerAt(mem, addr + i * 8) == Some(ptr) && ptr != 0
    ensures StringsFrom(mem, addr, i, max) == [TextAt(mem, ptr)] + StringsFrom(mem, addr, i + 1, max)
  {
  }

  lemma TextsCons(mem: Memory, ptrs: seq<nat>, i: nat, last: nat)
    requires i < last <= |ptrs|
    ensures TextsAt(mem, ptrs[i..last]) == [TextAt(mem, ptrs[i])] + TextsAt(mem, ptrs[i + 1..last])
  {
  }

  /** Every pointer array is read in order, one string a pointer, up to its end or the limit. */
  lemma StringsOfPointers(mem: Memory, addr: int, ptrs: seq<nat>, max: nat)
    requires HoldsPointers(mem, addr, ptrs)
    ensures StringsFrom(mem, addr, 0, max) == TextsAt(mem, if |ptrs| <= max then ptrs else ptrs[..max])
  {
    var last := if |ptrs| <= max then |ptrs| else max;
    StringsOfPointersFrom(mem, addr, ptrs, 0, last, max);
    assert ptrs[0..last] == if |ptrs| <= max then ptrs else ptrs[..max];
  }
}
