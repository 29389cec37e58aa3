/** `arch.py` and `_read_raw_arg_value`: where a stopped thread keeps its arguments. */
module Arch {
  import opened Prelude

  datatype Architecture = Arm64 | X8664

  type Registers = map<string, u64>

  /** A stopped thread as the debugger shows it: an absent register is an invalid one. `errno` is what
      evaluating `*__error()` yields, `listId` the identity of the next list to be allocated. */
  datatype Frame = Frame(
    pc: int,
    functionName: Option<string>,
    registers: Registers,
    memory: Memory,
    errno: Option<int>,
    listId: int,
    time: int)

  function ArgRegisters(arch: Architecture): seq<string> {
    match arch
    case Arm64 => ["x0", "x1", "x2", "x3", "x4", "x5", "x6", "x7"]
    case X8664 => ["rdi", "rsi", "rdx", "rcx", "r8", "r9"]
  }

  function ReturnRegister(arch: Architecture): string {
    match arch
    case Arm64 => "x0"
    case X8664 => "rax"
  }

  function StackRegister(arch: Architecture): string {
    match arch
    case Arm64 => "sp"
    case X8664 => "rsp"
  }

  function FindRegister(frame: Frame, name: string): Option<u64> {
    if name in frame.registers then Some(frame.registers[name]) else None
  }

  function LoadWord(mem: Memory, addr: int): Option<u64> {
    var data := ReadMemory(mem, addr, 8);
    if data.Some? then
      EightBytesHoldAWord();
      Some(FromLittleEndian(data.value))
    else
      None
  }

  function ReturnAddress(arch: Architecture, frame: Frame): Option<u64> {
    match arch
    case Arm64 => FindRegister(frame, "lr")
    case X8664 =>
      var sp := FindRegister(frame, "rsp");
      if sp.Some? then LoadWord(frame.memory, sp.value) else None
  }

  /** Distance from the stack pointer to the slot of variadic argument `index`: x86-64 skips the
      return address. */
  function SlotOffset(arch: Architecture, index: nat): nat {
    match arch
    case Arm64 => index * 8
    case X8664 => (index + 1) * 8
  }

  function ReadVariadicArg(arch: Architecture, frame: Frame, index: nat): Option<u64> {
    var sp := FindRegister(frame, StackRegister(arch));
    if sp.Some? then LoadWord(frame.memory, sp.value + SlotOffset(arch, index)) else None
  }

  predicate IsVariadic(variadicStart: Option<nat>, index: nat) {
    variadicStart.Some? && index >= variadicStart.value
  }

  function ReadRawArg(arch: Architecture, frame: Frame, index: nat, variadicStart: Option<nat>): u64 {
    if IsVariadic(variadicStart, index) then
      var v := ReadVariadicArg(arch, frame, index - variadicStart.value);
      if v.Some? then v.value else 0
    else if index >= |ArgRegisters(arch)| then 0
    else
      var r := FindRegister(frame, ArgRegisters(arch)[index]);
      if r.Some? then r.value else 0
  }

  /** The list `raw_values` built at syscall entry. */
  function ReadRawArgs(arch: Architecture, frame: Frame, count: nat, variadicStart: Option<nat>): (raws: seq<u64>)
    ensures |raws| == count
  {
    seq(count, i requires 0 <= i < count => ReadRawArg(arch, frame, i, variadicStart))
  }

  // ---------------------------------------------------------------------------------------------
  // The caller's side
  // ---------------------------------------------------------------------------------------------

  function StoreBytes(mem: Memory, addr: int, bytes: seq<byte>): Memory
    decreases |bytes|
  {
    if bytes == [] then mem else StoreBytes(mem[addr := bytes[0]], addr + 1, bytes[1..])
  }

  function StoreWord(mem: Memory, addr: int, w: u64): Memory {
    StoreBytes(mem, addr, ToLittleEndian(w, 8))
  }

  /** Consecutive 8-byte slots. */
  function StoreWords(mem: Memory, addr: int, ws: seq<u64>): Memory
    decreases |ws|
  {
    if ws == [] then mem else StoreWord(StoreWords(mem, addr + 8, ws[1..]), addr, ws[0])
  }

  /** The first arguments go to the registers, in order; those that do not fit go nowhere. */
  function SetRegisters(regs: Registers, names: seq<string>, ws: seq<u64>): Registers {
    if names == [] || ws == [] then regs else SetRegisters(regs, names[1..], ws[1..])[names[0] := ws[0]]
  }

  function FixedCount(count: nat, variadicStart: Option<nat>): (n: nat)
    ensures n <= count
  {
    if variadicStart.Some? && variadicStart.value < count then variadicStart.value else count
  }

  /** Variadic arguments in their slots; x86-64 pushes the return address below them. */
  function PushArgs(arch: Architecture, mem: Memory, sp: int, variadic: seq<u64>, ret: u64): Memory {
    var stored := StoreWords(mem, sp + SlotOffset(arch, 0), variadic);
    if arch.X8664? then StoreWord(stored, sp, ret) else stored
  }

  /** The argument registers as a caller fills them. */
  const ARM64_ARGS: seq<string> := ["x0", "x1", "x2", "x3", "x4", "x5", "x6", "x7"]
  const X8664_ARGS: seq<string> := ["rdi", "rsi", "rdx", "rcx", "r8", "r9"]

  /** How many fixed arguments the convention passes in registers. */
  function RegisterCount(arch: Architecture): nat {
    if arch.Arm64? then 8 else 6
  }

  predicate HasStack(arch: Architecture, frame: Frame) {
    match arch
    case Arm64 => "sp" in frame.registers
    case X8664 => "rsp" in frame.registers
  }

  function StackOf(arch: Architecture, frame: Frame): u64
    requires HasStack(arch, frame)
  {
    match arch
    case Arm64 => frame.registers["sp"]
    case X8664 => frame.registers["rsp"]
  }

  /** The thread right after a call with these arguments: fixed ones in registers, variadic ones in stack
      slots, the return address where the call instruction leaves it. Nothing here is taken from the side
      that reads. */
  function Called(arch: Architecture, frame: Frame, args: seq<u64>, variadicStart: Option<nat>, ret: u64): Frame
    requires HasStack(arch, frame)
  {
    var fixed := FixedCount(|args|, variadicStart);
    var sp := StackOf(arch, frame);
    match arch
    case Arm64 =>
      frame.(registers := SetRegisters(frame.registers, ARM64_ARGS, args[..fixed])["lr" := ret],
             memory := StoreWords(frame.memory, sp, args[fixed..]))
    case X8664 =>
      frame.(registers := SetRegisters(frame.registers, X8664_ARGS, args[..fixed]),
             memory := StoreWord(StoreWords(frame.memory, sp + 8, args[fixed..]), sp, ret))
  }

  /** The thread right after a callee has left its result. */
  predicate LeavesResult(arch: Architecture, frame: Frame, w: u64) {
    match arch
    case Arm64 => "x0" in frame.registers && frame.registers["x0"] == w
    case X8664 => "rax" in frame.registers && frame.registers["rax"] == w
  }

  lemma ResultOfCallee(arch: Architecture, frame: Frame, w: u64)
    ensures FindRegister(frame, ReturnRegister(arch)) == Some(w) <==> LeavesResult(arch, frame, w)
  {
  }

  /** The side that reads looks where the caller has put things. */
  lemma CalledParts(arch: Architecture, frame: Frame, args: seq<u64>, variadicStart: Option<nat>, ret: u64)
    requires HasStack(arch, frame)
    ensures FindRegister(frame, StackRegister(arch)) == Some(StackOf(arch, frame))
    ensures |ArgRegisters(arch)| == RegisterCount(arch)
    ensures var called, fixed := Called(arch, frame, args, variadicStart, ret), FixedCount(|args|, variadicStart);
            var regs := SetRegisters(frame.registers, ArgRegisters(arch), args[..fixed]);
            && called.registers == (if arch.Arm64? then regs["lr" := ret] else regs)
            && called.memory == PushArgs(arch, frame.memory, StackOf(arch, frame), args[fixed..], ret)
  {
  }

  lemma {:induction false} StoredBytes(mem: Memory, addr: int, bytes: seq<byte>)
    ensures Readable(StoreBytes(mem, addr, bytes), addr, |bytes|)
    ensures Block(StoreBytes(mem, addr, bytes), addr, |bytes|) == bytes
    decreases |bytes|
  {
    if bytes != [] {
      var mem' := mem[addr := bytes[0]];
      StoredBytes(mem', addr + 1, bytes[1..]);
      OtherBytes(mem', addr + 1, bytes[1..], addr);
      var stored := StoreBytes(mem, addr, bytes);
      forall a | addr <= a < addr + |bytes| ensures a in stored {
        assert a > addr ==> addr + 1 <= a < addr + 1 + |bytes[1..]|;
      }
    }
  }

  lemma {:induction false} OtherBytes(mem: Memory, addr: int, bytes: seq<byte>, a: int)
    requires a < addr || addr + |bytes| <= a
    ensures a in StoreBytes(mem, addr, bytes) <==> a in mem
    ensures a in mem ==> StoreBytes(mem, addr, bytes)[a] == mem[a]
    decreases |bytes|
  {
    if bytes != [] {
      OtherBytes(mem[addr := bytes[0]], addr + 1, bytes[1..], a);
    }
  }

  lemma StoredWord(mem: Memory, addr: int, w: u64)
    ensures LoadWord(StoreWord(mem, addr, w), addr) == Some(w)
  {
    StoredBytes(mem, addr, ToLittleEndian(w, 8));
    EightBytesHoldAWord();
    LittleEndianRoundTrip(w, 8);
  }

  lemma {:induction false} SameBlock(a: Memory, b: Memory, addr: int, n: nat)
    requires forall x | addr <= x < addr + n :: (x in a <==> x in b) && (x in a ==> a[x] == b[x])
    ensures Readable(a, addr, n) <==> Readable(b, addr, n)
    ensures Readable(a, addr, n) ==> Block(a, addr, n) == Block(b, addr, n)
    decreases n
  {
    if n > 0 {
      SameBlock(a, b, addr + 1, n - 1);
    }
  }

  lemma OtherWord(mem: Memory, addr: int, w: u64, other: int)
    requires other + 8 <= addr || addr + 8 <= other
    ensures LoadWord(StoreWord(mem, addr, w), other) == LoadWord(mem, other)
  {
    forall a | other <= a < other + 8
      ensures (a in StoreWord(mem, addr, w) <==> a in mem) && (a in mem ==> StoreWord(mem, addr, w)[a] == mem[a])
    {
      OtherBytes(mem, addr, ToLittleEndian(w, 8), a);
    }
    SameBlock(StoreWord(mem, addr, w), mem, other, 8);
  }

  lemma {:induction false} StoredWords(mem: Memory, addr: int, ws: seq<u64>, k: nat)
    requires k < |ws|
    ensures LoadWord(StoreWords(mem, addr, ws), addr + 8 * k) == Some(ws[k])
    decreases |ws|
  {
    if k == 0 {
      StoredWord(StoreWords(mem, addr + 8, ws[1..]), addr, ws[0]);
    } else {
      StoredWords(mem, addr + 8, ws[1..], k - 1);
      LaterSlot(mem, addr, ws, addr + 8 * k);
    }
  }

  lemma LaterSlot(mem: Memory, addr: int, ws: seq<u64>, slot: int)
    requires ws != [] && addr + 8 <= slot
    ensures LoadWord(StoreWords(mem, addr, ws), slot) == LoadWord(StoreWords(mem, addr + 8, ws[1..]), slot)
  {
    OtherWord(StoreWords(mem, addr + 8, ws[1..]), addr, ws[0], slot);
  }

  predicate Distinct(names: seq<string>) {
    forall i, j | 0 <= i < j < |names| :: names[i] != names[j]
  }

  lemma {:induction false} SetRegister(regs: Registers, names: seq<string>, ws: seq<u64>, i: nat)
    requires Distinct(names) && i < |names| && i < |ws|
    ensures names[i] in SetRegisters(regs, names, ws) && SetRegisters(regs, names, ws)[names[i]] == ws[i]
  {
    if i > 0 {
      SetRegister(regs, names[1..], ws[1..], i - 1);
    }
  }

  lemma {:induction false} OtherRegister(regs: Registers, names: seq<string>, ws: seq<u64>, other: string)
    requires other !in names
    ensures other in SetRegisters(regs, names, ws) <==> other in regs
    ensures other in regs ==> SetRegisters(regs, names, ws)[other] == regs[other]
  {
    if names != [] && ws != [] {
      assert names[0] in names && forall n | n in names[1..] :: n in names;
      OtherRegister(regs, names[1..], ws[1..], other);
    }
  }

  lemma RegistersAreDistinct(arch: Architecture)
    ensures Distinct(ArgRegisters(arch))
    ensures StackRegister(arch) !in ArgRegisters(arch)
    ensures arch.Arm64? ==> "lr" !in ArgRegisters(arch)
  {
  }

  lemma StackPointerOfCall(arch: Architecture, frame: Frame, args: seq<u64>, variadicStart: Option<nat>, ret: u64)
    requires HasStack(arch, frame)
    ensures FindRegister(Called(arch, frame, args, variadicStart, ret), StackRegister(arch)) ==
            Some(StackOf(arch, frame))
  {
    CalledParts(arch, frame, args, variadicStart, ret);
    RegistersAreDistinct(arch);
    var fixed := args[..FixedCount(|args|, variadicStart)];
    OtherRegister(frame.registers, ArgRegisters(arch), fixed, StackRegister(arch));
  }

  lemma StackSlot(arch: Architecture, mem: Memory, sp: int, variadic: seq<u64>, ret: u64, k: nat)
    requires k < |variadic|
    ensures LoadWord(PushArgs(arch, mem, sp, variadic, ret), sp + SlotOffset(arch, k)) == Some(variadic[k])
  {
    var base, slot := sp + SlotOffset(arch, 0), sp + SlotOffset(arch, k);
    StoredWords(mem, base, variadic, k);
    assert slot == base + 8 * k;
    PushKeepsSlot(arch, StoreWords(mem, base, variadic), sp, ret, k);
  }

  lemma PushKeepsSlot(arch: Architecture, stored: Memory, sp: int, ret: u64, k: nat)
    ensures var pushed := if arch.X8664? then StoreWord(stored, sp, ret) else stored;
            LoadWord(pushed, sp + SlotOffset(arch, k)) == LoadWord(stored, sp + SlotOffset(arch, k))
  {
    if arch.X8664? {
      OtherWord(stored, sp, ret, sp + SlotOffset(arch, k));
    }
  }

  lemma SlotReads(arch: Architecture, frame: Frame, sp: u64, k: nat)
    requires FindRegister(frame, StackRegister(arch)) == Some(sp)
    ensures ReadVariadicArg(arch, frame, k) == LoadWord(frame.memory, sp + SlotOffset(arch, k))
  {
  }

  lemma SlotHolds(arch: Architecture, called: Frame, mem: Memory, sp: u64, variadic: seq<u64>, ret: u64, k: nat)
    requires FindRegister(called, StackRegister(arch)) == Some(sp) && k < |variadic|
    requires called.memory == PushArgs(arch, mem, sp, variadic, ret)
    ensures ReadVariadicArg(arch, called, k) == Some(variadic[k])
  {
    SlotReads(arch, called, sp, k);
    StackSlot(arch, mem, sp, variadic, ret, k);
  }

  lemma VariadicArgOfCall(arch: Architecture, frame: Frame, args: seq<u64>, start: nat, ret: u64, k: nat)
    requires HasStack(arch, frame) && start + k < |args|
    ensures ReadVariadicArg(arch, Called(arch, frame, args, Some(start), ret), k) == Some(args[start + k])
  {
    CalledParts(arch, frame, args, Some(start), ret);
    StackPointerOfCall(arch, frame, args, Some(start), ret);
    SlotHolds(arch, Called(arch, frame, args, Some(start), ret), frame.memory, StackOf(arch, frame),
              args[start..], ret, k);
  }

  lemma FixedArgOfCall(arch: Architecture, frame: Frame, args: seq<u64>, variadicStart: Option<nat>, ret: u64, i: nat)
    requires HasStack(arch, frame)
    requires i < FixedCount(|args|, variadicStart) && i < |ArgRegisters(arch)|
    ensures FindRegister(Called(arch, frame, args, variadicStart, ret), ArgRegisters(arch)[i]) == Some(args[i])
  {
    CalledParts(arch, frame, args, variadicStart, ret);
    RegistersAreDistinct(arch);
    SetRegister(frame.registers, ArgRegisters(arch), args[..FixedCount(|args|, variadicStart)], i);
    assert ArgRegisters(arch)[i] in ArgRegisters(arch);
  }

  /** One argument comes back, unless it is a fixed one beyond the last register: that reads as 0. */
  lemma RawArgOfCall(arch: Architecture, frame: Frame, args: seq<u64>, variadicStart: Option<nat>, ret: u64, i: nat)
    requires HasStack(arch, frame) && i < |args|
    ensures ReadRawArg(arch, Called(arch, frame, args, variadicStart, ret), i, variadicStart) ==
            if i < FixedCount(|args|, variadicStart) && i >= RegisterCount(arch) then 0 else args[i]
  {
    CalledParts(arch, frame, args, variadicStart, ret);
    if IsVariadic(variadicStart, i) {
      VariadicArgOfCall(arch, frame, args, variadicStart.value, ret, i - variadicStart.value);
    } else if i < |ArgRegisters(arch)| {
      FixedArgOfCall(arch, frame, args, variadicStart, ret, i);
    }
  }

  lemma ReturnAddressOfCall(arch: Architecture, frame: Frame, args: seq<u64>, variadicStart: Option<nat>, ret: u64)
    requires HasStack(arch, frame)
    ensures ReturnAddress(arch, Called(arch, frame, args, variadicStart, ret)) == Some(ret)
  {
    var fixed := FixedCount(|args|, variadicStart);
    var sp: int := StackOf(arch, frame);
    CalledParts(arch, frame, args, variadicStart, ret);
    StackPointerOfCall(arch, frame, args, variadicStart, ret);
    StoredWord(StoreWords(frame.memory, sp + 8, args[fixed..]), sp, ret);
  }

  lemma VariadicFromSlot(arch: Architecture, frame: Frame, sp: u64, w: u64, start: nat, i: nat)
    requires FindRegister(frame, StackRegister(arch)) == Some(sp) && start <= i
    ensures var slot := LoadWord(frame.memory, sp + SlotOffset(arch, i - start));
            ReadRawArg(arch, frame, i, Some(start)) == w <==> slot == Some(w) || (slot.None? && w == 0)
  {
    SlotReads(arch, frame, sp, i - start);
  }

  /** The thread of an x86-64 caller that passes its arguments, variadic ones too, in registers. */
  function InRegisters(frame: Frame, args: seq<u64>): Frame {
    frame.(registers := SetRegisters(frame.registers, X8664_ARGS, args))
  }

  lemma StackPointerInRegisters(frame: Frame, args: seq<u64>)
    requires "rsp" in frame.registers
    ensures FindRegister(InRegisters(frame, args), StackRegister(X8664)) == Some(frame.registers["rsp"])
  {
    OtherRegister(frame.registers, X8664_ARGS, args, "rsp");
  }

  /** A variadic argument passed in a register, as the x86-64 convention does, is recovered exactly when
      its stack slot happens to hold it. */
  lemma VariadicInRegister(frame: Frame, args: seq<u64>, start: nat, i: nat)
    requires "rsp" in frame.registers && start <= i < |args|
    ensures var slot := LoadWord(frame.memory, frame.registers["rsp"] + 8 * (i - start + 1));
            ReadRawArg(X8664, InRegisters(frame, args), i, Some(start)) == args[i] <==>
            slot == Some(args[i]) || (slot.None? && args[i] == 0)
  {
    StackPointerInRegisters(frame, args);
    VariadicFromSlot(X8664, InRegisters(frame, args), frame.registers["rsp"], args[i], start, i);
  }

  /** The tracer recovers the caller's argument list exactly when every fixed argument that does not
      fit a register happens to be 0; the return address is always recovered. */
  lemma CallingConvention(arch: Architecture, frame: Frame, args: seq<u64>, variadicStart: Option<nat>, ret: u64)
    requires HasStack(arch, frame)
    ensures var called := Called(arch, frame, args, variadicStart, ret);
            && ReturnAddress(arch, called) == Some(ret)
            && (ReadRawArgs(arch, called, |args|, variadicStart) == args <==>
                forall i | RegisterCount(arch) <= i < FixedCount(|args|, variadicStart) :: args[i] == 0)
  {
    ReturnAddressOfCall(arch, frame, args, variadicStart, ret);
    var raws := ReadRawArgs(arch, Called(arch, frame, args, variadicStart, ret), |args|, variadicStart);
    forall i | 0 <= i < |args|
      ensures raws[i] == if i < FixedCount(|args|, variadicStart) && i >= RegisterCount(arch) then 0 else args[i]
    {
      RawArgOfCall(arch, frame, args, variadicStart, ret, i);
    }
    assert raws == args <==> forall i | 0 <= i < |args| :: raws[i] == args[i];
  }
}
