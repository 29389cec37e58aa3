/** When a sysctl result is decoded with the type of another call: exactly when the call names no MIB. */
module StaleMib {
  import opened Prelude
  import opened Args
  import opened Arch
  import opened Formatters
  import opened Identities
  import opened Params
  import opened Sysctl
  import opened TracerSpec

  // ---------------------------------------------------------------------------------------------
  // A MIB in memory
  // ---------------------------------------------------------------------------------------------

  predicate IsInt32(v: int) {
    -0x8000_0000 <= v < 0x8000_0000
  }

  function IntBytes(v: int): (bytes: seq<byte>)
    requires IsInt32(v)
    ensures |bytes| == 4
  {
    ToLittleEndian(if v < 0 then v + TWO_TO_32 else v, 4)
  }

  lemma SignedRoundTrip(v: int)
    requires IsInt32(v)
    ensures FromLittleEndianSigned(IntBytes(v)) == v
  {
    assert Pow256(4) == TWO_TO_32;
    LittleEndianRoundTrip(if v < 0 then v + TWO_TO_32 else v, 4);
  }

  lemma StoredInt(mem: Memory, addr: int, v: int)
    requires IsInt32(v)
    ensures IntAt(StoreBytes(mem, addr, IntBytes(v)), addr) == Some(v)
  {
    StoredBytes(mem, addr, IntBytes(v));
    SignedRoundTrip(v);
  }

  lemma IntBelow(mem: Memory, addr: int, bytes: seq<byte>, below: int)
    requires below + 4 <= addr
    ensures IntAt(StoreBytes(mem, addr, bytes), below) == IntAt(mem, below)
  {
    var stored := StoreBytes(mem, addr, bytes);
    forall a | below <= a < below + 4 ensures (a in stored <==> a in mem) && (a in mem ==> stored[a] == mem[a]) {
      OtherBytes(mem, addr, bytes, a);
    }
    SameBlock(stored, mem, below, 4);
  }

  /** A memory that holds the two-element MIB `[a, b]`. */
  function MibMemory(addr: int, a: int, b: int): Memory
    requires IsInt32(a) && IsInt32(b)
  {
    StoreBytes(StoreBytes(map[], addr, IntBytes(a)), addr + 4, IntBytes(b))
  }

  lemma MibIsRead(tables: Tables, addr: int, a: int, b: int)
    requires addr != 0 && IsInt32(a) && IsInt32(b)
    ensures ReadMib(tables, MibMemory(addr, a, b), addr, 2).values == [a, b]
  {
    var first := StoreBytes(map[], addr, IntBytes(a));
    var mem := MibMemory(addr, a, b);
    StoredInt(map[], addr, a);
    IntBelow(first, addr + 4, IntBytes(b), addr);
    StoredInt(first, addr + 4, b);
    TwoInts(mem, addr, a, b);
  }

  lemma TwoInts(mem: Memory, addr: int, a: int, b: int)
    requires IntAt(mem, addr) == Some(a) && IntAt(mem, addr + 4) == Some(b)
    ensures ReadInts(mem, addr, 2) == [a, b]
  {
    assert ReadInts(mem, addr, 0) == [];
    assert ReadInts(mem, addr, 1) == [a];
  }

  // ---------------------------------------------------------------------------------------------
  // One call after another
  // ---------------------------------------------------------------------------------------------

  const NO_CACHES: Caches := Caches(map[], map[])

  /** The result buffer of the call is decoded with the type of its own MIB argument. */
  predicate UsesOwnType(ctx: Context, caches: Caches)
    requires |ctx.allArgs| >= 3
  {
    CachedMibType(ForArg(ctx, 2), DecodeMib(ForArg(ctx, 0), caches).caches) == OwnMibType(ForArg(ctx, 2))
  }

  /** What decoding the MIB argument of one call leaves in empty caches. */
  function CachesAfter(earlier: Context): Caches
    requires |earlier.allArgs| == 6
  {
    DecodeMib(ForArg(earlier, 0), NO_CACHES).caches
  }

  /** The call after which a given type lingers: its argument list had the same identity. */
  function EarlierCall(ctx: Context, a: int, b: int): Context
    requires IsInt32(a) && IsInt32(b)
  {
    ctx.(memory := MibMemory(0x1000, a, b), allArgs := [0x1000, 2, 0, 0, 0, 0])
  }

  lemma EarlierCallLeaves(ctx: Context, a: int, b: int)
    requires IsInt32(a) && IsInt32(b)
    ensures CachesAfter(EarlierCall(ctx, a, b)).mibs == map[ctx.listId := [a, b]]
  {
    MibIsRead(ctx.tables, 0x1000, a, b);
  }

  /** A sysctl result is decoded with the type of the call's own MIB, whatever earlier sysctl had an
      argument list of the same identity, exactly when the call names a MIB; then it holds for all cache
      contents. `mib` is any entry of the type table. */
  lemma MibTypeIsOwn(ctx: Context, mib: (int, int))
    requires |ctx.allArgs| >= 3 && mib in ctx.tables.mibTypes && IsInt32(mib.0) && IsInt32(mib.1)
    ensures (forall earlier: Context |
               earlier.listId == ctx.listId && earlier.tables == ctx.tables && |earlier.allArgs| == 6 ::
               UsesOwnType(ctx, CachesAfter(earlier)))
            <==> ctx.allArgs[0] != 0
    ensures ctx.allArgs[0] != 0 ==> forall caches :: UsesOwnType(ctx, caches)
  {
    if ctx.allArgs[0] == 0 {
      var earlier := EarlierCall(ctx, mib.0, mib.1);
      EarlierCallLeaves(ctx, mib.0, mib.1);
      assert CachedMibType(ForArg(ctx, 2), CachesAfter(earlier)) == Some(ctx.tables.mibTypes[mib]);
      assert !UsesOwnType(ctx, CachesAfter(earlier));
    }
  }

  // ---------------------------------------------------------------------------------------------
  // A run that shows it
  // ---------------------------------------------------------------------------------------------

  /** A sysctl entry with a MIB leaves its values under the identity of its argument list. */
  lemma EntryCaches(cfg: Config, s: State, thread: int, frame: Frame, name: string)
    requires name in cfg.defs && cfg.defs[name].params == SYSCTL_PARAMS
    ensures Enter(cfg, s, thread, frame, name).caches ==
            DecodeMib(ForArg(EntryContext(cfg, frame, RawArgs(cfg, frame, name)), 0), s.caches).caches
  {
    SysctlParamsAreOrdered();
    var raws := RawArgs(cfg, frame, name);
    PassCaches(SYSCTL_PARAMS, EntryContext(cfg, frame, raws), |raws|, s.caches);
  }

  /** A failed return leaves the caches alone. */
  lemma FailureCaches(cfg: Config, s: State, key: Key, frame: Frame)
    requires key in s.view.pending
    requires DecodeReturn(cfg, frame, s.view.pending[key].name, s.view.pending[key].rawArgs).Message?
    ensures Leave(cfg, s, key, frame).caches == s.caches
  {
  }

  lemma LingeringType(params: seq<Param>, exit: Context, n: nat, caches: Caches)
    requires Ordered(params) && 2 < n <= |params| && n <= |exit.allArgs| && exit.allArgs[0] == 0
    requires params[0] == SysctlMibParam && params[2] == SysctlBufferParam
    ensures Pass(params, exit, n, caches).args[2] ==
            Some(DecodeResultBuffer(ForArg(exit, 2), CachedMibType(ForArg(exit, 2), caches)))
    ensures FreshPass(params, exit, n)[2] == Some(PointerArg(exit.allArgs[2]))
  {
    PassCaches(params, exit, 2, caches);
    PassArg(params, exit, n, 2, caches);
    FreshPassAt(params, exit, n, 2);
  }

  /** Arguments that read no cached type are the same with and without caches. */
  lemma OtherArgument(params: seq<Param>, exit: Context, n: nat, i: nat, caches: Caches)
    requires i < n <= |params| && n <= |exit.allArgs| && !ReadsMib(params[i]) && !ReadsName(params[i])
    ensures Pass(params, exit, n, caches).args[i] == FreshPass(params, exit, n)[i]
  {
    PassArg(params, exit, n, i, caches);
    FreshPassAt(params, exit, n, i);
    DecodeMatchesFresh(params[i], ForArg(exit, i), Pass(params, exit, i, caches).caches);
  }

  /** A pending sysctl that named no MIB, with an argument for every parameter. */
  predicate IsWithoutMib(cfg: Config, e: Event) {
    ParamsOf(cfg, e) == SYSCTL_PARAMS && |e.args| == |e.rawArgs| == 6 && e.rawArgs[0] == 0
  }

  /** What the return of the call shows for its result buffer, given the caches at that moment. */
  function Shown(cfg: Config, e: Event, frame: Frame, caches: Caches): Arg
    requires |e.rawArgs| == 6
  {
    var ctx := ForArg(ExitContext(cfg, frame, e, DecodeReturn(cfg, frame, e.name, e.rawArgs)), 2);
    DecodeResultBuffer(ctx, CachedMibType(ctx, caches))
  }

  lemma ResultArgument(cfg: Config, e: Event, frame: Frame, caches: Caches)
    requires IsWithoutMib(cfg, e) && DecodesAgain(cfg, e, frame)
    ensures ExitEvent(cfg, e, frame, caches).args[2] == Shown(cfg, e, frame, caches)
    ensures Complete(cfg, e, frame).args[2] == PointerArg(e.rawArgs[2])
  {
    SysctlParamsAreOrdered();
    var ret := DecodeReturn(cfg, frame, e.name, e.rawArgs);
    LingeringType(ParamsOf(cfg, e), ExitContext(cfg, frame, e, ret), ExitCount(cfg, e, ret), caches);
  }

  lemma OtherArguments(cfg: Config, e: Event, frame: Frame, caches: Caches, i: nat)
    requires IsWithoutMib(cfg, e) && DecodesAgain(cfg, e, frame) && i < 6 && i != 2
    ensures ExitEvent(cfg, e, frame, caches).args[i] == Complete(cfg, e, frame).args[i]
  {
    var ret := DecodeReturn(cfg, frame, e.name, e.rawArgs);
    OtherArgument(ParamsOf(cfg, e), ExitContext(cfg, frame, e, ret), ExitCount(cfg, e, ret), i, caches);
  }

  /** The successful return of a sysctl without a MIB writes the event of the cache-free tracer exactly
      when its result buffer is shown as a pointer, with whatever type lingers. */
  lemma ReturnIsExactly(cfg: Config, s: State, key: Key, frame: Frame)
    requires key in s.view.pending && IsWithoutMib(cfg, s.view.pending[key])
    requires DecodesAgain(cfg, s.view.pending[key], frame)
    ensures var e := s.view.pending[key];
            Leave(cfg, s, key, frame).view == Finish(s.view, key, Complete(cfg, e, frame)) <==>
            Shown(cfg, e, frame, s.caches) == PointerArg(e.rawArgs[2])
  {
    var e := s.view.pending[key];
    var cached, own := ExitEvent(cfg, e, frame, s.caches), Complete(cfg, e, frame);
    ResultArgument(cfg, e, frame, s.caches);
    forall i | 0 <= i < 6 && i != 2 ensures cached.args[i] == own.args[i] {
      OtherArguments(cfg, e, frame, s.caches, i);
    }
    assert cached.args == own.args <==> cached.args[2] == own.args[2];
    FinishIsInjective(s.view, key, cached, own);
  }

  lemma FinishIsInjective(v: View, key: Key, a: Event, b: Event)
    ensures Finish(v, key, a) == Finish(v, key, b) <==> a == b
  {
    assert Finish(v, key, a).out[|v.out|] == a && Finish(v, key, b).out[|v.out|] == b;
  }

  /** Every pending call has one argument per parameter. */
  predicate Sized(cfg: Config, v: View) {
    forall k | k in v.pending :: |v.pending[k].args| == |v.pending[k].rawArgs| == |ParamsOf(cfg, v.pending[k])|
  }

  lemma {:induction false} PendingIsSized(cfg: Config, caches: Caches, stops: seq<Stop>)
    ensures Sized(cfg, Run(cfg, State(START, caches), stops).view) && Sized(cfg, Trace(cfg, START, stops))
  {
    if stops != [] {
      PendingIsSized(cfg, caches, stops[..|stops| - 1]);
    }
  }

  /** A sysctl without a MIB is pending after `before` and returns successfully. */
  predicate Returns(cfg: Config, s: State, thread: int, frame: Frame) {
    var key := Key(thread, frame.pc);
    && key in s.view.pending && ParamsOf(cfg, s.view.pending[key]) == SYSCTL_PARAMS
    && DecodesAgain(cfg, s.view.pending[key], frame)
    && |s.view.pending[key].rawArgs| == 6 && s.view.pending[key].rawArgs[0] == 0
  }

  /** After any run, from any caches, whenever a sysctl without a MIB returns and its result buffer is shown
      with a type that lingers under its list identity, the tracer with caches has written other events
      than the one that decodes each call from its own stops. */
  lemma StaleTypeShows(cfg: Config, caches: Caches, before: seq<Stop>, thread: int, frame: Frame)
    requires var s := Run(cfg, State(START, caches), before);
             && Returns(cfg, s, thread, frame)
             && var e := s.view.pending[Key(thread, frame.pc)];
                Shown(cfg, e, frame, s.caches) != PointerArg(e.rawArgs[2])
    ensures Run(cfg, State(START, caches), before + [Hit(thread, frame)]).view !=
            Trace(cfg, START, before + [Hit(thread, frame)])
  {
    var s, v, key := Run(cfg, State(START, caches), before), Trace(cfg, START, before), Key(thread, frame.pc);
    PendingIsSized(cfg, caches, before);
    RunOutline(cfg, caches, before);
    var e, own := s.view.pending[key], v.pending[key];
    assert Outline(e) == Outline(own);
    ResultArgument(cfg, e, frame, s.caches);
    ResultArgument(cfg, own, frame, s.caches);
    RunSnoc(cfg, State(START, caches), before, Hit(thread, frame));
    assert (before + [Hit(thread, frame)])[..|before|] == before;
    OutsDiffer(s.view, v, key, ExitEvent(cfg, e, frame, s.caches), Complete(cfg, own, frame));
  }

  /** A lingering integer type shows the integer at the result pointer. */
  lemma ShownAsInt(cfg: Config, e: Event, frame: Frame, caches: Caches, v: int)
    requires |e.rawArgs| == 6 && e.rawArgs[2] != 0 && e.listId in caches.mibs && caches.mibs[e.listId] != []
    requires TypeOfMib(cfg.tables, caches.mibs[e.listId]) == Some(IntType)
    requires IntAt(frame.memory, e.rawArgs[2]) == Some(v)
    ensures Shown(cfg, e, frame, caches) == IntArg(v, None)
  {
  }

  lemma OutsDiffer(a: View, b: View, key: Key, x: Event, y: Event)
    requires |a.out| == |b.out| && x != y
    ensures Finish(a, key, x) != Finish(b, key, y)
  {
    assert Finish(a, key, x).out[|a.out|] == x && Finish(b, key, y).out[|a.out|] == y;
  }

  // ---------------------------------------------------------------------------------------------
  // What single calls do to the caches
  // ---------------------------------------------------------------------------------------------

  /** A failed sysctl leaves the values of its MIB behind. */
  lemma FailedCall(cfg: Config, s: State, name: string, thread: int, entry: Frame, exit: Frame, values: seq<int>)
    requires IsCall(cfg, name, thread, entry, exit) && s.view.pending == map[]
    requires cfg.defs[name].params == SYSCTL_PARAMS && RawArgs(cfg, entry, name)[0] != 0
    requires var raws := RawArgs(cfg, entry, name);
             ReadMib(cfg.tables, entry.memory, raws[0], raws[1]).values == values
             && DecodeReturn(cfg, exit, name, raws).Message?
    ensures var after := Step(cfg, Step(cfg, s, Hit(thread, entry)), Hit(thread, exit));
            after.view.pending == map[] && after.caches.mibs == s.caches.mibs[entry.listId := values]
  {
    EntryOfCall(cfg, s, name, thread, entry, exit);
    EntryCaches(cfg, s, thread, entry, name);
    var entered := Step(cfg, s, Hit(thread, entry));
    ReturnOfCall(cfg, entered, thread, exit);
    FailureCaches(cfg, entered, Key(thread, exit.pc), exit);
  }

  /** A call without parameters leaves the caches alone. */
  lemma PlainCall(cfg: Config, s: State, name: string, thread: int, entry: Frame, exit: Frame)
    requires IsCall(cfg, name, thread, entry, exit) && s.view.pending == map[] && cfg.defs[name].params == []
    ensures var after := Step(cfg, Step(cfg, s, Hit(thread, entry)), Hit(thread, exit));
            after.view.pending == map[] && after.caches == s.caches
  {
    EntryOfCall(cfg, s, name, thread, entry, exit);
    ReturnOfCall(cfg, Step(cfg, s, Hit(thread, entry)), thread, exit);
  }

  /** The entry of a sysctl without a MIB leaves the caches alone. */
  lemma EntryWithoutMib(cfg: Config, s: State, name: string, thread: int, entry: Frame, exit: Frame)
    requires IsCall(cfg, name, thread, entry, exit) && s.view.pending == map[]
    requires cfg.defs[name].params == SYSCTL_PARAMS && RawArgs(cfg, entry, name)[0] == 0
    ensures var entered := Step(cfg, s, Hit(thread, entry));
            && entered.caches == s.caches && entered.view.pending.Keys == {Key(thread, exit.pc)}
            && var e := entered.view.pending[Key(thread, exit.pc)];
               e.name == name && e.rawArgs == RawArgs(cfg, entry, name) && e.listId == entry.listId && |e.args| == 6
  {
    EntryOfCall(cfg, s, name, thread, entry, exit);
    EntryCaches(cfg, s, thread, entry, name);
  }
}
