/** `tracer.py`: the tracer as an object that is updated stop by stop. One decode context is reused for
    every argument of every call; the methods are proved against the state machine of `TracerSpec`,
    whose decoders get a new context each time. */
module Tracer {
  import opened Prelude
  import opened Args
  import opened Arch
  import opened Sysctl
  import opened Params
  import opened Registry
  import opened Formatters
  import opened Summary
  import opened TracerSpec

  /** The reusable context: everything in it is overwritten between two decodes. */
  class DecodeContext {
    var rawValue: u64
    var allArgs: seq<u64>
    var listId: int
    var atEntry: bool
    var returnValue: Option<ReturnValue>

    constructor ()
    {
      rawValue, allArgs, listId, atEntry, returnValue := 0, [], 0, true, None;
    }

    function Value(noAbbrev: bool, tables: Tables, memory: Memory): Context
      reads this
    {
      Context(noAbbrev, tables, memory, rawValue, allArgs, listId, atEntry, returnValue)
    }
  }

  /** A pending or written call; its arguments and return value are filled in at exit. */
  class SyscallEvent {
    const pid: int
    const name: string
    var args: seq<Arg>
    var returnValue: ReturnValue
    const timestamp: int
    const rawArgs: seq<u64>
    const listId: int

    constructor (e: Event)
      ensures Value() == e
    {
      pid, name, args, returnValue := e.pid, e.name, e.args, e.returnValue;
      timestamp, rawArgs, listId := e.timestamp, e.rawArgs, e.listId;
    }

    function Value(): Event
      reads this
    {
      Event(pid, name, args, returnValue, timestamp, rawArgs, listId)
    }
  }

  /** The options a run is started with. */
  datatype Options = Options(
    filterCategory: Option<Category>,
    filterNames: Option<set<string>>,
    noAbbrev: bool,
    summaryOnly: bool,
    color: bool,
    arch: Architecture,
    pid: int,
    tables: Tables,
    errnoNames: map<int, ErrnoName>)

  datatype ProcessState = Exited(code: int) | Stopped(stop: Stop) | Gone | Running

  /** One round of the tracing loop: whether the interrupt signal has arrived, and the process state. */
  datatype Observation = Observation(signal: bool, state: ProcessState)

  /** What the loop returns in a round: 0 at the interrupt signal, the exit status of the process, 1 when
      it is gone; nothing while it goes on. */
  function ExitCode(o: Observation): Option<int> {
    if o.signal then Some(0)
    else
      match o.state
      case Exited(code) => Some(code)
      case Gone => Some(1)
      case _ => None
  }

  /** Nothing in this round ends the loop. */
  predicate GoesOn(o: Observation) {
    !o.signal && (o.state.Running? || o.state.Stopped?)
  }

  /** The round ends the loop with this code; the interrupt signal comes before the state of the process. */
  predicate EndsWith(o: Observation, code: int) {
    (o.signal && code == 0) || (!o.signal && (o.state == Exited(code) || (o.state == Gone && code == 1)))
  }

  /** The code of the first round that does not go on; none if all do. */
  ghost predicate IsLoopCode(seen: seq<Observation>, exitCode: Option<int>) {
    match exitCode
    case None => forall i | 0 <= i < |seen| :: GoesOn(seen[i])
    case Some(code) =>
      exists n | 0 <= n < |seen| :: EndsWith(seen[n], code) && forall i | 0 <= i < n :: GoesOn(seen[i])
  }

  lemma LoopCode(seen: seq<Observation>)
    ensures var last := LastRound(seen, 0); IsLoopCode(seen, if last < |seen| then ExitCode(seen[last]) else None)
  {
    var last := LastRound(seen, 0);
    forall i | 0 <= i < last ensures GoesOn(seen[i]) {
      assert !EndsLoop(seen[i]);
    }
    if last < |seen| {
      assert EndsWith(seen[last], ExitCode(seen[last]).value);
    }
  }

  predicate EndsLoop(o: Observation) {
    ExitCode(o).Some?
  }

  /** The first round from `i` on that ends the loop. */
  function LastRound(seen: seq<Observation>, i: nat): (n: nat)
    requires i <= |seen|
    ensures i <= n <= |seen| && (n < |seen| ==> EndsLoop(seen[n]))
    ensures forall j | i <= j < n :: !EndsLoop(seen[j])
    decreases |seen| - i
  {
    if i == |seen| || EndsLoop(seen[i]) then i else LastRound(seen, i + 1)
  }

  /** The stops among the first `n` rounds. */
  function StopsIn(seen: seq<Observation>, n: nat): seq<Stop>
    requires n <= |seen|
  {
    if n == 0 then []
    else StopsIn(seen, n - 1) + if seen[n - 1].state.Stopped? then [seen[n - 1].state.stop] else []
  }

  /** The stops that the tracing loop handles: those before the round that ends it. */
  function Handled(seen: seq<Observation>): seq<Stop> {
    StopsIn(seen, LastRound(seen, 0))
  }

  /** One round, and the first `n` rounds, of a loop that does not end. */
  function AfterRound(cfg: Config, s: State, o: Observation): State {
    if o.state.Stopped? then Step(cfg, s, o.state.stop) else s
  }

  function AfterRounds(cfg: Config, s: State, seen: seq<Observation>, n: nat): State
    requires n <= |seen|
  {
    if n == 0 then s else AfterRound(cfg, AfterRounds(cfg, s, seen, n - 1), seen[n - 1])
  }

  lemma {:induction false} RoundsAreRun(cfg: Config, s: State, seen: seq<Observation>, n: nat)
    requires n <= |seen|
    ensures AfterRounds(cfg, s, seen, n) == Run(cfg, s, StopsIn(seen, n))
  {
    if n > 0 {
      RoundsAreRun(cfg, s, seen, n - 1);
      var before, o := StopsIn(seen, n - 1), seen[n - 1];
      if o.state.Stopped? {
        RunSnoc(cfg, s, before, o.state.stop);
      } else {
        assert before + [] == before;
      }
    }
  }

  function Line(color: bool, e: Event): string {
    if color then ColorLine(e) else TextLine(e)
  }

  /** What the output holds after `written`: nothing in a summary-only run, else a line per event. */
  function Lines(options: Options, written: seq<Event>): (lines: seq<string>)
    ensures options.summaryOnly ==> lines == []
    ensures !options.summaryOnly ==> |lines| == |written|
  {
    if options.summaryOnly then [] else Map((e: Event) => Line(options.color, e), written)
  }

  lemma LinesSnoc(options: Options, written: seq<Event>, e: Event)
    ensures Lines(options, written + [e]) ==
            Lines(options, written) + if options.summaryOnly then [] else [Line(options.color, e)]
  {
  }

  /** Completing an event without re-decoding anything leaves its arguments as they are. */
  lemma NothingToDecode(cfg: Config, e: Event, frame: Frame, caches: Caches)
    requires ExitCount(cfg, e, DecodeReturn(cfg, frame, e.name, e.rawArgs)) == 0
    ensures ExitPass(cfg, e, frame, caches) == PassResult([], caches)
    ensures ExitEvent(cfg, e, frame, caches) == e.(returnValue := DecodeReturn(cfg, frame, e.name, e.rawArgs))
  {
    assert Update(e.args, []) == e.args;
  }

  class Tracer {
    const options: Options
    const registry: SyscallRegistry
    const summary: SummaryFormatter
    const decodeCtx: DecodeContext
    var pending: map<Key, SyscallEvent>
    var sysctlMibCache: map<int, seq<int>>
    var sysctlbynameCache: map<int, string>
    var output: seq<string>
    var interrupted: bool

    /** The pending and the written calls as values, and the event objects made so far. */
    ghost var calls: map<Key, Event>
    ghost var written: seq<Event>
    ghost var events: set<SyscallEvent>

    /** The configuration that the specification sees. */
    function Cfg(): Config
      reads registry
    {
      Config(registry.byName.entries, registry.categories.entries, options.filterCategory, options.filterNames,
             options.noAbbrev, options.arch, options.pid, options.tables, options.errnoNames)
    }

    function SysctlCaches(): Caches
      reads this`sysctlMibCache, this`sysctlbynameCache
    {
      Caches(sysctlMibCache, sysctlbynameCache)
    }

    /** Every pending object holds the value the view has for it, and no two keys share an object. */
    ghost predicate Mirrors()
      reads this`pending, this`calls, this`events, events
    {
      && pending.Keys == calls.Keys
      && (forall k | k in pending :: pending[k] in events && pending[k].Value() == calls[k])
      && (forall k, l | k in pending && l in pending && k != l :: pending[k] != pending[l])
    }

    /** The summary and the output agree with what was written. */
    ghost predicate Reports()
      reads this`written, this`output, summary
    {
      summary.Valid() && summary.history == written && output == Lines(options, written)
    }

    ghost predicate Valid()
      reads this, events, summary
    {
      Mirrors() && Reports()
    }

    ghost function Now(): State
      reads this
    {
      State(View(calls, written), SysctlCaches())
    }

    constructor (options: Options, definitions: seq<Registration>)
      ensures Valid() && fresh(registry) && fresh(summary) && fresh(decodeCtx)
      ensures Now() == State(START, Caches(map[], map[])) && events == {} && !interrupted
      ensures registry.Valid() && registry.registered == definitions && this.options == options
      ensures (forall d | d in definitions :: Ordered(d.def.params)) ==> WellFormed(Cfg())
    {
      this.options := options;
      registry := new SyscallRegistry(definitions);
      summary := new SummaryFormatter();
      decodeCtx := new DecodeContext();
      pending, sysctlMibCache, sysctlbynameCache := map[], map[], map[];
      output, interrupted := [], false;
      calls, written, events := map[], [], {};
    }

    /** `param.decode(self.decode_ctx)`; only the sysctl parameters touch the caches. */
    method DecodeWith(param: Param, rawValue: u64, memory: Memory) returns (arg: Option<Arg>)
      modifies decodeCtx`rawValue, this`sysctlMibCache, this`sysctlbynameCache
      ensures var ctx := decodeCtx.Value(options.noAbbrev, options.tables, memory);
              ctx.rawValue == rawValue && Decode(param, ctx, old(SysctlCaches())) == Decoded(arg, SysctlCaches())
    {
      decodeCtx.rawValue := rawValue;
      var d := Decode(param, decodeCtx.Value(options.noAbbrev, options.tables, memory), SysctlCaches());
      sysctlMibCache, sysctlbynameCache := d.caches.mibs, d.caches.names;
      arg := d.arg;
    }

    /** One left-to-right pass with the shared context: the result is that of decoding every argument
        with a context of its own. */
    method DecodePass(params: seq<Param>, n: nat, ghost ctx: Context, memory: Memory)
      returns (decoded: seq<Option<Arg>>)
      requires n <= |params| && n <= |decodeCtx.allArgs|
      requires ctx == decodeCtx.Value(options.noAbbrev, options.tables, memory).(rawValue := 0)
      modifies decodeCtx`rawValue, this`sysctlMibCache, this`sysctlbynameCache
      ensures Pass(params, ctx, n, old(SysctlCaches())) == PassResult(decoded, SysctlCaches())
    {
      decoded := [];
      for i := 0 to n
        invariant ctx == decodeCtx.Value(options.noAbbrev, options.tables, memory).(rawValue := 0)
        invariant Pass(params, ctx, i, old(SysctlCaches())) == PassResult(decoded, SysctlCaches())
      {
        var arg := DecodeWith(params[i], decodeCtx.allArgs[i], memory);
        assert ForArg(ctx, i) == decodeCtx.Value(options.noAbbrev, options.tables, memory);
        decoded := decoded + [arg];
      }
    }

    /** `_extract_args` */
    method ExtractArgs(frame: Frame, name: string) returns (args: seq<Arg>, rawValues: seq<u64>)
      requires name in Cfg().defs
      modifies decodeCtx, this`sysctlMibCache, this`sysctlbynameCache
      ensures rawValues == RawArgs(Cfg(), frame, name)
      ensures var ctx := EntryContext(Cfg(), frame, rawValues);
              var pass := Pass(Cfg().defs[name].params, ctx, |rawValues|, old(SysctlCaches()));
              args == Map(OrUnknown, pass.args) && SysctlCaches() == pass.caches
    {
      var def := registry.byName.entries[name];
      rawValues := ReadRawArgs(options.arch, frame, |def.params|, def.variadicStart);
      decodeCtx.allArgs, decodeCtx.listId := rawValues, frame.listId;
      decodeCtx.atEntry, decodeCtx.returnValue := true, None;
      var decoded := DecodePass(def.params, |rawValues|, EntryContext(Cfg(), frame, rawValues), frame.memory);
      args := Map(OrUnknown, decoded);
    }

    /** `print(self.formatter.format(event))` */
    method PrintLine(e: Event)
      modifies this`output
      ensures output == old(output) + [if options.color then ColorLine(e) else TextLine(e)]
    {
      var line;
      if options.color {
        line := FormatColor(e);
      } else {
        line := TextLine(e);
      }
      output := output + [line];
    }

    /** `_write_event` */
    method WriteEvent(e: Event)
      requires Valid()
      modifies this`output, this`written, summary
      ensures Valid() && written == old(written) + [e]
    {
      summary.AddEvent(e);
      LinesSnoc(options, written, e);
      written := written + [e];
      if !options.summaryOnly {
        PrintLine(e);
      }
    }

    /** `self.pending_syscalls[key] = event`: a new object for the event. */
    method AddEvent(key: Key, e: Event)
      requires Mirrors()
      modifies this`pending, this`calls, this`events
      ensures Mirrors() && calls == old(calls)[key := e]
      ensures fresh(events - old(events))
    {
      var event := new SyscallEvent(e);
      pending := pending[key := event];
      calls := calls[key := e];
      events := events + {event};
    }

    /** The second half of `_handle_syscall_entry`. */
    method FileEvent(thread: int, frame: Frame, e: Event, ghost cfg: Config)
      requires Valid() && cfg.arch == options.arch
      modifies this`pending, this`calls, this`output, this`written, this`events, summary
      ensures Valid() && fresh(events - old(events))
      ensures View(calls, written) == Filed(cfg, old(View(calls, written)), thread, frame, e)
    {
      var returnAddress := ReturnAddress(options.arch, frame);
      if returnAddress.None? {
        WriteEvent(e);
      } else {
        AddEvent(Key(thread, returnAddress.value), e);
      }
    }

    /** `_handle_syscall_entry` */
    method HandleSyscallEntry(thread: int, frame: Frame, name: string)
      requires Valid() && name in Cfg().defs
      modifies this`pending, this`calls, this`sysctlMibCache, this`sysctlbynameCache, this`output, this`written
      modifies this`events, summary, decodeCtx
      ensures Valid() && fresh(events - old(events))
      ensures Now() == Enter(Cfg(), old(Now()), thread, frame, name)
    {
      var args, rawArgs := ExtractArgs(frame, name);
      var e := Event(options.pid, name, args, Message("?"), frame.time, rawArgs, frame.listId);
      FileEvent(thread, frame, e, Cfg());
    }

    /** `_decode_params_at_exit`: the saved raw values are used, not the registers. */
    method DecodeParamsAtExit(event: SyscallEvent, params: seq<Param>, frame: Frame, ghost ctx: Context)
      requires ctx == Context(options.noAbbrev, options.tables, frame.memory, 0, event.rawArgs, event.listId, false,
                              Some(event.returnValue))
      modifies decodeCtx, this`sysctlMibCache, this`sysctlbynameCache, event`args
      ensures var n := Min(|params|, Min(|old(event.args)|, |event.rawArgs|));
              var pass := Pass(params, ctx, n, old(SysctlCaches()));
              event.args == Update(old(event.args), pass.args) && SysctlCaches() == pass.caches
    {
      decodeCtx.allArgs, decodeCtx.listId := event.rawArgs, event.listId;
      decodeCtx.atEntry, decodeCtx.returnValue := false, Some(event.returnValue);
      var n := Min(|params|, Min(|event.args|, |event.rawArgs|));
      ghost var before := event.args;
      ghost var done: seq<Option<Arg>> := [];
      for i := 0 to n
        invariant decodeCtx.Value(options.noAbbrev, options.tables, frame.memory).(rawValue := 0) == ctx
        invariant Pass(params, ctx, i, old(SysctlCaches())) == PassResult(done, SysctlCaches())
        invariant event.args == Update(before, done)
      {
        var decoded := DecodeWith(params[i], event.rawArgs[i], frame.memory);
        assert ForArg(ctx, i) == decodeCtx.Value(options.noAbbrev, options.tables, frame.memory);
        if decoded.Some? {
          event.args := event.args[i := decoded.value];
        }
        done := done + [decoded];
      }
    }

    /** The middle of `_handle_syscall_return`: the return value and the arguments decoded at exit. */
    method CompleteEvent(event: SyscallEvent, frame: Frame, ghost e: Event)
      requires Mirrors() && event.Value() == e && forall k | k in pending :: pending[k] != event
      modifies event, decodeCtx, this`sysctlMibCache, this`sysctlbynameCache
      ensures Mirrors() && event.Value() == ExitEvent(Cfg(), e, frame, old(SysctlCaches()))
      ensures SysctlCaches() == ExitPass(Cfg(), e, frame, old(SysctlCaches())).caches
    {
      event.returnValue := DecodeReturn(Cfg(), frame, event.name, event.rawArgs);
      if event.returnValue.Number? && event.returnValue.number >= 0 {
        if event.name in registry.byName.entries {
          DecodeParamsAtExit(event, registry.byName.entries[event.name].params, frame,
                             ExitContext(Cfg(), frame, e, event.returnValue));
          return;
        }
      }
      NothingToDecode(Cfg(), e, frame, SysctlCaches());
    }

    /** `self.pending_syscalls.pop(key)`: no other key holds the same object. */
    method PopEvent(key: Key) returns (event: SyscallEvent)
      requires Mirrors() && key in pending
      modifies this`pending, this`calls
      ensures event == old(pending[key]) && event.Value() == old(calls[key])
      ensures pending == old(pending) - {key} && calls == old(calls) - {key}
      ensures Mirrors() && forall k | k in pending :: pending[k] != event
    {
      event := pending[key];
      pending := pending - {key};
      calls := calls - {key};
    }

    /** `_handle_syscall_return` */
    method HandleSyscallReturn(key: Key, frame: Frame)
      requires Valid() && key in pending
      modifies this`pending, this`calls, this`sysctlMibCache, this`sysctlbynameCache, this`output, this`written
      modifies summary, decodeCtx, pending[key]
      ensures Valid()
      ensures Now() == Leave(Cfg(), old(Now()), key, frame)
    {
      ghost var e := calls[key];
      var event := PopEvent(key);
      CompleteEvent(event, frame, e);
      WriteEvent(event.Value());
    }

    /** A breakpoint hit by a known thread and frame. */
    method HandleHit(thread: int, frame: Frame)
      requires Valid()
      modifies this`pending, this`calls, this`sysctlMibCache, this`sysctlbynameCache, this`output, this`written
      modifies this`events, summary, decodeCtx, events
      ensures Valid() && fresh(events - old(events))
      ensures Now() == Step(Cfg(), old(Now()), Hit(thread, frame))
    {
      var key := Key(thread, frame.pc);
      if key in pending {
        HandleSyscallReturn(key, frame);
      } else {
        var name := EntryOf(Cfg(), HasPending(pending.Keys, thread), frame.functionName);
        if name.Some? {
          HandleSyscallEntry(thread, frame, name.value);
        }
      }
    }

    /** `_handle_stop` */
    method HandleStop(stop: Stop)
      requires Valid()
      modifies this`pending, this`calls, this`sysctlMibCache, this`sysctlbynameCache, this`output, this`written
      modifies this`events, summary, decodeCtx, events
      ensures Valid() && fresh(events - old(events))
      ensures Now() == Step(Cfg(), old(Now()), stop)
    {
      if stop.Hit? {
        HandleHit(stop.thread, stop.frame);
      }
    }

    /** One round of `_trace_loop`; the exit code when it ends the loop. */
    method Round(o: Observation) returns (exitCode: Option<int>)
      requires Valid() && !interrupted
      modifies this, summary, decodeCtx, events
      ensures Valid() && fresh(events - old(events))
      ensures exitCode == ExitCode(o)
      ensures if exitCode.Some? then EndsWith(o, exitCode.value) else GoesOn(o)
      ensures interrupted <==> o.signal
      ensures Now() == if EndsLoop(o) then old(Now()) else AfterRound(Cfg(), old(Now()), o)
    {
      if o.signal {
        interrupted := true;
        return Some(0);
      }
      match o.state
      case Exited(code) => return Some(code);
      case Gone => return Some(1);
      case Running => return None;
      case Stopped(stop) =>
        HandleStop(stop);
        return None;
    }

    /** The loop of `_trace_loop`, round by round. */
    method TraceRounds(seen: seq<Observation>) returns (exitCode: Option<int>)
      requires Valid() && !interrupted
      modifies this, summary, decodeCtx, events
      ensures Valid() && fresh(events - old(events))
      ensures var last := LastRound(seen, 0); exitCode == if last < |seen| then ExitCode(seen[last]) else None
      ensures Now() == AfterRounds(Cfg(), old(Now()), seen, LastRound(seen, 0))
    {
      ghost var start, last := Now(), LastRound(seen, 0);
      exitCode := None;
      var i := 0;
      while i < |seen|
        invariant 0 <= i <= last && !interrupted && exitCode.None?
        invariant Valid() && fresh(events - old(events))
        invariant Now() == AfterRounds(Cfg(), start, seen, i)
      {
        exitCode := Round(seen[i]);
        if exitCode.Some? {
          assert i == last;
          break;
        }
        i := i + 1;
      }
    }

    /** `_trace_loop`, over the process states it observes; `None` when they run out. */
    method TraceLoop(seen: seq<Observation>) returns (exitCode: Option<int>)
      requires Valid() && !interrupted
      modifies this, summary, decodeCtx, events
      ensures Valid() && fresh(events - old(events))
      ensures IsLoopCode(seen, exitCode)
      ensures Now() == Run(Cfg(), old(Now()), Handled(seen))
    {
      exitCode := TraceRounds(seen);
      LoopCode(seen);
      RoundsAreRun(Cfg(), old(Now()), seen, LastRound(seen, 0));
    }
  }
}
