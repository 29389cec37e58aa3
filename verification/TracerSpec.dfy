/** The tracer as a state machine over debugger stops: what each stop does to the pending calls and
    to the stream of written events. */
module TracerSpec {
  import opened Prelude
  import opened Bits
  import opened FileSymbols
  import opened Args
  import opened Arch
  import opened Sysctl
  import opened Params
  import opened Registry
  import opened Formatters

  datatype ErrnoName = ErrnoName(name: string, description: string)

  /** What is fixed during a run: the registry, the filter, the options, the machine, the tables. */
  datatype Config = Config(
    defs: map<string, SyscallDef>,
    categories: map<string, Category>,
    filterCategory: Option<Category>,
    filterNames: Option<set<string>>,
    noAbbrev: bool,
    arch: Architecture,
    pid: int,
    tables: Tables,
    errnoNames: map<int, ErrnoName>)

  /** `(thread_id, return_address)` */
  datatype Key = Key(thread: int, ret: int)

  datatype Stop = NoThread | NoFrame | Hit(thread: int, frame: Frame)

  datatype View = View(pending: map<Key, Event>, out: seq<Event>)

  const START := View(map[], [])

  datatype State = State(view: View, caches: Caches)

  // ---------------------------------------------------------------------------------------------
  // Which stops matter
  // ---------------------------------------------------------------------------------------------

  /** `name.lstrip("_")` */
  function StripUnderscores(name: string): (r: string)
    ensures r == "" || r[0] != '_'
  {
    if name != "" && name[0] == '_' then StripUnderscores(name[1..]) else name
  }

  /** `f` is `name` behind any number of underscores, and `name` starts with none. */
  predicate Underscored(f: string, name: string) {
    && |name| <= |f| && f[|f| - |name|..] == name
    && (forall i | 0 <= i < |f| - |name| :: f[i] == '_')
    && (name == "" || name[0] != '_')
  }

  /** Stripping removes all leading underscores and nothing else. */
  lemma {:induction false} StripsUnderscores(f: string, name: string)
    ensures StripUnderscores(f) == name <==> Underscored(f, name)
  {
    assert f[0..] == f;
    if f != "" && f[0] == '_' {
      StripsUnderscores(f[1..], name);
      if |name| < |f| {
        assert f[|f| - |name|..] == f[1..][|f| - 1 - |name|..];
        assert forall i | 0 <= i < |f| - 1 - |name| :: f[1..][i] == f[i + 1];
      }
    }
  }

  function ShouldTrace(cfg: Config, name: string): bool {
    if cfg.filterCategory.Some? then name in cfg.categories && cfg.categories[name] == cfg.filterCategory.value
    else if cfg.filterNames.Some? then name in cfg.filterNames.value
    else true
  }

  predicate IsImplementation(functionName: string) {
    "__" <= functionName
  }

  /** The syscall a function stop starts, given whether its thread already has a pending one. */
  function EntryOf(cfg: Config, threadHasPending: bool, functionName: Option<string>): (name: Option<string>)
    ensures name.Some? ==> name.value in cfg.defs && ShouldTrace(cfg, name.value)
    ensures name.Some? ==> name.value == "" || name.value[0] != '_'
  {
    if functionName.None? || functionName.value == "" then None
    else
      var name := StripUnderscores(functionName.value);
      if name !in cfg.defs then None
      else if IsImplementation(functionName.value) && !IsImplementation(cfg.defs[name].name)
              && threadHasPending then None
      else if !ShouldTrace(cfg, name) then None
      else Some(name)
  }

  predicate TwoUnderscores(name: string) {
    |name| >= 2 && name[0] == '_' && name[1] == '_'
  }

  /** Exactly which function stops are entries of syscall `name`: an implementation, whose name starts with
      two underscores, is none while a call is pending. */
  lemma EnteredExactly(cfg: Config, threadHasPending: bool, functionName: Option<string>, name: string)
    ensures EntryOf(cfg, threadHasPending, functionName) == Some(name) <==>
            && functionName.Some? && functionName.value != "" && Underscored(functionName.value, name)
            && name in cfg.defs && ShouldTrace(cfg, name)
            && (TwoUnderscores(functionName.value) && threadHasPending ==> TwoUnderscores(cfg.defs[name].name))
  {
    if functionName.Some? {
      StripsUnderscores(functionName.value, name);
    }
  }

  /** A registered name that passes the filter is entered from some function exactly when it has no
      leading underscore. */
  lemma ReachableNames(cfg: Config, name: string)
    requires name in cfg.defs && ShouldTrace(cfg, name)
    ensures (exists f :: EntryOf(cfg, false, Some(f)) == Some(name)) <==> name == "" || name[0] != '_'
  {
    if name == "" {
      EnteredExactly(cfg, false, Some("_"), name);
    } else if name[0] != '_' {
      EnteredExactly(cfg, false, Some(name), name);
    }
  }

  /** No stop is ever taken for the registered `__mac_execve`, not even one in the function itself. */
  lemma MacExecveIsNeverEntered(cfg: Config, keys: set<Key>, stop: Stop)
    requires "__mac_execve" in cfg.defs && ShouldTrace(cfg, "__mac_execve")
    ensures Classify(cfg, keys, stop) != Entry("__mac_execve")
    ensures "mac_execve" !in cfg.defs ==> EntryOf(cfg, false, Some("__mac_execve")) == None
  {
    StripsUnderscores("__mac_execve", "mac_execve");
  }

  predicate HasPending(keys: set<Key>, thread: int) {
    exists k | k in keys :: k.thread == thread
  }

  datatype Decision = Ignore | Return(key: Key) | Entry(name: string)

  /** What `_handle_stop` decides; it looks at the keys of the pending calls only. */
  function Classify(cfg: Config, keys: set<Key>, stop: Stop): (d: Decision)
    ensures !d.Ignore? ==> stop.Hit?
    ensures d.Return? <==> stop.Hit? && Key(stop.thread, stop.frame.pc) in keys
    ensures d.Return? ==> d.key == Key(stop.thread, stop.frame.pc)
    ensures d.Entry? ==> d.name in cfg.defs && Key(stop.thread, stop.frame.pc) !in keys
  {
    match stop
    case NoThread => Ignore
    case NoFrame => Ignore
    case Hit(thread, frame) =>
      if Key(thread, frame.pc) in keys then Return(Key(thread, frame.pc))
      else
        var name := EntryOf(cfg, HasPending(keys, thread), frame.functionName);
        if name.Some? then Entry(name.value) else Ignore
  }

  // ---------------------------------------------------------------------------------------------
  // Entry
  // ---------------------------------------------------------------------------------------------

  function RawArgs(cfg: Config, frame: Frame, name: string): (raws: seq<u64>)
    requires name in cfg.defs
    ensures |raws| == |cfg.defs[name].params|
  {
    ReadRawArgs(cfg.arch, frame, |cfg.defs[name].params|, cfg.defs[name].variadicStart)
  }

  function EntryContext(cfg: Config, frame: Frame, raws: seq<u64>): Context {
    Context(cfg.noAbbrev, cfg.tables, frame.memory, 0, raws, frame.listId, true, None)
  }

  function OrUnknown(a: Option<Arg>): Arg {
    if a.Some? then a.value else UnknownArg
  }

  function NewEvent(cfg: Config, frame: Frame, name: string, decoded: seq<Option<Arg>>): Event
    requires name in cfg.defs
  {
    Event(cfg.pid, name, Map(OrUnknown, decoded), Message("?"), frame.time, RawArgs(cfg, frame, name), frame.listId)
  }

  /** Without a return address the event is written at once; otherwise it becomes pending. */
  function Filed(cfg: Config, v: View, thread: int, frame: Frame, e: Event): View {
    match ReturnAddress(cfg.arch, frame)
    case None => v.(out := v.out + [e])
    case Some(ret) => v.(pending := v.pending[Key(thread, ret) := e])
  }

  // ---------------------------------------------------------------------------------------------
  // Return
  // ---------------------------------------------------------------------------------------------

  /** `decode_fcntl_return` */
  function FcntlResult(ret: nat, args: seq<u64>, noAbbrev: bool): ReturnValue
    requires ret < TWO_TO_63
  {
    if |args| < 2 then Number(ret)
    else if args[1] == 3 then
      if noAbbrev then Message(HexLiteral(ret)) else Message(OpenText(ret) + " (" + HexLiteral(ret) + ")")
    else if args[1] == 1 && !noAbbrev && And(ret, 1) != 0 then Message("FD_CLOEXEC")
    else Number(ret)
  }

  /** `decode_errno`, or "-1" when errno could not be read. */
  function ErrnoText(cfg: Config, errno: Option<int>): string {
    if errno.Some? && errno.value > 0 && errno.value in cfg.errnoNames then
      "-1 " + cfg.errnoNames[errno.value].name + " (" + cfg.errnoNames[errno.value].description + ")"
    else
      "-1"
  }

  /** `_decode_return_value` */
  function DecodeReturn(cfg: Config, frame: Frame, name: string, rawArgs: seq<u64>): ReturnValue {
    var reg := FindRegister(frame, ReturnRegister(cfg.arch));
    if reg.None? then Message("?")
    else
      var signed := ToSigned(reg.value);
      if name in cfg.defs && cfg.defs[name].returnDecoder.Some? && signed >= 0 then
        FcntlResult(signed, rawArgs, cfg.noAbbrev)
      else if signed == -1 && !cfg.noAbbrev then
        Message(ErrnoText(cfg, frame.errno))
      else
        Number(signed)
  }

  function ExitContext(cfg: Config, frame: Frame, e: Event, ret: ReturnValue): Context {
    Context(cfg.noAbbrev, cfg.tables, frame.memory, 0, e.rawArgs, e.listId, false, Some(ret))
  }

  /** How many parameters the exit loop re-decodes: none unless the call succeeded. */
  function ExitCount(cfg: Config, e: Event, ret: ReturnValue): (n: nat)
    ensures n > 0 ==> e.name in cfg.defs && n <= |cfg.defs[e.name].params|
    ensures n <= |e.args| && n <= |e.rawArgs|
  {
    if ret.Number? && ret.number >= 0 && e.name in cfg.defs then
      Min(|cfg.defs[e.name].params|, Min(|e.args|, |e.rawArgs|))
    else
      0
  }

  function ParamsOf(cfg: Config, e: Event): seq<Param> {
    if e.name in cfg.defs then cfg.defs[e.name].params else []
  }

  /** The arguments that decoded to something at exit replace those of the entry. */
  function Update(args: seq<Arg>, decoded: seq<Option<Arg>>): (r: seq<Arg>)
    requires |decoded| <= |args|
    ensures |r| == |args|
    ensures forall i | 0 <= i < |args| ::
              r[i] == if i < |decoded| && decoded[i].Some? then decoded[i].value else args[i]
  {
    seq(|args|, i requires 0 <= i < |args| => if i < |decoded| && decoded[i].Some? then decoded[i].value else args[i])
  }

  function Finish(v: View, key: Key, e: Event): View {
    View(v.pending - {key}, v.out + [e])
  }

  // ---------------------------------------------------------------------------------------------
  // One stop, with the tracer's caches
  // ---------------------------------------------------------------------------------------------

  function Enter(cfg: Config, s: State, thread: int, frame: Frame, name: string): State
    requires name in cfg.defs
  {
    var raws := RawArgs(cfg, frame, name);
    var pass := Pass(cfg.defs[name].params, EntryContext(cfg, frame, raws), |raws|, s.caches);
    State(Filed(cfg, s.view, thread, frame, NewEvent(cfg, frame, name, pass.args)), pass.caches)
  }

  /** What a return stop makes of a pending event, with the caches as they are at that moment. */
  function ExitPass(cfg: Config, e: Event, frame: Frame, caches: Caches): PassResult {
    var ret := DecodeReturn(cfg, frame, e.name, e.rawArgs);
    Pass(ParamsOf(cfg, e), ExitContext(cfg, frame, e, ret), ExitCount(cfg, e, ret), caches)
  }

  function ExitEvent(cfg: Config, e: Event, frame: Frame, caches: Caches): Event {
    e.(returnValue := DecodeReturn(cfg, frame, e.name, e.rawArgs),
       args := Update(e.args, ExitPass(cfg, e, frame, caches).args))
  }

  function Leave(cfg: Config, s: State, key: Key, frame: Frame): State
    requires key in s.view.pending
  {
    var e := s.view.pending[key];
    State(Finish(s.view, key, ExitEvent(cfg, e, frame, s.caches)), ExitPass(cfg, e, frame, s.caches).caches)
  }

  /** `_handle_stop` */
  function Step(cfg: Config, s: State, stop: Stop): State {
    match Classify(cfg, s.view.pending.Keys, stop)
    case Ignore => s
    case Return(key) => Leave(cfg, s, key, stop.frame)
    case Entry(name) => Enter(cfg, s, stop.thread, stop.frame, name)
  }

  function Run(cfg: Config, s: State, stops: seq<Stop>): State {
    if stops == [] then s else Step(cfg, Run(cfg, s, stops[..|stops| - 1]), stops[|stops| - 1])
  }

  lemma RunSnoc(cfg: Config, s: State, stops: seq<Stop>, stop: Stop)
    ensures Run(cfg, s, stops + [stop]) == Step(cfg, Run(cfg, s, stops), stop)
  {
    assert (stops + [stop])[..|stops|] == stops;
  }

  // ---------------------------------------------------------------------------------------------
  // One stop, decoding every call from its own stops alone
  // ---------------------------------------------------------------------------------------------

  /** The event an entry stop creates. */
  function EntryEvent(cfg: Config, frame: Frame, name: string): Event
    requires name in cfg.defs
  {
    var raws := RawArgs(cfg, frame, name);
    NewEvent(cfg, frame, name, FreshPass(cfg.defs[name].params, EntryContext(cfg, frame, raws), |raws|))
  }

  /** The event a return stop makes of a pending one. */
  function Complete(cfg: Config, e: Event, frame: Frame): Event {
    var ret := DecodeReturn(cfg, frame, e.name, e.rawArgs);
    var decoded := FreshPass(ParamsOf(cfg, e), ExitContext(cfg, frame, e, ret), ExitCount(cfg, e, ret));
    e.(returnValue := ret, args := Update(e.args, decoded))
  }

  function TraceStep(cfg: Config, v: View, stop: Stop): View {
    match Classify(cfg, v.pending.Keys, stop)
    case Ignore => v
    case Return(key) => Finish(v, key, Complete(cfg, v.pending[key], stop.frame))
    case Entry(name) => Filed(cfg, v, stop.thread, stop.frame, EntryEvent(cfg, stop.frame, name))
  }

  function Trace(cfg: Config, v: View, stops: seq<Stop>): View {
    if stops == [] then v else TraceStep(cfg, Trace(cfg, v, stops[..|stops| - 1]), stops[|stops| - 1])
  }

  // ---------------------------------------------------------------------------------------------
  // The caches do not show
  // ---------------------------------------------------------------------------------------------

  /** A registry whose definitions carry their key as name and list cache writers before readers. */
  predicate WellFormed(cfg: Config) {
    forall n | n in cfg.defs :: cfg.defs[n].name == n && Ordered(cfg.defs[n].params)
  }

  /** The stop starts no sysctl call without a MIB. */
  predicate HasOwnMib(cfg: Config, stop: Stop) {
    stop.Hit? ==>
      var name := EntryOf(cfg, false, stop.frame.functionName);
      name.Some? ==> HasMib(cfg.defs[name.value].params, RawArgs(cfg, stop.frame, name.value))
  }

  predicate PendingHaveMib(cfg: Config, pending: map<Key, Event>) {
    forall k | k in pending :: HasMib(ParamsOf(cfg, pending[k]), pending[k].rawArgs)
  }

  lemma EntryWithPending(cfg: Config, threadHasPending: bool, functionName: Option<string>)
    ensures var name := EntryOf(cfg, threadHasPending, functionName);
            name.Some? ==> name == EntryOf(cfg, false, functionName)
  {
  }

  /** The call has the MIBs it needs, or no cached MIB has its identity. */
  predicate HasMibOrNone(params: seq<Param>, rawArgs: seq<u64>, listId: int, caches: Caches) {
    HasMib(params, rawArgs) || listId !in caches.mibs
  }

  lemma LeaveIsFresh(cfg: Config, s: State, key: Key, frame: Frame)
    requires WellFormed(cfg) && key in s.view.pending
    requires var e := s.view.pending[key]; HasMibOrNone(ParamsOf(cfg, e), e.rawArgs, e.listId, s.caches)
    ensures Leave(cfg, s, key, frame).view == Finish(s.view, key, Complete(cfg, s.view.pending[key], frame))
  {
    var e := s.view.pending[key];
    var ret := DecodeReturn(cfg, frame, e.name, e.rawArgs);
    if ExitCount(cfg, e, ret) > 0 {
      PassIsFresh(ParamsOf(cfg, e), ExitContext(cfg, frame, e, ret), ExitCount(cfg, e, ret), s.caches);
    }
  }

  lemma EnterIsFresh(cfg: Config, s: State, thread: int, frame: Frame, name: string)
    requires WellFormed(cfg) && name in cfg.defs
    requires HasMibOrNone(cfg.defs[name].params, RawArgs(cfg, frame, name), frame.listId, s.caches)
    ensures Enter(cfg, s, thread, frame, name).view == Filed(cfg, s.view, thread, frame, EntryEvent(cfg, frame, name))
  {
    var raws := RawArgs(cfg, frame, name);
    PassIsFresh(cfg.defs[name].params, EntryContext(cfg, frame, raws), |raws|, s.caches);
  }

  lemma StepIsTraceStep(cfg: Config, s: State, stop: Stop)
    requires WellFormed(cfg) && HasOwnMib(cfg, stop) && PendingHaveMib(cfg, s.view.pending)
    ensures Step(cfg, s, stop).view == TraceStep(cfg, s.view, stop)
    ensures PendingHaveMib(cfg, Step(cfg, s, stop).view.pending)
  {
    match Classify(cfg, s.view.pending.Keys, stop)
    case Ignore =>
    case Return(key) => LeaveIsFresh(cfg, s, key, stop.frame);
    case Entry(name) =>
      EntryWithPending(cfg, HasPending(s.view.pending.Keys, stop.thread), stop.frame.functionName);
      EnterIsFresh(cfg, s, stop.thread, stop.frame, name);
  }

  /** In every run whose sysctl calls have a MIB, events are those of a tracer that decodes each call
      from its own two stops: nothing leaks through the caches, whatever was in them at the start. */
  lemma {:induction false} RunIsTrace(cfg: Config, caches: Caches, stops: seq<Stop>)
    requires WellFormed(cfg) && forall i | 0 <= i < |stops| :: HasOwnMib(cfg, stops[i])
    ensures Run(cfg, State(START, caches), stops).view == Trace(cfg, START, stops)
    ensures PendingHaveMib(cfg, Trace(cfg, START, stops).pending)
  {
    if stops != [] {
      var front := stops[..|stops| - 1];
      RunIsTrace(cfg, caches, front);
      StepIsTraceStep(cfg, Run(cfg, State(START, caches), front), stops[|stops| - 1]);
    }
  }

  // ---------------------------------------------------------------------------------------------
  // What holds without that condition
  // ---------------------------------------------------------------------------------------------

  /** An event without its decoded arguments. */
  function Outline(e: Event): Event {
    e.(args := [])
  }

  /** Two views that differ in decoded arguments only. */
  predicate SameOutline(a: View, b: View) {
    && a.pending.Keys == b.pending.Keys
    && (forall k | k in a.pending :: Outline(a.pending[k]) == Outline(b.pending[k]))
    && |a.out| == |b.out|
    && (forall i | 0 <= i < |a.out| :: Outline(a.out[i]) == Outline(b.out[i]))
  }

  lemma LeaveOutline(cfg: Config, s: State, v: View, key: Key, frame: Frame)
    requires SameOutline(s.view, v) && key in v.pending
    ensures SameOutline(Leave(cfg, s, key, frame).view, Finish(v, key, Complete(cfg, v.pending[key], frame)))
  {
    assert Outline(s.view.pending[key]) == Outline(v.pending[key]);
  }

  lemma EnterOutline(cfg: Config, s: State, v: View, thread: int, frame: Frame, name: string)
    requires SameOutline(s.view, v) && name in cfg.defs
    ensures SameOutline(Enter(cfg, s, thread, frame, name).view,
                        Filed(cfg, v, thread, frame, EntryEvent(cfg, frame, name)))
  {
  }

  lemma StepOutline(cfg: Config, s: State, v: View, stop: Stop)
    requires SameOutline(s.view, v)
    ensures SameOutline(Step(cfg, s, stop).view, TraceStep(cfg, v, stop))
  {
    match Classify(cfg, v.pending.Keys, stop)
    case Ignore =>
    case Return(key) => LeaveOutline(cfg, s, v, key, stop.frame);
    case Entry(name) => EnterOutline(cfg, s, v, stop.thread, stop.frame, name);
  }

  /** Every run, with whatever caches, writes the events of the cache-free tracer up to their decoded
      arguments: same calls, same order, same raw arguments, same return values. */
  lemma {:induction false} RunOutline(cfg: Config, caches: Caches, stops: seq<Stop>)
    ensures SameOutline(Run(cfg, State(START, caches), stops).view, Trace(cfg, START, stops))
  {
    if stops != [] {
      var front := stops[..|stops| - 1];
      RunOutline(cfg, caches, front);
      StepOutline(cfg, Run(cfg, State(START, caches), front), Trace(cfg, START, front), stops[|stops| - 1]);
    }
  }
}
