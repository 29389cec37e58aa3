/** Single-threaded runs: the calls of the traced program form a tree, and the tracer writes its traced
    calls in post-order. */
module CallTree {
  import opened Prelude
  import opened Arch
  import opened Params
  import opened Formatters
  import opened TracerSpec

  /** A function call with the thread's state right after the call and right after its return, and the
      calls made in between. */
  datatype Call = Call(entry: Frame, callees: seq<Call>, exit: Frame)

  // ---------------------------------------------------------------------------------------------
  // The expected output, by recursion over the tree
  // ---------------------------------------------------------------------------------------------

  /** Whether a traced call gets a return breakpoint. */
  predicate Armed(cfg: Config, name: Option<string>, entry: Frame) {
    name.Some? && ReturnAddress(cfg.arch, entry).Some?
  }

  /** The events of a list of calls: every traced call after the calls it makes, except that one
      without a readable return address is written at its entry. `under` tells whether an enclosing
      call is traced; it silences `__` implementations. */
  function PostOrder(cfg: Config, under: bool, calls: seq<Call>): seq<Event>
    decreases calls
  {
    if calls == [] then [] else PostOrderOf(cfg, under, calls[0]) + PostOrder(cfg, under, calls[1..])
  }

  function PostOrderOf(cfg: Config, under: bool, c: Call): seq<Event>
    decreases c
  {
    var name := EntryOf(cfg, under, c.entry.functionName);
    AtEntry(cfg, name, c.entry)
    + PostOrder(cfg, under || Armed(cfg, name, c.entry), c.callees)
    + AtExit(cfg, name, c.entry, c.exit)
  }

  function AtEntry(cfg: Config, name: Option<string>, entry: Frame): seq<Event>
    requires name.Some? ==> name.value in cfg.defs
  {
    if name.Some? && !Armed(cfg, name, entry) then [EntryEvent(cfg, entry, name.value)] else []
  }

  function AtExit(cfg: Config, name: Option<string>, entry: Frame, exit: Frame): seq<Event>
    requires name.Some? ==> name.value in cfg.defs
  {
    if Armed(cfg, name, entry) then [Complete(cfg, EntryEvent(cfg, entry, name.value), exit)] else []
  }

  /** Open traced calls have distinct return addresses, no function starts at one of them, and each
      returns to its own. Untraced calls may share an address, as a tail-called `__foo` does. */
  predicate Placed(cfg: Config, under: bool, open: set<int>, calls: seq<Call>)
    decreases calls
  {
    calls == [] || (PlacedOne(cfg, under, open, calls[0]) && Placed(cfg, under, open, calls[1..]))
  }

  predicate PlacedOne(cfg: Config, under: bool, open: set<int>, c: Call)
    decreases c
  {
    var name := EntryOf(cfg, under, c.entry.functionName);
    && c.entry.pc !in open
    && if Armed(cfg, name, c.entry) then
         var ret := ReturnAddress(cfg.arch, c.entry).value;
         ret !in open && c.exit.pc == ret && Placed(cfg, true, open + {ret}, c.callees)
       else
         Placed(cfg, under, open, c.callees)
  }

  // ---------------------------------------------------------------------------------------------
  // The run of the program, one call or return at a time
  // ---------------------------------------------------------------------------------------------

  datatype Action = Begin(frame: Frame) | End(frame: Frame)

  function Actions(calls: seq<Call>): seq<Action> {
    if calls == [] then [] else ActionsOf(calls[0]) + Actions(calls[1..])
  }

  function ActionsOf(c: Call): seq<Action> {
    [Begin(c.entry)] + Actions(c.callees) + [End(c.exit)]
  }

  /** An open call, and the name it is traced under. */
  datatype Activation = Activation(entry: Frame, name: Option<string>)

  /** The program's stack, the stops delivered so far, and the events expected so far. */
  datatype Machine = Machine(stack: seq<Activation>, stops: seq<Stop>, log: seq<Event>)

  const IDLE := Machine([], [], [])

  predicate ValidStack(cfg: Config, stack: seq<Activation>) {
    forall i | 0 <= i < |stack| :: stack[i].name.Some? ==> stack[i].name.value in cfg.defs
  }

  predicate IsArmed(cfg: Config, a: Activation) {
    Armed(cfg, a.name, a.entry)
  }

  function Ret(cfg: Config, a: Activation): int
    requires IsArmed(cfg, a)
  {
    ReturnAddress(cfg.arch, a.entry).value
  }

  /** The return addresses that have a breakpoint. */
  function Rets(cfg: Config, stack: seq<Activation>): set<int> {
    if stack == [] then {}
    else
      var top := stack[|stack| - 1];
      Rets(cfg, stack[..|stack| - 1]) + if IsArmed(cfg, top) then {Ret(cfg, top)} else {}
  }

  /** A call stops the thread at the function; a return stops it only where a breakpoint was set. */
  function Act(cfg: Config, thread: int, m: Machine, a: Action): (m': Machine)
    requires ValidStack(cfg, m.stack)
    ensures ValidStack(cfg, m'.stack)
    ensures m.log <= m'.log
  {
    match a
    case Begin(frame) =>
      var name := EntryOf(cfg, Rets(cfg, m.stack) != {}, frame.functionName);
      Machine(m.stack + [Activation(frame, name)], m.stops + [Hit(thread, frame)], m.log + AtEntry(cfg, name, frame))
    case End(frame) =>
      if m.stack == [] then m
      else
        var top := m.stack[|m.stack| - 1];
        Machine(m.stack[..|m.stack| - 1],
                m.stops + (if IsArmed(cfg, top) then [Hit(thread, frame)] else []),
                m.log + AtExit(cfg, top.name, top.entry, frame))
  }

  predicate Legal(cfg: Config, stack: seq<Activation>, a: Action) {
    match a
    case Begin(frame) =>
      var top := Activation(frame, EntryOf(cfg, Rets(cfg, stack) != {}, frame.functionName));
      frame.pc !in Rets(cfg, stack) && (IsArmed(cfg, top) ==> Ret(cfg, top) !in Rets(cfg, stack))
    case End(frame) =>
      stack != [] && (IsArmed(cfg, stack[|stack| - 1]) ==> frame.pc == Ret(cfg, stack[|stack| - 1]))
  }

  function Perform(cfg: Config, thread: int, m: Machine, actions: seq<Action>): (m': Machine)
    requires ValidStack(cfg, m.stack)
    ensures ValidStack(cfg, m'.stack)
    ensures m.log <= m'.log
    decreases |actions|
  {
    if actions == [] then m else Perform(cfg, thread, Act(cfg, thread, m, actions[0]), actions[1..])
  }

  predicate LegalRun(cfg: Config, thread: int, m: Machine, actions: seq<Action>)
    requires ValidStack(cfg, m.stack)
    decreases |actions|
  {
    actions == [] ||
    (Legal(cfg, m.stack, actions[0]) && LegalRun(cfg, thread, Act(cfg, thread, m, actions[0]), actions[1..]))
  }

  // ---------------------------------------------------------------------------------------------
  // The tracer follows the stack
  // ---------------------------------------------------------------------------------------------

  /** The pending calls that mirror a stack: one for every armed activation. */
  function PendingOf(cfg: Config, thread: int, stack: seq<Activation>): map<Key, Event>
    requires ValidStack(cfg, stack)
  {
    if stack == [] then map[]
    else
      var top := stack[|stack| - 1];
      var below := PendingOf(cfg, thread, stack[..|stack| - 1]);
      if IsArmed(cfg, top) then below[Key(thread, Ret(cfg, top)) := EntryEvent(cfg, top.entry, top.name.value)]
      else below
  }

  predicate DistinctRets(cfg: Config, stack: seq<Activation>) {
    stack == [] ||
    (var front, top := stack[..|stack| - 1], stack[|stack| - 1];
     DistinctRets(cfg, front) && (IsArmed(cfg, top) ==> Ret(cfg, top) !in Rets(cfg, front)))
  }

  lemma {:induction false} PendingKeys(cfg: Config, thread: int, stack: seq<Activation>)
    requires ValidStack(cfg, stack)
    ensures PendingOf(cfg, thread, stack).Keys == set r | r in Rets(cfg, stack) :: Key(thread, r)
  {
    if stack != [] {
      PendingKeys(cfg, thread, stack[..|stack| - 1]);
    }
  }

  lemma PendingHasThread(cfg: Config, thread: int, stack: seq<Activation>)
    requires ValidStack(cfg, stack)
    ensures HasPending(PendingOf(cfg, thread, stack).Keys, thread) <==> Rets(cfg, stack) != {}
    ensures forall pc :: Key(thread, pc) in PendingOf(cfg, thread, stack) <==> pc in Rets(cfg, stack)
  {
    PendingKeys(cfg, thread, stack);
    if Rets(cfg, stack) != {} {
      var r :| r in Rets(cfg, stack);
      assert Key(thread, r) in PendingOf(cfg, thread, stack).Keys;
    }
  }

  /** The tracer has seen the machine's stops, holds its armed calls and has written its log. */
  predicate InStep(cfg: Config, thread: int, m: Machine)
    requires ValidStack(cfg, m.stack)
  {
    && DistinctRets(cfg, m.stack)
    && Trace(cfg, START, m.stops) == View(PendingOf(cfg, thread, m.stack), m.log)
  }

  lemma TraceSnoc(cfg: Config, stops: seq<Stop>, stop: Stop)
    ensures Trace(cfg, START, stops + [stop]) == TraceStep(cfg, Trace(cfg, START, stops), stop)
  {
    assert (stops + [stop])[..|stops|] == stops;
  }

  lemma BeginKeepsStep(cfg: Config, thread: int, m: Machine, frame: Frame)
    requires ValidStack(cfg, m.stack) && InStep(cfg, thread, m) && Legal(cfg, m.stack, Begin(frame))
    ensures InStep(cfg, thread, Act(cfg, thread, m, Begin(frame)))
  {
    PendingHasThread(cfg, thread, m.stack);
    TraceSnoc(cfg, m.stops, Hit(thread, frame));
    var name := EntryOf(cfg, Rets(cfg, m.stack) != {}, frame.functionName);
    assert (m.stack + [Activation(frame, name)])[..|m.stack|] == m.stack;
  }

  lemma EndKeepsStep(cfg: Config, thread: int, m: Machine, frame: Frame)
    requires ValidStack(cfg, m.stack) && InStep(cfg, thread, m) && Legal(cfg, m.stack, End(frame))
    ensures InStep(cfg, thread, Act(cfg, thread, m, End(frame)))
  {
    var front, top := m.stack[..|m.stack| - 1], m.stack[|m.stack| - 1];
    if IsArmed(cfg, top) {
      PendingHasThread(cfg, thread, m.stack);
      PendingHasThread(cfg, thread, front);
      TraceSnoc(cfg, m.stops, Hit(thread, frame));
      var key := Key(thread, frame.pc);
      assert key !in PendingOf(cfg, thread, front);
      assert PendingOf(cfg, thread, m.stack) - {key} == PendingOf(cfg, thread, front);
    } else {
      assert m.stops + [] == m.stops && m.log + [] == m.log;
    }
  }

  /** At every point of a legal run the pending calls are exactly the traced calls still open, and the
      written events are exactly those expected so far. */
  lemma {:induction false} RunStaysInStep(cfg: Config, thread: int, m: Machine, actions: seq<Action>)
    requires ValidStack(cfg, m.stack) && InStep(cfg, thread, m) && LegalRun(cfg, thread, m, actions)
    ensures InStep(cfg, thread, Perform(cfg, thread, m, actions))
    decreases |actions|
  {
    if actions != [] {
      match actions[0] {
        case Begin(frame) => BeginKeepsStep(cfg, thread, m, frame);
        case End(frame) => EndKeepsStep(cfg, thread, m, frame);
      }
      RunStaysInStep(cfg, thread, Act(cfg, thread, m, actions[0]), actions[1..]);
    }
  }

  // ---------------------------------------------------------------------------------------------
  // The machine follows the tree
  // ---------------------------------------------------------------------------------------------

  lemma {:induction false} PerformAppend(cfg: Config, thread: int, m: Machine, a: seq<Action>, b: seq<Action>)
    requires ValidStack(cfg, m.stack)
    ensures Perform(cfg, thread, m, a + b) == Perform(cfg, thread, Perform(cfg, thread, m, a), b)
    ensures LegalRun(cfg, thread, m, a + b) <==>
            LegalRun(cfg, thread, m, a) && LegalRun(cfg, thread, Perform(cfg, thread, m, a), b)
    decreases |a|
  {
    if a == [] {
      assert a + b == b;
    } else {
      assert (a + b)[1..] == a[1..] + b;
      PerformAppend(cfg, thread, Act(cfg, thread, m, a[0]), a[1..], b);
    }
  }

  /** These actions can be performed, restore the stack, and log these events. */
  predicate Balanced(cfg: Config, thread: int, m: Machine, actions: seq<Action>, events: seq<Event>)
    requires ValidStack(cfg, m.stack)
  {
    var after := Perform(cfg, thread, m, actions);
    LegalRun(cfg, thread, m, actions) && after.stack == m.stack && after.log == m.log + events
  }

  lemma BalancedAppend(cfg: Config, thread: int, m: Machine, a: seq<Action>, b: seq<Action>,
                       first: seq<Event>, second: seq<Event>)
    requires ValidStack(cfg, m.stack) && Balanced(cfg, thread, m, a, first)
    requires Balanced(cfg, thread, Perform(cfg, thread, m, a), b, second)
    ensures Balanced(cfg, thread, m, a + b, first + second)
  {
    PerformAppend(cfg, thread, m, a, b);
    LogAppends(m.log, first, second);
  }

  lemma LogAppends(log: seq<Event>, first: seq<Event>, second: seq<Event>)
    ensures (log + first) + second == log + (first + second)
  {
  }

  /** Performing a list of calls is legal, restores the stack and logs their post-order. */
  lemma {:induction false} PerformCalls(cfg: Config, thread: int, m: Machine, calls: seq<Call>)
    requires ValidStack(cfg, m.stack)
    requires Placed(cfg, Rets(cfg, m.stack) != {}, Rets(cfg, m.stack), calls)
    ensures Balanced(cfg, thread, m, Actions(calls), PostOrder(cfg, Rets(cfg, m.stack) != {}, calls))
    decreases calls
  {
    if calls == [] {
      assert m.log + [] == m.log;
    } else {
      var under := Rets(cfg, m.stack) != {};
      PerformCall(cfg, thread, m, calls[0]);
      PerformCalls(cfg, thread, Perform(cfg, thread, m, ActionsOf(calls[0])), calls[1..]);
      BalancedAppend(cfg, thread, m, ActionsOf(calls[0]), Actions(calls[1..]),
                     PostOrderOf(cfg, under, calls[0]), PostOrder(cfg, under, calls[1..]));
    }
  }

  function RetOf(cfg: Config, name: Option<string>, entry: Frame): set<int> {
    if Armed(cfg, name, entry) then {ReturnAddress(cfg.arch, entry).value as int} else {}
  }

  lemma PlacedInside(cfg: Config, under: bool, open: set<int>, c: Call, name: Option<string>)
    requires PlacedOne(cfg, under, open, c) && name == EntryOf(cfg, under, c.entry.functionName)
    ensures c.entry.pc !in open && open * RetOf(cfg, name, c.entry) == {}
    ensures Armed(cfg, name, c.entry) ==> c.exit.pc == ReturnAddress(cfg.arch, c.entry).value
    ensures Placed(cfg, under || Armed(cfg, name, c.entry), open + RetOf(cfg, name, c.entry), c.callees)
  {
    assert open + {} == open;
  }

  lemma {:induction false} PerformCall(cfg: Config, thread: int, m: Machine, c: Call)
    requires ValidStack(cfg, m.stack)
    requires PlacedOne(cfg, Rets(cfg, m.stack) != {}, Rets(cfg, m.stack), c)
    ensures Balanced(cfg, thread, m, ActionsOf(c), PostOrderOf(cfg, Rets(cfg, m.stack) != {}, c))
    decreases c
  {
    var under := Rets(cfg, m.stack) != {};
    var name := EntryOf(cfg, under, c.entry.functionName);
    var begun := Act(cfg, thread, m, Begin(c.entry));
    PlacedInside(cfg, under, Rets(cfg, m.stack), c, name);
    BeginPushes(cfg, thread, m, c.entry, name);
    assert under || Armed(cfg, name, c.entry) <==> Rets(cfg, begun.stack) != {};
    PerformCalls(cfg, thread, begun, c.callees);
    CloseCall(cfg, thread, m, begun, c, name, PostOrder(cfg, under || Armed(cfg, name, c.entry), c.callees));
  }

  lemma BeginPushes(cfg: Config, thread: int, m: Machine, frame: Frame, name: Option<string>)
    requires ValidStack(cfg, m.stack) && name == EntryOf(cfg, Rets(cfg, m.stack) != {}, frame.functionName)
    ensures var begun := Act(cfg, thread, m, Begin(frame));
            && begun.stack == m.stack + [Activation(frame, name)]
            && begun.log == m.log + AtEntry(cfg, name, frame)
            && Rets(cfg, begun.stack) == Rets(cfg, m.stack) + RetOf(cfg, name, frame)
    ensures frame.pc !in Rets(cfg, m.stack) && Rets(cfg, m.stack) * RetOf(cfg, name, frame) == {} ==>
              Legal(cfg, m.stack, Begin(frame))
  {
    var top := Activation(frame, name);
    assert (m.stack + [top])[..|m.stack|] == m.stack;
    assert IsArmed(cfg, top) ==> RetOf(cfg, name, frame) == {Ret(cfg, top)};
    if IsArmed(cfg, top) && Ret(cfg, top) in Rets(cfg, m.stack) {
      assert Ret(cfg, top) in Rets(cfg, m.stack) * RetOf(cfg, name, frame);
    }
  }

  lemma EndPops(cfg: Config, thread: int, m: Machine, stack: seq<Activation>,
               entry: Frame, name: Option<string>, exit: Frame)
    requires ValidStack(cfg, m.stack) && m.stack == stack + [Activation(entry, name)]
    requires Armed(cfg, name, entry) ==> exit.pc == ReturnAddress(cfg.arch, entry).value
    ensures var ended := Act(cfg, thread, m, End(exit));
            ended.stack == stack && ended.log == m.log + AtExit(cfg, name, entry, exit)
    ensures Legal(cfg, m.stack, End(exit))
  {
    assert m.stack[..|m.stack| - 1] == stack;
  }

  /** Around balanced callees, a call and its return are balanced too. */
  lemma CloseCall(cfg: Config, thread: int, m: Machine, begun: Machine, c: Call,
                  name: Option<string>, inner: seq<Event>)
    requires ValidStack(cfg, m.stack) && Legal(cfg, m.stack, Begin(c.entry))
    requires begun == Act(cfg, thread, m, Begin(c.entry)) && begun.stack == m.stack + [Activation(c.entry, name)]
    requires name.Some? ==> name.value in cfg.defs
    requires begun.log == m.log + AtEntry(cfg, name, c.entry)
    requires Armed(cfg, name, c.entry) ==> c.exit.pc == ReturnAddress(cfg.arch, c.entry).value
    requires Balanced(cfg, thread, begun, Actions(c.callees), inner)
    ensures Balanced(cfg, thread, m, ActionsOf(c),
                     AtEntry(cfg, name, c.entry) + inner + AtExit(cfg, name, c.entry, c.exit))
  {
    var called := Perform(cfg, thread, begun, Actions(c.callees));
    EndPops(cfg, thread, called, m.stack, c.entry, name, c.exit);
    PerformOne(cfg, thread, called, End(c.exit));
    PerformAppend(cfg, thread, begun, Actions(c.callees), [End(c.exit)]);
    PerformBegin(cfg, thread, m, c);
    Concat4(m.log, AtEntry(cfg, name, c.entry), inner, AtExit(cfg, name, c.entry, c.exit));
  }

  lemma PerformBegin(cfg: Config, thread: int, m: Machine, c: Call)
    requires ValidStack(cfg, m.stack)
    ensures var begun := Act(cfg, thread, m, Begin(c.entry));
            && Perform(cfg, thread, m, ActionsOf(c)) == Perform(cfg, thread, begun, Actions(c.callees) + [End(c.exit)])
            && (LegalRun(cfg, thread, m, ActionsOf(c)) <==>
                Legal(cfg, m.stack, Begin(c.entry)) && LegalRun(cfg, thread, begun, Actions(c.callees) + [End(c.exit)]))
  {
    assert ActionsOf(c)[0] == Begin(c.entry);
    assert ActionsOf(c)[1..] == Actions(c.callees) + [End(c.exit)];
  }

  lemma Concat4<T>(a: seq<T>, b: seq<T>, c: seq<T>, d: seq<T>)
    ensures ((a + b) + c) + d == a + (b + c + d)
  {
  }

  lemma PerformOne(cfg: Config, thread: int, m: Machine, a: Action)
    requires ValidStack(cfg, m.stack)
    ensures Perform(cfg, thread, m, [a]) == Act(cfg, thread, m, a)
    ensures LegalRun(cfg, thread, m, [a]) <==> Legal(cfg, m.stack, a)
  {
    assert [a][1..] == [];
    assert Perform(cfg, thread, Act(cfg, thread, m, a), [a][1..]) == Act(cfg, thread, m, a);
  }

  // ---------------------------------------------------------------------------------------------
  // The theorems
  // ---------------------------------------------------------------------------------------------

  /** A finished run leaves nothing pending and has written the post-order of its traced calls. */
  lemma TraceIsPostOrder(cfg: Config, thread: int, calls: seq<Call>)
    requires Placed(cfg, false, {}, calls)
    ensures var m := Perform(cfg, thread, IDLE, Actions(calls));
            Trace(cfg, START, m.stops) == View(map[], PostOrder(cfg, false, calls))
  {
    PerformCalls(cfg, thread, IDLE, calls);
    RunStaysInStep(cfg, thread, IDLE, Actions(calls));
    assert [] + PostOrder(cfg, false, calls) == PostOrder(cfg, false, calls);
  }

  /** After any number of calls and returns, the pending calls are exactly the traced calls still on
      the stack, and what is written is a prefix of the post-order. */
  lemma TraceAtEveryPoint(cfg: Config, thread: int, calls: seq<Call>, n: nat)
    requires Placed(cfg, false, {}, calls) && n <= |Actions(calls)|
    ensures var m := Perform(cfg, thread, IDLE, Actions(calls)[..n]);
            && Trace(cfg, START, m.stops) == View(PendingOf(cfg, thread, m.stack), m.log)
            && m.log <= PostOrder(cfg, false, calls)
  {
    var done, rest := Actions(calls)[..n], Actions(calls)[n..];
    PerformCalls(cfg, thread, IDLE, calls);
    assert Actions(calls) == done + rest;
    PerformAppend(cfg, thread, IDLE, done, rest);
    RunStaysInStep(cfg, thread, IDLE, done);
    assert [] + PostOrder(cfg, false, calls) == PostOrder(cfg, false, calls);
  }

  /** The same for the tracer with its caches, from any cache contents. */
  lemma RunIsPostOrder(cfg: Config, caches: Caches, thread: int, calls: seq<Call>)
    requires WellFormed(cfg) && Placed(cfg, false, {}, calls)
    requires forall i | 0 <= i < |Perform(cfg, thread, IDLE, Actions(calls)).stops| ::
               HasOwnMib(cfg, Perform(cfg, thread, IDLE, Actions(calls)).stops[i])
    ensures var m := Perform(cfg, thread, IDLE, Actions(calls));
            Run(cfg, State(START, caches), m.stops).view == View(map[], PostOrder(cfg, false, calls))
  {
    TraceIsPostOrder(cfg, thread, calls);
    RunIsTrace(cfg, caches, Perform(cfg, thread, IDLE, Actions(calls)).stops);
  }
}
