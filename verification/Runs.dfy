/** The tracer with its caches, over whole runs: nested calls, interleaved threads, lost calls. Every
    theorem starts from arbitrary cache contents. */
module Runs {
  import opened Prelude
  import opened Arch
  import opened Formatters
  import opened Identities
  import opened Params
  import opened TracerSpec
  import opened CallTree
  import opened Threads
  import Ledger

  // ---------------------------------------------------------------------------------------------
  // The events of one thread
  // ---------------------------------------------------------------------------------------------

  lemma RunAppends(cfg: Config, s: State, stop: Stop)
    ensures s.view.out <= Step(cfg, s, stop).view.out
    ensures |Step(cfg, s, stop).view.out| <= |s.view.out| + 1
  {
    match Classify(cfg, s.view.pending.Keys, stop)
    case Ignore =>
    case Return(key) =>
      FinishAppends(s.view, key, ExitEvent(cfg, s.view.pending[key], stop.frame, s.caches));
    case Entry(name) =>
      var raws := RawArgs(cfg, stop.frame, name);
      var pass := Pass(cfg.defs[name].params, EntryContext(cfg, stop.frame, raws), |raws|, s.caches);
      FiledAppends(cfg, s.view, stop.thread, stop.frame, NewEvent(cfg, stop.frame, name, pass.args));
  }

  /** The events that one stop of the tracer with caches writes. */
  function RunNewEvents(cfg: Config, s: State, stop: Stop): seq<Event> {
    RunAppends(cfg, s, stop);
    Step(cfg, s, stop).view.out[|s.view.out|..]
  }

  /** The events the tracer with caches writes at the stops of one thread. */
  function RunWrittenBy(cfg: Config, caches: Caches, thread: int, stops: seq<Stop>): seq<Event> {
    if stops == [] then []
    else
      var front, last := stops[..|stops| - 1], stops[|stops| - 1];
      RunWrittenBy(cfg, caches, thread, front) +
      if IsOf(thread, last) then RunNewEvents(cfg, Run(cfg, State(START, caches), front), last) else []
  }

  /** What the tracer with caches holds and has written for one thread. */
  function ThreadView(cfg: Config, caches: Caches, thread: int, stops: seq<Stop>): View {
    View(PendingIn(thread, Run(cfg, State(START, caches), stops).view.pending),
         RunWrittenBy(cfg, caches, thread, stops))
  }

  lemma {:induction false} RunWrittenIsWritten(cfg: Config, caches: Caches, thread: int, stops: seq<Stop>)
    requires WellFormed(cfg) && Unshared(cfg, caches, stops)
    ensures RunWrittenBy(cfg, caches, thread, stops) == WrittenBy(cfg, thread, stops)
  {
    if stops != [] {
      RunWrittenIsWritten(cfg, caches, thread, stops[..|stops| - 1]);
      RunIsExact(cfg, caches, stops[..|stops| - 1]);
      RunIsExact(cfg, caches, stops);
    }
  }

  /** What the tracer with caches holds and has written for one thread is what the cache-free tracer holds
      and has written for the thread's own stops alone. */
  lemma ThreadIsExact(cfg: Config, caches: Caches, thread: int, stops: seq<Stop>)
    requires WellFormed(cfg) && Unshared(cfg, caches, stops)
    ensures ThreadView(cfg, caches, thread, stops) == Trace(cfg, START, Only(thread, stops))
  {
    RunIsExact(cfg, caches, stops);
    RunWrittenIsWritten(cfg, caches, thread, stops);
    ThreadsAreIndependent(cfg, thread, stops);
  }

  lemma OwnUnshared(cfg: Config, thread: int, left: set<int>, mine: set<int>, v: View, alone: View, stop: Stop)
    requires IsOf(thread, stop) && PendingIn(thread, v.pending) == alone.pending && mine <= left
    requires UnsharedAt(cfg, left, v, stop)
    ensures UnsharedAt(cfg, mine, alone, stop) && LeftBy(cfg, alone, stop) == LeftBy(cfg, v, stop)
  {
    ClassifyLocally(cfg, v.pending.Keys, alone.pending.Keys, stop);
  }

  /** The stops of one thread share no identity either. */
  lemma {:induction false} OnlyIsUnshared(cfg: Config, caches: Caches, thread: int, stops: seq<Stop>)
    requires Unshared(cfg, caches, stops)
    ensures Unshared(cfg, caches, Only(thread, stops))
    ensures LeftIds(cfg, caches, Only(thread, stops)) <= LeftIds(cfg, caches, stops)
  {
    if stops != [] {
      var n := |stops| - 1;
      var front, last := stops[..n], stops[n];
      OnlyIsUnshared(cfg, caches, thread, front);
      FilterSnoc((s: Stop) => IsOf(thread, s), stops, n);
      assert stops[..n + 1] == stops;
      if IsOf(thread, last) {
        ThreadsAreIndependent(cfg, thread, front);
        OwnUnshared(cfg, thread, LeftIds(cfg, caches, front), LeftIds(cfg, caches, Only(thread, front)),
                    Trace(cfg, START, front), Trace(cfg, START, Only(thread, front)), last);
        assert Only(thread, stops)[..|Only(thread, front)|] == Only(thread, front);
      } else {
        assert Only(thread, stops) == Only(thread, front);
      }
    }
  }

  /** Threads are independent although they share the caches: unless a sysctl without a MIB shares its list
      identity with one that names a MIB, a thread's pending calls and written events are those of a run of
      its own stops alone, whatever the caches hold at the start of either run. */
  lemma RunThreadsAreIndependent(cfg: Config, caches: Caches, other: Caches, thread: int, stops: seq<Stop>)
    requires WellFormed(cfg) && Unshared(cfg, caches, stops) && Unshared(cfg, other, stops)
    ensures ThreadView(cfg, caches, thread, stops) == Run(cfg, State(START, other), Only(thread, stops)).view
  {
    ThreadIsExact(cfg, caches, thread, stops);
    OnlyIsUnshared(cfg, other, thread, stops);
    RunIsExact(cfg, other, Only(thread, stops));
  }

  // ---------------------------------------------------------------------------------------------
  // Threads without the MIB condition
  // ---------------------------------------------------------------------------------------------

  predicate SameEvents(a: seq<Event>, b: seq<Event>) {
    |a| == |b| && forall i | 0 <= i < |a| :: Outline(a[i]) == Outline(b[i])
  }

  lemma SameEventsAppend(a: seq<Event>, b: seq<Event>, c: seq<Event>, d: seq<Event>)
    requires SameEvents(a, b) && SameEvents(c, d)
    ensures SameEvents(a + c, b + d)
  {
  }

  lemma NewEventsOutline(cfg: Config, s: State, v: View, stop: Stop)
    requires SameOutline(s.view, v)
    ensures SameEvents(RunNewEvents(cfg, s, stop), NewEvents(cfg, v, stop))
  {
    StepOutline(cfg, s, v, stop);
    RunAppends(cfg, s, stop);
    StepAppends(cfg, v, stop);
    var a, b := Step(cfg, s, stop).view.out, TraceStep(cfg, v, stop).out;
    SameEventsDrop(a, b, |v.out|);
  }

  lemma SameEventsDrop(a: seq<Event>, b: seq<Event>, n: nat)
    requires SameEvents(a, b) && n <= |a|
    ensures SameEvents(a[n..], b[n..])
  {
  }

  lemma {:induction false} RunWrittenOutline(cfg: Config, caches: Caches, thread: int, stops: seq<Stop>)
    ensures SameEvents(RunWrittenBy(cfg, caches, thread, stops), WrittenBy(cfg, thread, stops))
  {
    if stops != [] {
      var front, last := stops[..|stops| - 1], stops[|stops| - 1];
      RunWrittenOutline(cfg, caches, thread, front);
      RunOutline(cfg, caches, front);
      if IsOf(thread, last) {
        var s, v := Run(cfg, State(START, caches), front), Trace(cfg, START, front);
        NewEventsOutline(cfg, s, v, last);
        SameEventsAppend(RunWrittenBy(cfg, caches, thread, front), WrittenBy(cfg, thread, front),
                         RunNewEvents(cfg, s, last), NewEvents(cfg, v, last));
      }
    }
  }

  lemma SameOutlineVia(a: View, b: View, c: View)
    requires SameOutline(a, b) && SameOutline(c, b)
    ensures SameOutline(a, c)
  {
  }

  /** What one thread holds and has written is, for every interleaving and whatever the caches hold, the
      cache-free view of its own stops up to decoded arguments. */
  lemma ThreadOutline(cfg: Config, caches: Caches, thread: int, stops: seq<Stop>)
    ensures SameOutline(ThreadView(cfg, caches, thread, stops), Trace(cfg, START, Only(thread, stops)))
  {
    RunOutline(cfg, caches, stops);
    RunWrittenOutline(cfg, caches, thread, stops);
    ThreadsAreIndependent(cfg, thread, stops);
  }

  /** Without any condition, other threads and caches can affect decoded arguments only: which calls are
      pending, which are written, their order, raw arguments and return values are those of the thread
      alone. */
  lemma RunThreadsOutline(cfg: Config, caches: Caches, other: Caches, thread: int, stops: seq<Stop>)
    ensures SameOutline(ThreadView(cfg, caches, thread, stops), Run(cfg, State(START, other), Only(thread, stops)).view)
  {
    ThreadOutline(cfg, caches, thread, stops);
    RunOutline(cfg, other, Only(thread, stops));
    SameOutlineVia(ThreadView(cfg, caches, thread, stops), Trace(cfg, START, Only(thread, stops)),
                   Run(cfg, State(START, other), Only(thread, stops)).view);
  }

  // ---------------------------------------------------------------------------------------------
  // Nested runs at every point
  // ---------------------------------------------------------------------------------------------

  /** The program after the first `n` calls and returns of a nested run. */
  function After(cfg: Config, thread: int, calls: seq<Call>, n: nat): (m: Machine)
    requires n <= |Actions(calls)|
    ensures ValidStack(cfg, m.stack)
  {
    Perform(cfg, thread, IDLE, Actions(calls)[..n])
  }

  /** What the tracer should hold and have written at that point. */
  function ViewOf(cfg: Config, thread: int, m: Machine): View
    requires ValidStack(cfg, m.stack)
  {
    View(PendingOf(cfg, thread, m.stack), m.log)
  }

  /** At every point of a nested run, from any cache contents, the tracer holds the traced frames on the
      stack and has written a prefix of the post-order: exactly, unless list identities are shared as above,
      and always up to decoded arguments. */
  lemma RunAtEveryPoint(cfg: Config, caches: Caches, thread: int, calls: seq<Call>, n: nat)
    requires Placed(cfg, false, {}, calls) && n <= |Actions(calls)|
    ensures var m := After(cfg, thread, calls, n);
            && m.log <= PostOrder(cfg, false, calls)
            && SameOutline(Run(cfg, State(START, caches), m.stops).view, ViewOf(cfg, thread, m))
            && (WellFormed(cfg) && Unshared(cfg, caches, m.stops) ==>
                  Run(cfg, State(START, caches), m.stops).view == ViewOf(cfg, thread, m))
  {
    var m := After(cfg, thread, calls, n);
    TraceAtEveryPoint(cfg, thread, calls, n);
    RunOutline(cfg, caches, m.stops);
    if WellFormed(cfg) && Unshared(cfg, caches, m.stops) {
      RunIsExact(cfg, caches, m.stops);
    }
  }

  /** The same for one thread among others, at any point where it has made `n` calls and returns. */
  lemma InterleavedAtEveryPoint(cfg: Config, caches: Caches, thread: int, calls: seq<Call>, n: nat, stops: seq<Stop>)
    requires Placed(cfg, false, {}, calls) && n <= |Actions(calls)|
    requires Only(thread, stops) == After(cfg, thread, calls, n).stops
    ensures var m := After(cfg, thread, calls, n);
            && m.log <= PostOrder(cfg, false, calls)
            && SameOutline(ThreadView(cfg, caches, thread, stops), ViewOf(cfg, thread, m))
            && (WellFormed(cfg) && Unshared(cfg, caches, stops) ==>
                  ThreadView(cfg, caches, thread, stops) == ViewOf(cfg, thread, m))
  {
    TraceAtEveryPoint(cfg, thread, calls, n);
    ThreadOutline(cfg, caches, thread, stops);
    if WellFormed(cfg) && Unshared(cfg, caches, stops) {
      ThreadIsExact(cfg, caches, thread, stops);
    }
  }

  lemma AfterOne(cfg: Config, thread: int, calls: seq<Call>, n: nat)
    requires n < |Actions(calls)|
    ensures After(cfg, thread, calls, n + 1) == Act(cfg, thread, After(cfg, thread, calls, n), Actions(calls)[n])
  {
    var actions := Actions(calls);
    assert actions[..n + 1] == actions[..n] + [actions[n]];
    PerformAppend(cfg, thread, IDLE, actions[..n], [actions[n]]);
    PerformOne(cfg, thread, After(cfg, thread, calls, n), actions[n]);
  }

  /** Every prefix of the stops of a nested run has been delivered after some number of actions. */
  lemma {:induction false} PrefixIsReached(cfg: Config, thread: int, calls: seq<Call>, j: nat, hi: nat) returns (n: nat)
    requires hi <= |Actions(calls)| && j <= |After(cfg, thread, calls, hi).stops|
    ensures n <= hi && After(cfg, thread, calls, n).stops == After(cfg, thread, calls, hi).stops[..j]
  {
    var m := After(cfg, thread, calls, hi);
    if j == |m.stops| {
      n := hi;
      assert m.stops[..j] == m.stops;
    } else {
      assert Actions(calls)[..0] == [];
      var before := After(cfg, thread, calls, hi - 1);
      AfterOne(cfg, thread, calls, hi - 1);
      ActStopsOnce(cfg, thread, before, Actions(calls)[hi - 1]);
      n := PrefixIsReached(cfg, thread, calls, j, hi - 1);
      assert before.stops[..j] == m.stops[..j];
    }
  }

  lemma ActStopsOnce(cfg: Config, thread: int, m: Machine, a: Action)
    requires ValidStack(cfg, m.stack)
    ensures var after := Act(cfg, thread, m, a); m.stops <= after.stops && |after.stops| <= |m.stops| + 1
  {
  }

  lemma OnlyOfPrefix(thread: int, stops: seq<Stop>, k: nat)
    requires k <= |stops|
    ensures Only(thread, stops[..k]) <= Only(thread, stops)
  {
    FilterAppend((s: Stop) => IsOf(thread, s), stops[..k], stops[k..]);
    assert stops[..k] + stops[k..] == stops;
  }

  /** After every prefix of every interleaving, a thread whose own stops are a nested run has exactly its
      open traced frames pending and a prefix of its post-order written. */
  lemma InterleavedAtEveryPrefix(cfg: Config, caches: Caches, thread: int, calls: seq<Call>, stops: seq<Stop>, k: nat)
    returns (n: nat)
    requires Placed(cfg, false, {}, calls) && Only(thread, stops) == StopsOf(cfg, thread, calls) && k <= |stops|
    ensures n <= |Actions(calls)| && Only(thread, stops[..k]) == After(cfg, thread, calls, n).stops
    ensures var m := After(cfg, thread, calls, n);
            && m.log <= PostOrder(cfg, false, calls)
            && SameOutline(ThreadView(cfg, caches, thread, stops[..k]), ViewOf(cfg, thread, m))
            && (WellFormed(cfg) && Unshared(cfg, caches, stops) ==>
                  ThreadView(cfg, caches, thread, stops[..k]) == ViewOf(cfg, thread, m))
  {
    var all := |Actions(calls)|;
    assert Actions(calls)[..all] == Actions(calls);
    OnlyOfPrefix(thread, stops, k);
    n := PrefixIsReached(cfg, thread, calls, |Only(thread, stops[..k])|, all);
    InterleavedAtEveryPoint(cfg, caches, thread, calls, n, stops[..k]);
    if Unshared(cfg, caches, stops) {
      PrefixIsUnshared(cfg, caches, stops, k);
    }
  }

  /** A finished thread has nothing pending and its whole post-order written. */
  lemma RunInterleavedThreadIsPostOrder(cfg: Config, caches: Caches, thread: int, calls: seq<Call>, stops: seq<Stop>)
    requires Placed(cfg, false, {}, calls) && Only(thread, stops) == StopsOf(cfg, thread, calls)
    ensures SameOutline(ThreadView(cfg, caches, thread, stops), View(map[], PostOrder(cfg, false, calls)))
    ensures WellFormed(cfg) && Unshared(cfg, caches, stops) ==>
              ThreadView(cfg, caches, thread, stops) == View(map[], PostOrder(cfg, false, calls))
  {
    InterleavedThreadIsPostOrder(cfg, thread, calls, stops);
    RunOutline(cfg, caches, stops);
    RunWrittenOutline(cfg, caches, thread, stops);
    if WellFormed(cfg) && Unshared(cfg, caches, stops) {
      RunIsExact(cfg, caches, stops);
      RunWrittenIsWritten(cfg, caches, thread, stops);
    }
  }

  // ---------------------------------------------------------------------------------------------
  // Nested runs lose no call
  // ---------------------------------------------------------------------------------------------

  lemma BeginOverwritesNothing(cfg: Config, thread: int, m: Machine, frame: Frame)
    requires ValidStack(cfg, m.stack) && InStep(cfg, thread, m) && Legal(cfg, m.stack, Begin(frame))
    requires Ledger.NeverOverwrites(cfg, m.stops)
    ensures Ledger.NeverOverwrites(cfg, Act(cfg, thread, m, Begin(frame)).stops)
  {
    var stops := m.stops + [Hit(thread, frame)];
    PendingHasThread(cfg, thread, m.stack);
    assert stops[..|m.stops|] == m.stops;
    Ledger.NeverOverwritesSnoc(cfg, stops, |m.stops|);
  }

  lemma EndOverwritesNothing(cfg: Config, thread: int, m: Machine, frame: Frame)
    requires ValidStack(cfg, m.stack) && InStep(cfg, thread, m) && Legal(cfg, m.stack, End(frame))
    requires Ledger.NeverOverwrites(cfg, m.stops)
    ensures Ledger.NeverOverwrites(cfg, Act(cfg, thread, m, End(frame)).stops)
  {
    if IsArmed(cfg, m.stack[|m.stack| - 1]) {
      var stops := m.stops + [Hit(thread, frame)];
      PendingHasThread(cfg, thread, m.stack);
      assert stops[..|m.stops|] == m.stops;
      Ledger.NeverOverwritesSnoc(cfg, stops, |m.stops|);
    } else {
      assert m.stops + [] == m.stops;
    }
  }

  lemma {:induction false} RunOverwritesNothing(cfg: Config, thread: int, m: Machine, actions: seq<Action>)
    requires ValidStack(cfg, m.stack) && InStep(cfg, thread, m) && LegalRun(cfg, thread, m, actions)
    requires Ledger.NeverOverwrites(cfg, m.stops)
    ensures Ledger.NeverOverwrites(cfg, Perform(cfg, thread, m, actions).stops)
    decreases |actions|
  {
    if actions != [] {
      match actions[0] {
        case Begin(frame) =>
          BeginKeepsStep(cfg, thread, m, frame);
          BeginOverwritesNothing(cfg, thread, m, frame);
        case End(frame) =>
          EndKeepsStep(cfg, thread, m, frame);
          EndOverwritesNothing(cfg, thread, m, frame);
      }
      RunOverwritesNothing(cfg, thread, Act(cfg, thread, m, actions[0]), actions[1..]);
    }
  }

  lemma NestedRunOverwritesNothing(cfg: Config, thread: int, calls: seq<Call>)
    requires Placed(cfg, false, {}, calls)
    ensures Ledger.NeverOverwrites(cfg, StopsOf(cfg, thread, calls))
  {
    PerformCalls(cfg, thread, IDLE, calls);
    RunOverwritesNothing(cfg, thread, IDLE, Actions(calls));
  }

  /** A nested run with distinct open return addresses loses no call. */
  lemma NestedRunLosesNothing(cfg: Config, thread: int, calls: seq<Call>)
    requires Placed(cfg, false, {}, calls)
    ensures Ledger.BookOf(cfg, StopsOf(cfg, thread, calls)).lost == {}
  {
    NestedRunOverwritesNothing(cfg, thread, calls);
    Ledger.NothingLost(cfg, StopsOf(cfg, thread, calls));
  }

  lemma OnlyAt(thread: int, stops: seq<Stop>, n: nat)
    requires n < |stops| && IsOf(thread, stops[n])
    ensures var j := |Only(thread, stops[..n])|;
            && j < |Only(thread, stops)| && Only(thread, stops)[j] == stops[n]
            && Only(thread, stops)[..j] == Only(thread, stops[..n])
  {
    FilterSnoc((s: Stop) => IsOf(thread, s), stops, n);
    OnlyOfPrefix(thread, stops, n + 1);
  }

  /** Whether a stop overwrites a pending call is decided by its own thread. */
  lemma OverwritesLocally(cfg: Config, thread: int, stops: seq<Stop>, n: nat)
    requires n < |stops| && IsOf(thread, stops[n])
    ensures |Only(thread, stops[..n])| < |Only(thread, stops)|
    ensures Ledger.Overwrites(cfg, stops, n) <==>
            Ledger.Overwrites(cfg, Only(thread, stops), |Only(thread, stops[..n])|)
  {
    OnlyAt(thread, stops, n);
    ThreadsAreIndependent(cfg, thread, stops[..n]);
    var keys := Trace(cfg, START, stops[..n]).pending.Keys;
    var mine := Trace(cfg, START, Only(thread, stops[..n])).pending.Keys;
    assert mine == set k | k in keys && k.thread == thread;
    ClassifyLocally(cfg, keys, mine, stops[n]);
  }

  /** However they interleave, threads that each make a nested run lose no call. */
  lemma InterleavedLosesNothing(cfg: Config, calls: int -> seq<Call>, stops: seq<Stop>)
    requires forall t :: Placed(cfg, false, {}, calls(t)) && Only(t, stops) == StopsOf(cfg, t, calls(t))
    ensures Ledger.BookOf(cfg, stops).lost == {}
  {
    forall n: nat | n < |stops| ensures !Ledger.Overwrites(cfg, stops, n) {
      if stops[n].Hit? {
        var t := stops[n].thread;
        OverwritesLocally(cfg, t, stops, n);
        NestedRunOverwritesNothing(cfg, t, calls(t));
      }
    }
    Ledger.NothingLost(cfg, stops);
  }
}
