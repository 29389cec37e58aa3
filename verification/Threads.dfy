/** Interleaved threads: what the tracer does for one thread is what it does for that thread alone. */
module Threads {
  import opened Prelude
  import opened Arch
  import opened Formatters
  import opened TracerSpec
  import opened CallTree

  predicate IsOf(thread: int, stop: Stop) {
    stop.Hit? && stop.thread == thread
  }

  /** The stops of one thread, in order. */
  function Only(thread: int, stops: seq<Stop>): seq<Stop> {
    Filter((s: Stop) => IsOf(thread, s), stops)
  }

  function PendingIn(thread: int, pending: map<Key, Event>): map<Key, Event> {
    map k | k in pending && k.thread == thread :: pending[k]
  }

  /** The events written at the stops of one thread. */
  function WrittenBy(cfg: Config, thread: int, stops: seq<Stop>): seq<Event> {
    if stops == [] then []
    else
      var front, last := stops[..|stops| - 1], stops[|stops| - 1];
      var before := Trace(cfg, START, front);
      WrittenBy(cfg, thread, front) +
      if IsOf(thread, last) then NewEvents(cfg, before, last) else []
  }

  function NewEvents(cfg: Config, v: View, stop: Stop): seq<Event> {
    StepAppends(cfg, v, stop);
    TraceStep(cfg, v, stop).out[|v.out|..]
  }

  lemma StepAppends(cfg: Config, v: View, stop: Stop)
    ensures v.out <= TraceStep(cfg, v, stop).out
    ensures |TraceStep(cfg, v, stop).out| <= |v.out| + 1
  {
    match Classify(cfg, v.pending.Keys, stop)
    case Ignore =>
    case Return(key) => FinishAppends(v, key, Complete(cfg, v.pending[key], stop.frame));
    case Entry(name) => FiledAppends(cfg, v, stop.thread, stop.frame, EntryEvent(cfg, stop.frame, name));
  }

  lemma FinishAppends(v: View, key: Key, e: Event)
    ensures Finish(v, key, e).out == v.out + [e]
  {
  }

  lemma FiledAppends(cfg: Config, v: View, thread: int, frame: Frame, e: Event)
    ensures Filed(cfg, v, thread, frame, e).out in {v.out, v.out + [e]}
  {
  }

  lemma ClassifyLocally(cfg: Config, keys: set<Key>, mine: set<Key>, stop: Stop)
    requires stop.Hit? && mine == set k | k in keys && k.thread == stop.thread
    ensures Classify(cfg, keys, stop) == Classify(cfg, mine, stop)
  {
    assert HasPending(keys, stop.thread) <==> HasPending(mine, stop.thread);
  }

  /** A stop of the thread itself acts on the thread's own pending calls only. */
  lemma OwnStep(cfg: Config, thread: int, v: View, alone: View, stop: Stop)
    requires IsOf(thread, stop) && PendingIn(thread, v.pending) == alone.pending
    ensures PendingIn(thread, TraceStep(cfg, v, stop).pending) == TraceStep(cfg, alone, stop).pending
    ensures NewEvents(cfg, v, stop) == NewEvents(cfg, alone, stop)
  {
    ClassifyLocally(cfg, v.pending.Keys, alone.pending.Keys, stop);
  }

  /** A stop of another thread leaves them alone. */
  lemma OtherStep(cfg: Config, thread: int, v: View, stop: Stop)
    requires !IsOf(thread, stop)
    ensures PendingIn(thread, TraceStep(cfg, v, stop).pending) == PendingIn(thread, v.pending)
  {
  }

  lemma TraceAppends(cfg: Config, v: View, stop: Stop)
    ensures TraceStep(cfg, v, stop).out == v.out + NewEvents(cfg, v, stop)
  {
    StepAppends(cfg, v, stop);
  }

  /** For every interleaving, the pending calls and the written events of a thread are those of a run
      with this thread's stops alone. */
  lemma {:induction false} ThreadsAreIndependent(cfg: Config, thread: int, stops: seq<Stop>)
    ensures var alone := Trace(cfg, START, Only(thread, stops));
            && PendingIn(thread, Trace(cfg, START, stops).pending) == alone.pending
            && WrittenBy(cfg, thread, stops) == alone.out
  {
    if stops != [] {
      var n := |stops| - 1;
      var front, last := stops[..n], stops[n];
      ThreadsAreIndependent(cfg, thread, front);
      FilterSnoc((s: Stop) => IsOf(thread, s), stops, n);
      assert stops[..n + 1] == stops;
      var before, alone := Trace(cfg, START, front), Trace(cfg, START, Only(thread, front));
      if IsOf(thread, last) {
        OwnStep(cfg, thread, before, alone, last);
        TraceSnoc(cfg, Only(thread, front), last);
        TraceAppends(cfg, alone, last);
      } else {
        OtherStep(cfg, thread, before, last);
        assert Only(thread, stops) == Only(thread, front);
      }
    }
  }

  /** The stops of a nested run of `thread`. */
  function StopsOf(cfg: Config, thread: int, calls: seq<Call>): seq<Stop> {
    Perform(cfg, thread, IDLE, Actions(calls)).stops
  }

  /** However the stops of several threads interleave, a thread whose own stops are those of a nested
      run ends with nothing pending and the post-order of its traced calls written. */
  lemma InterleavedThreadIsPostOrder(cfg: Config, thread: int, calls: seq<Call>, stops: seq<Stop>)
    requires Placed(cfg, false, {}, calls) && Only(thread, stops) == StopsOf(cfg, thread, calls)
    ensures PendingIn(thread, Trace(cfg, START, stops).pending) == map[]
    ensures WrittenBy(cfg, thread, stops) == PostOrder(cfg, false, calls)
  {
    ThreadsAreIndependent(cfg, thread, stops);
    TraceIsPostOrder(cfg, thread, calls);
  }
}
