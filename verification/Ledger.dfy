/** Where every written event comes from: each accepted entry is written once, still pending, or
    overwritten, and a written event is a function of its own two stops. */
module Ledger {
  import opened Prelude
  import opened Args
  import opened Arch
  import opened Params
  import opened Formatters
  import opened Summary
  import opened TracerSpec

  /** The stops an event was made of; `exit` is absent when it was written at entry. */
  datatype Origin = Origin(entry: nat, exit: Option<nat>)

  /** A record by stop number of the accepted entries and of what became of them. */
  datatype Book = Book(accepted: set<nat>, open: map<Key, nat>, written: seq<Origin>, lost: set<nat>)

  const EMPTY_BOOK := Book({}, map[], [], {})

  function Record(cfg: Config, b: Book, i: nat, stop: Stop): Book {
    match Classify(cfg, b.open.Keys, stop)
    case Ignore => b
    case Return(key) => b.(open := b.open - {key}, written := b.written + [Origin(b.open[key], Some(i))])
    case Entry(_) =>
      match ReturnAddress(cfg.arch, stop.frame) {
        case None => b.(accepted := b.accepted + {i}, written := b.written + [Origin(i, None)])
        case Some(ret) =>
          var key := Key(stop.thread, ret);
          Book(b.accepted + {i}, b.open[key := i], b.written,
               b.lost + if key in b.open then {b.open[key]} else {})
      }
  }

  function BookOf(cfg: Config, stops: seq<Stop>): Book {
    if stops == [] then EMPTY_BOOK
    else
      var n := |stops| - 1;
      Record(cfg, BookOf(cfg, stops[..n]), n, stops[n])
  }

  // ---------------------------------------------------------------------------------------------
  // Conservation
  // ---------------------------------------------------------------------------------------------

  ghost predicate WrittenOnce(b: Book) {
    forall i, j | 0 <= i < j < |b.written| :: b.written[i].entry != b.written[j].entry
  }

  /** Written, pending and overwritten entries are accepted stops, all distinct. */
  ghost predicate Separate(b: Book, n: nat) {
    && WrittenOnce(b)
    && (forall k, l | k in b.open && l in b.open && k != l :: b.open[k] != b.open[l])
    && (forall i, k | 0 <= i < |b.written| && k in b.open :: b.written[i].entry != b.open[k])
    && (forall i | 0 <= i < |b.written| :: b.written[i].entry !in b.lost && b.written[i].entry in b.accepted)
    && (forall k | k in b.open :: b.open[k] !in b.lost && b.open[k] in b.accepted)
    && b.lost <= b.accepted
    && (forall i | i in b.accepted :: i < n)
  }

  /** Written, pending and overwritten entries are distinct, and together the accepted ones. */
  ghost predicate Balanced(b: Book, n: nat) {
    Separate(b, n) && |b.accepted| == |b.written| + |b.open| + |b.lost|
  }

  lemma CloseKeepsBalance(b: Book, i: nat, key: Key)
    requires Balanced(b, i) && key in b.open
    ensures Balanced(b.(open := b.open - {key}, written := b.written + [Origin(b.open[key], Some(i))]), i + 1)
  {
    assert (b.open - {key}).Keys == b.open.Keys - {key};
    assert |(b.open - {key}).Keys| == |b.open.Keys| - 1;
  }

  lemma WriteKeepsBalance(b: Book, i: nat)
    requires Balanced(b, i)
    ensures Balanced(b.(accepted := b.accepted + {i}, written := b.written + [Origin(i, None)]), i + 1)
  {
  }

  lemma OpenKeepsBalance(b: Book, i: nat, key: Key)
    requires Balanced(b, i) && key !in b.open
    ensures Balanced(b.(accepted := b.accepted + {i}, open := b.open[key := i]), i + 1)
  {
    assert i !in b.accepted;
    assert b.open[key := i].Keys == b.open.Keys + {key};
  }

  lemma ReopenKeepsBalance(b: Book, i: nat, key: Key)
    requires Balanced(b, i) && key in b.open
    ensures Balanced(Book(b.accepted + {i}, b.open[key := i], b.written, b.lost + {b.open[key]}), i + 1)
  {
    ReopenKeepsSeparate(b, i, key);
    assert i !in b.accepted && b.open[key] !in b.lost;
    assert b.open[key := i].Keys == b.open.Keys;
    SameSize(b.open[key := i], b.open);
  }

  lemma ReopenKeepsSeparate(b: Book, i: nat, key: Key)
    requires Separate(b, i) && key in b.open
    ensures Separate(Book(b.accepted + {i}, b.open[key := i], b.written, b.lost + {b.open[key]}), i + 1)
  {
    assert i !in b.accepted;
  }

  lemma SameSize(a: map<Key, nat>, b: map<Key, nat>)
    requires a.Keys == b.Keys
    ensures |a| == |b|
  {
    assert |a| == |a.Keys| == |b.Keys| == |b|;
  }

  lemma RecordKeepsBalance(cfg: Config, b: Book, i: nat, stop: Stop)
    requires Balanced(b, i)
    ensures Balanced(Record(cfg, b, i, stop), i + 1)
  {
    match Classify(cfg, b.open.Keys, stop)
    case Ignore =>
    case Return(key) => CloseKeepsBalance(b, i, key);
    case Entry(_) =>
      match ReturnAddress(cfg.arch, stop.frame) {
        case None => WriteKeepsBalance(b, i);
        case Some(ret) =>
          var key := Key(stop.thread, ret);
          if key in b.open {
            ReopenKeepsBalance(b, i, key);
          } else {
            OpenKeepsBalance(b, i, key);
            assert b.lost + {} == b.lost;
          }
      }
  }

  /** Every accepted entry is exactly one of written, pending and overwritten, and none is written
      twice: accepted = written + pending + overwritten after any sequence of stops. */
  lemma {:induction false} Conservation(cfg: Config, stops: seq<Stop>)
    ensures Balanced(BookOf(cfg, stops), |stops|)
  {
    if stops != [] {
      var n := |stops| - 1;
      Conservation(cfg, stops[..n]);
      RecordKeepsBalance(cfg, BookOf(cfg, stops[..n]), n, stops[n]);
    }
  }

  // ---------------------------------------------------------------------------------------------
  // The book describes the tracer
  // ---------------------------------------------------------------------------------------------

  /** Stop `i` is the entry of syscall `name` by the thread of `key`, returning to the address of
      `key`. */
  predicate IsEntry(cfg: Config, stops: seq<Stop>, i: nat, name: string) {
    && i < |stops| && stops[i].Hit?
    && EntryOf(cfg, false, stops[i].frame.functionName) == Some(name)
  }

  function EntryKey(cfg: Config, stop: Stop): Option<Key>
  {
    if stop.Hit? && ReturnAddress(cfg.arch, stop.frame).Some?
    then Some(Key(stop.thread, ReturnAddress(cfg.arch, stop.frame).value))
    else None
  }

  /** A pending event is the one its entry stop creates. */
  ghost predicate PendingFrom(cfg: Config, stops: seq<Stop>, key: Key, e: Event, i: nat) {
    && IsEntry(cfg, stops, i, e.name)
    && EntryKey(cfg, stops[i]) == Some(key)
    && e == EntryEvent(cfg, stops[i].frame, e.name)
  }

  /** A written event is the one its entry stop creates, completed by its return stop: a later stop of
      the same thread at the return address of the entry. */
  ghost predicate WrittenFrom(cfg: Config, stops: seq<Stop>, e: Event, o: Origin) {
    && IsEntry(cfg, stops, o.entry, e.name)
    && match o.exit
       case None =>
         EntryKey(cfg, stops[o.entry]).None? && e == EntryEvent(cfg, stops[o.entry].frame, e.name)
       case Some(j) =>
         && o.entry < j < |stops| && stops[j].Hit?
         && EntryKey(cfg, stops[o.entry]) == Some(Key(stops[j].thread, stops[j].frame.pc))
         && e == Complete(cfg, EntryEvent(cfg, stops[o.entry].frame, e.name), stops[j].frame)
  }

  ghost predicate Describes(cfg: Config, stops: seq<Stop>, b: Book, v: View) {
    && b.open.Keys == v.pending.Keys
    && (forall k | k in b.open :: PendingFrom(cfg, stops, k, v.pending[k], b.open[k]))
    && |b.written| == |v.out|
    && (forall i | 0 <= i < |b.written| :: WrittenFrom(cfg, stops, v.out[i], b.written[i]))
  }

  lemma PendingStays(cfg: Config, stops: seq<Stop>, more: seq<Stop>, key: Key, e: Event, i: nat)
    requires PendingFrom(cfg, stops, key, e, i)
    ensures PendingFrom(cfg, stops + more, key, e, i)
  {
  }

  lemma WrittenStays(cfg: Config, stops: seq<Stop>, more: seq<Stop>, e: Event, o: Origin)
    requires WrittenFrom(cfg, stops, e, o)
    ensures WrittenFrom(cfg, stops + more, e, o)
  {
  }

  lemma DescribesLonger(cfg: Config, stops: seq<Stop>, more: seq<Stop>, b: Book, v: View)
    requires Describes(cfg, stops, b, v)
    ensures Describes(cfg, stops + more, b, v)
  {
    forall k | k in b.open ensures PendingFrom(cfg, stops + more, k, v.pending[k], b.open[k]) {
      PendingStays(cfg, stops, more, k, v.pending[k], b.open[k]);
    }
    forall i | 0 <= i < |b.written| ensures WrittenFrom(cfg, stops + more, v.out[i], b.written[i]) {
      WrittenStays(cfg, stops, more, v.out[i], b.written[i]);
    }
  }

  lemma NewEntry(cfg: Config, stops: seq<Stop>, keys: set<Key>, i: nat, name: string)
    requires i < |stops| && Classify(cfg, keys, stops[i]) == Entry(name)
    ensures IsEntry(cfg, stops, i, name)
    ensures EntryEvent(cfg, stops[i].frame, name).name == name
  {
    EntryWithPending(cfg, HasPending(keys, stops[i].thread), stops[i].frame.functionName);
  }

  lemma PendingCompletes(cfg: Config, stops: seq<Stop>, key: Key, e: Event, i: nat, n: nat)
    requires PendingFrom(cfg, stops, key, e, i) && i < n < |stops| && stops[n].Hit?
    requires key == Key(stops[n].thread, stops[n].frame.pc)
    ensures WrittenFrom(cfg, stops, Complete(cfg, e, stops[n].frame), Origin(i, Some(n)))
  {
    assert Complete(cfg, e, stops[n].frame).name == e.name;
  }

  lemma ReturnDescribes(cfg: Config, stops: seq<Stop>, b: Book, v: View, key: Key, done: Event, o: Origin)
    requires Describes(cfg, stops, b, v) && WrittenFrom(cfg, stops, done, o)
    ensures Describes(cfg, stops, b.(open := b.open - {key}, written := b.written + [o]), Finish(v, key, done))
  {
  }

  lemma WriteDescribes(cfg: Config, stops: seq<Stop>, b: Book, after: Book, v: View, e: Event, n: nat)
    requires Describes(cfg, stops, b, v) && WrittenFrom(cfg, stops, e, Origin(n, None))
    requires after.open == b.open && after.written == b.written + [Origin(n, None)]
    ensures Describes(cfg, stops, after, v.(out := v.out + [e]))
  {
  }

  lemma OpenDescribes(cfg: Config, stops: seq<Stop>, b: Book, after: Book, v: View, key: Key, e: Event, n: nat)
    requires Describes(cfg, stops, b, v) && PendingFrom(cfg, stops, key, e, n)
    requires after.open == b.open[key := n] && after.written == b.written
    ensures Describes(cfg, stops, after, v.(pending := v.pending[key := e]))
  {
  }

  lemma RecordDescribes(cfg: Config, stops: seq<Stop>, b: Book, v: View, n: nat)
    requires n < |stops| && Describes(cfg, stops, b, v)
    requires forall k | k in b.open :: b.open[k] < n
    ensures Describes(cfg, stops, Record(cfg, b, n, stops[n]), TraceStep(cfg, v, stops[n]))
  {
    var after := Record(cfg, b, n, stops[n]);
    match Classify(cfg, b.open.Keys, stops[n])
    case Ignore =>
    case Return(key) =>
      PendingCompletes(cfg, stops, key, v.pending[key], b.open[key], n);
      ReturnDescribes(cfg, stops, b, v, key, Complete(cfg, v.pending[key], stops[n].frame),
                      Origin(b.open[key], Some(n)));
    case Entry(name) =>
      NewEntry(cfg, stops, b.open.Keys, n, name);
      var e := EntryEvent(cfg, stops[n].frame, name);
      if EntryKey(cfg, stops[n]).None? {
        WriteDescribes(cfg, stops, b, after, v, e, n);
      } else {
        OpenDescribes(cfg, stops, b, after, v, EntryKey(cfg, stops[n]).value, e, n);
      }
  }

  /** After any sequence of stops, every pending event is the image of its entry stop, and every
      written event the image of exactly its entry stop and its return stop. */
  lemma {:induction false} EveryEventHasItsStops(cfg: Config, stops: seq<Stop>)
    ensures Describes(cfg, stops, BookOf(cfg, stops), Trace(cfg, START, stops))
  {
    if stops != [] {
      var n := |stops| - 1;
      var front := stops[..n];
      EveryEventHasItsStops(cfg, front);
      Conservation(cfg, front);
      DescribesLonger(cfg, front, [stops[n]], BookOf(cfg, front), Trace(cfg, START, front));
      assert front + [stops[n]] == stops;
      RecordDescribes(cfg, stops, BookOf(cfg, front), Trace(cfg, START, front), n);
    }
  }

  // ---------------------------------------------------------------------------------------------
  // Lost calls
  // ---------------------------------------------------------------------------------------------

  /** Stop `n` is an entry whose thread and return address already have a pending call. */
  predicate Overwrites(cfg: Config, stops: seq<Stop>, n: nat)
    requires n < |stops|
  {
    var keys := Trace(cfg, START, stops[..n]).pending.Keys;
    && Classify(cfg, keys, stops[n]).Entry?
    && EntryKey(cfg, stops[n]).Some? && EntryKey(cfg, stops[n]).value in keys
  }

  lemma OverwritesEarlier(cfg: Config, stops: seq<Stop>, m: nat, n: nat)
    requires n < m <= |stops|
    ensures Overwrites(cfg, stops[..m], n) <==> Overwrites(cfg, stops, n)
  {
    assert stops[..m][..n] == stops[..n];
  }

  lemma RecordLoses(cfg: Config, b: Book, i: nat, stop: Stop)
    ensures Record(cfg, b, i, stop).lost == {} <==>
            b.lost == {} && !(Classify(cfg, b.open.Keys, stop).Entry?
                              && EntryKey(cfg, stop).Some? && EntryKey(cfg, stop).value in b.open)
  {
    if Classify(cfg, b.open.Keys, stop).Entry? && EntryKey(cfg, stop).Some? && EntryKey(cfg, stop).value in b.open {
      assert b.open[EntryKey(cfg, stop).value] in Record(cfg, b, i, stop).lost;
    }
  }

  predicate NeverOverwrites(cfg: Config, stops: seq<Stop>) {
    forall n: nat | n < |stops| :: !Overwrites(cfg, stops, n)
  }

  lemma NeverOverwritesSnoc(cfg: Config, stops: seq<Stop>, m: nat)
    requires |stops| == m + 1
    ensures NeverOverwrites(cfg, stops) <==> NeverOverwrites(cfg, stops[..m]) && !Overwrites(cfg, stops, m)
  {
    forall n: nat | n < m ensures Overwrites(cfg, stops[..m], n) <==> Overwrites(cfg, stops, n) {
      OverwritesEarlier(cfg, stops, m, n);
    }
  }

  lemma LossOfLast(cfg: Config, stops: seq<Stop>, m: nat)
    requires |stops| == m + 1
    ensures BookOf(cfg, stops).lost == {} <==> BookOf(cfg, stops[..m]).lost == {} && !Overwrites(cfg, stops, m)
  {
    EveryEventHasItsStops(cfg, stops[..m]);
    RecordLoses(cfg, BookOf(cfg, stops[..m]), m, stops[m]);
  }

  /** No accepted call is lost exactly when no stop overwrites a pending call. */
  lemma {:induction false} NothingLost(cfg: Config, stops: seq<Stop>)
    ensures BookOf(cfg, stops).lost == {} <==> NeverOverwrites(cfg, stops)
  {
    if stops != [] {
      var m := |stops| - 1;
      NothingLost(cfg, stops[..m]);
      NeverOverwritesSnoc(cfg, stops, m);
      LossOfLast(cfg, stops, m);
    }
  }

  /** Two entries of one thread with one return address: the first call is lost, whatever follows. */
  lemma SecondEntryOverwrites(cfg: Config, thread: int, first: Frame, second: Frame)
    requires EntryOf(cfg, false, first.functionName).Some? && EntryOf(cfg, true, second.functionName).Some?
    requires ReturnAddress(cfg.arch, first).Some? && ReturnAddress(cfg.arch, second) == ReturnAddress(cfg.arch, first)
    requires second.pc != ReturnAddress(cfg.arch, first).value
    ensures BookOf(cfg, [Hit(thread, first), Hit(thread, second)]).lost == {0}
  {
    var stops := [Hit(thread, first), Hit(thread, second)];
    var key := Key(thread, ReturnAddress(cfg.arch, first).value);
    assert stops[..1][..0] == [] && stops[..1][0] == stops[0];
    assert BookOf(cfg, stops[..1]) == Book({0}, map[key := 0], [], {});
    assert HasPending({key}, thread);
  }

  /** Conservation for the tracer with its caches: the numbers of pending and written events, and the
      names written. */
  lemma RunIsConserved(cfg: Config, caches: Caches, stops: seq<Stop>)
    ensures var v := Run(cfg, State(START, caches), stops).view;
            && |BookOf(cfg, stops).accepted| == |v.out| + |v.pending| + |BookOf(cfg, stops).lost|
            && forall i | 0 <= i < |v.out| :: v.out[i].name in cfg.defs && ShouldTrace(cfg, v.out[i].name)
  {
    var v, t := Run(cfg, State(START, caches), stops).view, Trace(cfg, START, stops);
    RunOutline(cfg, caches, stops);
    EveryEventHasItsStops(cfg, stops);
    Conservation(cfg, stops);
    var b := BookOf(cfg, stops);
    assert |b.open| == |b.open.Keys| == |v.pending.Keys| == |v.pending|;
    forall i | 0 <= i < |v.out| ensures v.out[i].name in cfg.defs && ShouldTrace(cfg, v.out[i].name) {
      assert Outline(v.out[i]) == Outline(t.out[i]);
      assert WrittenFrom(cfg, stops, t.out[i], b.written[i]);
    }
  }

  // ---------------------------------------------------------------------------------------------
  // The arguments of a completed event
  // ---------------------------------------------------------------------------------------------

  predicate Succeeded(r: ReturnValue) {
    r.Number? && r.number >= 0
  }

  /** The context in which argument `i` of a call is decoded at entry. */
  function AtEntry(cfg: Config, entry: Frame, name: string, i: nat): Context
    requires name in cfg.defs && i < |cfg.defs[name].params|
  {
    var raws := RawArgs(cfg, entry, name);
    Context(cfg.noAbbrev, cfg.tables, entry.memory, raws[i], raws, entry.listId, true, None)
  }

  /** The context of argument `i` at exit: the entry's raw arguments, the exit's memory. */
  function AtExit(cfg: Config, entry: Frame, exit: Frame, name: string, i: nat): Context
    requires name in cfg.defs && i < |cfg.defs[name].params|
  {
    var raws := RawArgs(cfg, entry, name);
    var ret := DecodeReturn(cfg, exit, name, raws);
    Context(cfg.noAbbrev, cfg.tables, exit.memory, raws[i], raws, entry.listId, false, Some(ret))
  }

  /** The two-phase law: one argument per parameter; argument `i` is the exit decode when the call
      succeeded and that decode says something, otherwise the entry decode, or "?". */
  lemma TwoPhaseLaw(cfg: Config, entry: Frame, exit: Frame, name: string, i: nat)
    requires name in cfg.defs && i < |cfg.defs[name].params|
    ensures var params, done := cfg.defs[name].params, Complete(cfg, EntryEvent(cfg, entry, name), exit);
            && |done.args| == |done.rawArgs| == |params|
            && done.rawArgs == RawArgs(cfg, entry, name)
            && done.pid == cfg.pid && done.name == name && done.timestamp == entry.time && done.listId == entry.listId
            && var atExit := DecodeFresh(params[i], AtExit(cfg, entry, exit, name, i));
               done.args[i] ==
                 if Succeeded(done.returnValue) && atExit.Some? then atExit.value
                 else OrUnknown(DecodeFresh(params[i], AtEntry(cfg, entry, name, i)))
  {
    var params, e := cfg.defs[name].params, EntryEvent(cfg, entry, name);
    var ret := DecodeReturn(cfg, exit, name, e.rawArgs);
    FreshPassAt(params, EntryContext(cfg, entry, e.rawArgs), |params|, i);
    assert ForArg(EntryContext(cfg, entry, e.rawArgs), i) == AtEntry(cfg, entry, name, i);
    if Succeeded(ret) {
      FreshPassAt(params, ExitContext(cfg, exit, e, ret), |params|, i);
      assert ForArg(ExitContext(cfg, exit, e, ret), i) == AtExit(cfg, entry, exit, name, i);
    }
  }

  /** An argument is left out of the written event exactly when its raw discriminators say so. */
  lemma SkippedArguments(cfg: Config, entry: Frame, exit: Frame, name: string, i: nat)
    requires name in cfg.defs && i < |cfg.defs[name].params|
    ensures var done := Complete(cfg, EntryEvent(cfg, entry, name), exit);
            i < |done.args| &&
            (done.args[i] == SkipArg <==> Absent(cfg.defs[name].params[i], RawArgs(cfg, entry, name)))
  {
    TwoPhaseLaw(cfg, entry, exit, name, i);
    FreshSkipIsStable(cfg.defs[name].params[i], AtEntry(cfg, entry, name, i));
    FreshSkipIsStable(cfg.defs[name].params[i], AtExit(cfg, entry, exit, name, i));
  }

  /** A return stop contributes its memory, its return register and errno, and nothing else: the
      clobbered argument registers of the return never reach the event. */
  lemma ClobberedRegistersDoNotMatter(cfg: Config, e: Event, exit: Frame, other: Frame)
    requires exit.memory == other.memory && exit.errno == other.errno
    requires FindRegister(exit, ReturnRegister(cfg.arch)) == FindRegister(other, ReturnRegister(cfg.arch))
    ensures Complete(cfg, e, exit) == Complete(cfg, e, other)
  {
    assert DecodeReturn(cfg, exit, e.name, e.rawArgs) == DecodeReturn(cfg, other, e.name, e.rawArgs);
  }

  // ---------------------------------------------------------------------------------------------
  // The error column of the summary
  // ---------------------------------------------------------------------------------------------

  /** A failure the summary can see: a negative return register, unless abbreviation turned -1 into
      an errno text. */
  predicate CountsAsError(cfg: Config, exit: Frame) {
    var reg := FindRegister(exit, ReturnRegister(cfg.arch));
    reg.Some? && ToSigned(reg.value) < 0 && (cfg.noAbbrev || ToSigned(reg.value) != -1)
  }

  lemma ReturnIsError(cfg: Config, exit: Frame, name: string, rawArgs: seq<u64>)
    ensures IsError(DecodeReturn(cfg, exit, name, rawArgs)) <==> CountsAsError(cfg, exit)
  {
  }

  /** The event ended with a return stop whose register counts as an error. */
  predicate FailedReturn(cfg: Config, stops: seq<Stop>, o: Origin) {
    && o.exit.Some? && o.exit.value < |stops| && stops[o.exit.value].Hit?
    && CountsAsError(cfg, stops[o.exit.value].frame)
  }

  /** The failed returns of calls to `name`. */
  function FailedReturns(cfg: Config, stops: seq<Stop>, out: seq<Event>, written: seq<Origin>, name: string): nat
    requires |out| == |written|
  {
    if out == [] then 0
    else
      var n := |out| - 1;
      FailedReturns(cfg, stops, out[..n], written[..n], name) +
      if out[n].name == name && FailedReturn(cfg, stops, written[n]) then 1 else 0
  }

  lemma WrittenIsError(cfg: Config, stops: seq<Stop>, e: Event, o: Origin)
    requires WrittenFrom(cfg, stops, e, o)
    ensures IsError(e.returnValue) <==> FailedReturn(cfg, stops, o)
  {
    if o.exit.Some? {
      ReturnIsError(cfg, stops[o.exit.value].frame, e.name, e.rawArgs);
    }
  }

  lemma {:induction false} ErrorsAreFailedReturns(cfg: Config, stops: seq<Stop>, out: seq<Event>,
                                                    written: seq<Origin>, name: string)
    requires |out| == |written|
    requires forall i | 0 <= i < |out| :: IsError(out[i].returnValue) <==> FailedReturn(cfg, stops, written[i])
    ensures Errors(out, name) == FailedReturns(cfg, stops, out, written, name)
  {
    if out != [] {
      var n := |out| - 1;
      ErrorsAreFailedReturns(cfg, stops, out[..n], written[..n], name);
    }
  }

  /** The error column of a name counts exactly its returns with a failing register: every negative
      one without abbreviation, every negative one but -1 with it. */
  lemma SummaryErrors(cfg: Config, caches: Caches, stops: seq<Stop>, name: string)
    ensures var v, b := Run(cfg, State(START, caches), stops).view, BookOf(cfg, stops);
            |b.written| == |v.out| && Errors(v.out, name) == FailedReturns(cfg, stops, v.out, b.written, name)
  {
    var v, t, b := Run(cfg, State(START, caches), stops).view, Trace(cfg, START, stops), BookOf(cfg, stops);
    RunOutline(cfg, caches, stops);
    EveryEventHasItsStops(cfg, stops);
    forall i | 0 <= i < |v.out| ensures IsError(v.out[i].returnValue) <==> FailedReturn(cfg, stops, b.written[i]) {
      assert Outline(v.out[i]) == Outline(t.out[i]);
      WrittenIsError(cfg, stops, t.out[i], b.written[i]);
    }
    ErrorsAreFailedReturns(cfg, stops, v.out, b.written, name);
  }
}
