/** List identities: the caches are keyed by them, and an identity can be used again once its list is
    gone. What follows about cached MIBs in whole runs. */
module Identities {
  import opened Arch
  import opened Formatters
  import opened Params
  import opened TracerSpec

  // ---------------------------------------------------------------------------------------------
  // Which identities a new list can have
  // ---------------------------------------------------------------------------------------------

  /** Whether the return decodes the arguments of the pending call again. */
  predicate DecodesAgain(cfg: Config, e: Event, frame: Frame) {
    var ret := DecodeReturn(cfg, frame, e.name, e.rawArgs);
    ret.Number? && ret.number >= 0 && e.name in cfg.defs
  }

  /** The identity of the list that the shared decode context refers to: that of the latest call decoded
      at entry or again at exit; `first` before any. */
  function Held(cfg: Config, first: int, stops: seq<Stop>): int {
    if stops == [] then first
    else
      var front, last := stops[..|stops| - 1], stops[|stops| - 1];
      HeldAfter(cfg, Held(cfg, first, front), Trace(cfg, START, front), last)
  }

  function HeldAfter(cfg: Config, held: int, v: View, stop: Stop): int {
    match Classify(cfg, v.pending.Keys, stop)
    case Ignore => held
    case Return(key) => if DecodesAgain(cfg, v.pending[key], stop.frame) then v.pending[key].listId else held
    case Entry(_) => stop.frame.listId
  }

  /** The list made at an entry is not one of those still alive: the context's and the pending calls'. */
  predicate IsNewList(cfg: Config, held: int, v: View, stop: Stop) {
    Classify(cfg, v.pending.Keys, stop).Entry? ==>
      stop.frame.listId != held && forall k | k in v.pending :: v.pending[k].listId != stop.frame.listId
  }

  /** In every run of the program, two lists that are alive have different identities. */
  predicate NewLists(cfg: Config, first: int, stops: seq<Stop>) {
    stops == [] ||
    (var front, last := stops[..|stops| - 1], stops[|stops| - 1];
     NewLists(cfg, first, front) && IsNewList(cfg, Held(cfg, first, front), Trace(cfg, START, front), last))
  }

  // ---------------------------------------------------------------------------------------------
  // Runs that meet no stale MIB
  // ---------------------------------------------------------------------------------------------

  /** The identity under which an accepted call may leave a MIB. */
  function LeftBy(cfg: Config, v: View, stop: Stop): set<int> {
    match Classify(cfg, v.pending.Keys, stop)
    case Entry(name) =>
      if LeavesMib(cfg.defs[name].params, RawArgs(cfg, stop.frame, name)) then {stop.frame.listId} else {}
    case _ => {}
  }

  /** The identities under which the caches may hold a MIB. */
  function LeftIds(cfg: Config, caches: Caches, stops: seq<Stop>): set<int> {
    if stops == [] then caches.mibs.Keys
    else
      var front, last := stops[..|stops| - 1], stops[|stops| - 1];
      LeftIds(cfg, caches, front) + LeftBy(cfg, Trace(cfg, START, front), last)
  }

  predicate EventHasMib(cfg: Config, e: Event) {
    HasMib(ParamsOf(cfg, e), e.rawArgs)
  }

  predicate EventLeavesMib(cfg: Config, e: Event) {
    LeavesMib(ParamsOf(cfg, e), e.rawArgs)
  }

  /** An entry without a MIB takes an identity that no MIB has been left under and no pending call has;
      an entry with one takes none that a pending call without a MIB has. */
  predicate UnsharedAt(cfg: Config, left: set<int>, v: View, stop: Stop) {
    match Classify(cfg, v.pending.Keys, stop)
    case Entry(name) =>
      var params, raws, id := cfg.defs[name].params, RawArgs(cfg, stop.frame, name), stop.frame.listId;
      && (HasMib(params, raws) || (id !in left && forall k | k in v.pending :: v.pending[k].listId != id))
      && (LeavesMib(params, raws) ==>
            forall k | k in v.pending && !EventHasMib(cfg, v.pending[k]) :: v.pending[k].listId != id)
    case _ => true
  }

  predicate Unshared(cfg: Config, caches: Caches, stops: seq<Stop>) {
    stops == [] ||
    (var front, last := stops[..|stops| - 1], stops[|stops| - 1];
     && Unshared(cfg, caches, front)
     && UnsharedAt(cfg, LeftIds(cfg, caches, front), Trace(cfg, START, front), last))
  }

  /** The caches hold MIBs under the identities in `left` only, and none under that of a pending call that
      names no MIB; nor can one come up while it is pending. */
  predicate Clean(cfg: Config, s: State, left: set<int>) {
    && s.caches.mibs.Keys <= left
    && (forall k | k in s.view.pending && EventLeavesMib(cfg, s.view.pending[k]) :: s.view.pending[k].listId in left)
    && (forall k | k in s.view.pending && !EventHasMib(cfg, s.view.pending[k]) ::
          s.view.pending[k].listId !in s.caches.mibs)
    && (forall k, l | k in s.view.pending && l in s.view.pending && !EventHasMib(cfg, s.view.pending[k])
                      && EventLeavesMib(cfg, s.view.pending[l]) ::
          s.view.pending[k].listId != s.view.pending[l].listId)
  }

  lemma EnterCaches(cfg: Config, s: State, thread: int, frame: Frame, name: string)
    requires WellFormed(cfg) && name in cfg.defs
    ensures var after, raws := Enter(cfg, s, thread, frame, name).caches, RawArgs(cfg, frame, name);
            && after.mibs.Keys <= s.caches.mibs.Keys + {frame.listId}
            && (!LeavesMib(cfg.defs[name].params, raws) ==> after.mibs == s.caches.mibs)
  {
    var raws := RawArgs(cfg, frame, name);
    PassLeavesMib(cfg.defs[name].params, EntryContext(cfg, frame, raws), |raws|, s.caches);
  }

  lemma LeaveCaches(cfg: Config, s: State, key: Key, frame: Frame)
    requires WellFormed(cfg) && key in s.view.pending
    ensures var after, e := Leave(cfg, s, key, frame).caches, s.view.pending[key];
            && after.mibs.Keys <= s.caches.mibs.Keys + {e.listId}
            && (!EventLeavesMib(cfg, e) ==> after.mibs == s.caches.mibs)
  {
    var e := s.view.pending[key];
    var ret := DecodeReturn(cfg, frame, e.name, e.rawArgs);
    if ExitCount(cfg, e, ret) > 0 {
      PassLeavesMib(ParamsOf(cfg, e), ExitContext(cfg, frame, e, ret), ExitCount(cfg, e, ret), s.caches);
    }
  }

  lemma EnterKeepsClean(cfg: Config, s: State, left: set<int>, stop: Stop, name: string)
    requires WellFormed(cfg) && Clean(cfg, s, left) && UnsharedAt(cfg, left, s.view, stop)
    requires Classify(cfg, s.view.pending.Keys, stop) == Entry(name)
    ensures Step(cfg, s, stop).view == TraceStep(cfg, s.view, stop)
    ensures Clean(cfg, Step(cfg, s, stop), left + LeftBy(cfg, s.view, stop))
  {
    EnterIsFresh(cfg, s, stop.thread, stop.frame, name);
    EnterCaches(cfg, s, stop.thread, stop.frame, name);
    FiledClean(cfg, s, Enter(cfg, s, stop.thread, stop.frame, name).caches, left, stop, name,
               EntryEvent(cfg, stop.frame, name));
  }

  /** The new event keeps the pending calls clean. */
  lemma FiledClean(cfg: Config, s: State, after: Caches, left: set<int>, stop: Stop, name: string, e: Event)
    requires Clean(cfg, s, left) && UnsharedAt(cfg, left, s.view, stop)
    requires Classify(cfg, s.view.pending.Keys, stop) == Entry(name) && e == EntryEvent(cfg, stop.frame, name)
    requires after.mibs.Keys <= s.caches.mibs.Keys + {stop.frame.listId}
    requires !EventLeavesMib(cfg, e) ==> after.mibs == s.caches.mibs
    ensures Clean(cfg, State(Filed(cfg, s.view, stop.thread, stop.frame, e), after), left + LeftBy(cfg, s.view, stop))
  {
    var grown := left + LeftBy(cfg, s.view, stop);
    assert EventLeavesMib(cfg, e) ==> EventHasMib(cfg, e) && e.listId in grown;
    match ReturnAddress(cfg.arch, stop.frame)
    case None => OldStayClean(cfg, s, after, left, grown, e);
    case Some(ret) =>
      OldStayClean(cfg, s, after, left, grown, e);
      NewIsClean(cfg, State(s.view, after), grown, Key(stop.thread, ret), e);
  }

  /** The call whose event is `e` does not disturb the pending ones. */
  lemma OldStayClean(cfg: Config, s: State, after: Caches, left: set<int>, grown: set<int>, e: Event)
    requires Clean(cfg, s, left) && left <= grown
    requires after.mibs.Keys <= s.caches.mibs.Keys + {e.listId}
    requires EventLeavesMib(cfg, e) ==> e.listId in grown
    requires !EventLeavesMib(cfg, e) ==> after.mibs == s.caches.mibs
    requires EventLeavesMib(cfg, e) ==>
               forall k | k in s.view.pending && !EventHasMib(cfg, s.view.pending[k]) ::
                 s.view.pending[k].listId != e.listId
    ensures Clean(cfg, State(s.view, after), grown)
  {
  }

  lemma NewIsClean(cfg: Config, s: State, left: set<int>, key: Key, e: Event)
    requires Clean(cfg, s, left)
    requires EventLeavesMib(cfg, e) ==> e.listId in left && EventHasMib(cfg, e)
    requires !EventHasMib(cfg, e) ==>
               e.listId !in s.caches.mibs && forall k | k in s.view.pending :: s.view.pending[k].listId != e.listId
    requires EventLeavesMib(cfg, e) ==>
               forall k | k in s.view.pending && !EventHasMib(cfg, s.view.pending[k]) ::
                 s.view.pending[k].listId != e.listId
    ensures Clean(cfg, State(s.view.(pending := s.view.pending[key := e]), s.caches), left)
  {
  }

  lemma LeaveKeepsClean(cfg: Config, s: State, left: set<int>, stop: Stop, key: Key)
    requires WellFormed(cfg) && Clean(cfg, s, left)
    requires Classify(cfg, s.view.pending.Keys, stop) == Return(key)
    ensures Step(cfg, s, stop).view == TraceStep(cfg, s.view, stop)
    ensures Clean(cfg, Step(cfg, s, stop), left)
  {
    LeaveIsFresh(cfg, s, key, stop.frame);
    LeaveCaches(cfg, s, key, stop.frame);
  }

  lemma StepKeepsClean(cfg: Config, s: State, left: set<int>, stop: Stop)
    requires WellFormed(cfg) && Clean(cfg, s, left) && UnsharedAt(cfg, left, s.view, stop)
    ensures Step(cfg, s, stop).view == TraceStep(cfg, s.view, stop)
    ensures Clean(cfg, Step(cfg, s, stop), left + LeftBy(cfg, s.view, stop))
  {
    match Classify(cfg, s.view.pending.Keys, stop)
    case Ignore =>
      assert left + {} == left;
    case Return(key) =>
      LeaveKeepsClean(cfg, s, left, stop, key);
      assert left + {} == left;
    case Entry(name) =>
      EnterKeepsClean(cfg, s, left, stop, name);
  }

  /** Every run in which no sysctl without a MIB shares its list identity with one that names a MIB, before
      it or while it is pending, writes the events of the tracer that decodes each call from its own two
      stops. */
  lemma {:induction false} RunIsExact(cfg: Config, caches: Caches, stops: seq<Stop>)
    requires WellFormed(cfg) && Unshared(cfg, caches, stops)
    ensures Run(cfg, State(START, caches), stops).view == Trace(cfg, START, stops)
    ensures Clean(cfg, Run(cfg, State(START, caches), stops), LeftIds(cfg, caches, stops))
  {
    if stops != [] {
      var front, last := stops[..|stops| - 1], stops[|stops| - 1];
      RunIsExact(cfg, caches, front);
      StepKeepsClean(cfg, Run(cfg, State(START, caches), front), LeftIds(cfg, caches, front), last);
    }
  }

  lemma {:induction false} PrefixIsUnshared(cfg: Config, caches: Caches, stops: seq<Stop>, k: nat)
    requires Unshared(cfg, caches, stops) && k <= |stops|
    ensures Unshared(cfg, caches, stops[..k])
  {
    if k == |stops| {
      assert stops[..k] == stops;
    } else {
      assert stops[..|stops| - 1][..k] == stops[..k];
      PrefixIsUnshared(cfg, caches, stops[..|stops| - 1], k);
    }
  }

  /** The stop enters a sysctl that names no MIB. */
  predicate EntersWithoutMib(cfg: Config, v: View, stop: Stop) {
    match Classify(cfg, v.pending.Keys, stop)
    case Entry(name) => !HasMib(cfg.defs[name].params, RawArgs(cfg, stop.frame, name))
    case _ => false
  }

  /** No sysctl without a MIB has the list identity of an earlier call that left one. */
  predicate NoEarlierMib(cfg: Config, caches: Caches, stops: seq<Stop>) {
    stops == [] ||
    (var front, last := stops[..|stops| - 1], stops[|stops| - 1];
     && NoEarlierMib(cfg, caches, front)
     && (EntersWithoutMib(cfg, Trace(cfg, START, front), last) ==>
           last.frame.listId !in LeftIds(cfg, caches, front)))
  }

  lemma {:induction false} NewListsAreUnshared(cfg: Config, caches: Caches, first: int, stops: seq<Stop>)
    requires NewLists(cfg, first, stops) && NoEarlierMib(cfg, caches, stops)
    ensures Unshared(cfg, caches, stops)
  {
    if stops != [] {
      NewListsAreUnshared(cfg, caches, first, stops[..|stops| - 1]);
    }
  }

  /** In every run of the program, events are exact if no sysctl without a MIB has the list identity of an
      earlier one that named a MIB. */
  lemma RunWithNewLists(cfg: Config, caches: Caches, first: int, stops: seq<Stop>)
    requires WellFormed(cfg) && NewLists(cfg, first, stops) && NoEarlierMib(cfg, caches, stops)
    ensures Run(cfg, State(START, caches), stops).view == Trace(cfg, START, stops)
  {
    NewListsAreUnshared(cfg, caches, first, stops);
    RunIsExact(cfg, caches, stops);
  }

  predicate AllHaveMib(cfg: Config, stops: seq<Stop>) {
    forall i | 0 <= i < |stops| :: HasOwnMib(cfg, stops[i])
  }

  /** Runs whose sysctl calls all name a MIB are among them. */
  lemma {:induction false} MibsAreUnshared(cfg: Config, caches: Caches, stops: seq<Stop>)
    requires WellFormed(cfg) && AllHaveMib(cfg, stops)
    ensures Unshared(cfg, caches, stops)
  {
    if stops != [] {
      var front, last := stops[..|stops| - 1], stops[|stops| - 1];
      MibsAreUnshared(cfg, caches, front);
      RunIsTrace(cfg, caches, front);
      var v := Trace(cfg, START, front);
      if last.Hit? {
        EntryWithPending(cfg, HasPending(v.pending.Keys, last.thread), last.frame.functionName);
      }
    }
  }

  // ---------------------------------------------------------------------------------------------
  // Calls one after another
  // ---------------------------------------------------------------------------------------------

  /** With nothing pending, the first frame enters the syscall and the second is at its return address. */
  predicate IsCall(cfg: Config, name: string, thread: int, entry: Frame, exit: Frame) {
    && Classify(cfg, {}, Hit(thread, entry)) == Entry(name)
    && ReturnAddress(cfg.arch, entry).Some? && exit.pc == ReturnAddress(cfg.arch, entry).value
  }

  lemma EntryOfCall(cfg: Config, s: State, name: string, thread: int, entry: Frame, exit: Frame)
    requires IsCall(cfg, name, thread, entry, exit) && s.view.pending == map[]
    ensures Step(cfg, s, Hit(thread, entry)) == Enter(cfg, s, thread, entry, name)
    ensures Step(cfg, s, Hit(thread, entry)).view.pending.Keys == {Key(thread, exit.pc)}
  {
    assert s.view.pending.Keys == {};
  }

  lemma ReturnOfCall(cfg: Config, s: State, thread: int, exit: Frame)
    requires s.view.pending.Keys == {Key(thread, exit.pc)}
    ensures Step(cfg, s, Hit(thread, exit)) == Leave(cfg, s, Key(thread, exit.pc), exit)
    ensures Step(cfg, s, Hit(thread, exit)).view.pending == map[]
  {
  }

  lemma OneMoreStop(cfg: Config, first: int, stops: seq<Stop>, stop: Stop, held: int, v: View)
    requires v == Trace(cfg, START, stops) && held == Held(cfg, first, stops)
    ensures Trace(cfg, START, stops + [stop]) == TraceStep(cfg, v, stop)
    ensures Held(cfg, first, stops + [stop]) == HeldAfter(cfg, held, v, stop)
    ensures NewLists(cfg, first, stops + [stop]) <==> NewLists(cfg, first, stops) && IsNewList(cfg, held, v, stop)
  {
    assert (stops + [stop])[..|stops|] == stops;
  }

  lemma EntryIsNew(cfg: Config, held: int, v: View, name: string, thread: int, entry: Frame, exit: Frame)
    requires IsCall(cfg, name, thread, entry, exit) && v.pending == map[] && entry.listId != held
    ensures IsNewList(cfg, held, v, Hit(thread, entry))
    ensures HeldAfter(cfg, held, v, Hit(thread, entry)) == entry.listId
    ensures TraceStep(cfg, v, Hit(thread, entry)).pending == map[Key(thread, exit.pc) := EntryEvent(cfg, entry, name)]
  {
    assert v.pending.Keys == {};
  }

  lemma ReturnMakesNoList(cfg: Config, v: View, thread: int, exit: Frame, e: Event)
    requires v.pending == map[Key(thread, exit.pc) := e]
    ensures IsNewList(cfg, e.listId, v, Hit(thread, exit))
    ensures HeldAfter(cfg, e.listId, v, Hit(thread, exit)) == e.listId
    ensures TraceStep(cfg, v, Hit(thread, exit)).pending == map[]
  {
    assert v.pending.Keys == {Key(thread, exit.pc)};
  }

  /** A call after which nothing is pending: its list becomes the context's. */
  lemma CallKeepsNewLists(cfg: Config, first: int, stops: seq<Stop>, name: string,
                          thread: int, entry: Frame, exit: Frame)
    requires IsCall(cfg, name, thread, entry, exit) && Trace(cfg, START, stops).pending == map[]
    requires NewLists(cfg, first, stops) && entry.listId != Held(cfg, first, stops)
    ensures var after := stops + [Hit(thread, entry)] + [Hit(thread, exit)];
            && NewLists(cfg, first, after) && Held(cfg, first, after) == entry.listId
            && Trace(cfg, START, after).pending == map[]
  {
    var v, entered := Trace(cfg, START, stops), stops + [Hit(thread, entry)];
    OneMoreStop(cfg, first, stops, Hit(thread, entry), Held(cfg, first, stops), v);
    EntryIsNew(cfg, Held(cfg, first, stops), v, name, thread, entry, exit);
    OneMoreStop(cfg, first, entered, Hit(thread, exit), entry.listId, Trace(cfg, START, entered));
    ReturnMakesNoList(cfg, Trace(cfg, START, entered), thread, exit, EntryEvent(cfg, entry, name));
  }
}
