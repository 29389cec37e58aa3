/** What the written events say about the calls of a program, stated from the caller's arguments, the two
    memories and the result of the callee. */
module Calls {
  import opened Prelude
  import opened Arch
  import opened Args
  import opened Bits
  import opened Formatters
  import opened Ledger
  import opened Meanings
  import opened Params
  import opened Results
  import opened TracerSpec

  // ---------------------------------------------------------------------------------------------
  // Arguments in their two phases
  // ---------------------------------------------------------------------------------------------

  /** The argument is what its parameter means at exit, if the call succeeded and that is something, else what
      it means at entry. */
  ghost predicate MeansInPhases(p: Param, entry: Context, exit: Context, succeeded: bool, a: Arg) {
    exists before, after :: Means(p, entry, before) && Means(p, exit, after) && a == InPhases(succeeded, before, after)
  }

  function InPhases(succeeded: bool, before: Option<Arg>, after: Option<Arg>): Arg {
    if succeeded && after.Some? then after.value else if before.Some? then before.value else UnknownArg
  }

  lemma DecodesMean(p: Param, entry: Context, exit: Context, succeeded: bool, a: Arg)
    requires a == InPhases(succeeded, DecodeFresh(p, entry), DecodeFresh(p, exit))
    ensures MeansInPhases(p, entry, exit, succeeded, a)
  {
    DecodeMeans(p, entry);
    DecodeMeans(p, exit);
  }

  lemma ArgumentMeans(cfg: Config, entry: Frame, exit: Frame, name: string, i: nat)
    requires name in cfg.defs && i < |cfg.defs[name].params|
    ensures var params, done := cfg.defs[name].params, Complete(cfg, EntryEvent(cfg, entry, name), exit);
            && |done.args| == |params|
            && MeansInPhases(params[i], AtEntry(cfg, entry, name, i), AtExit(cfg, entry, exit, name, i),
                             Succeeded(done.returnValue), done.args[i])
  {
    var done := Complete(cfg, EntryEvent(cfg, entry, name), exit);
    TwoPhaseLaw(cfg, entry, exit, name, i);
    DecodesMean(cfg.defs[name].params[i], AtEntry(cfg, entry, name, i), AtExit(cfg, entry, exit, name, i),
                Succeeded(done.returnValue), done.args[i]);
  }

  lemma EntryArgumentMeans(cfg: Config, entry: Frame, name: string, i: nat)
    requires name in cfg.defs && i < |cfg.defs[name].params|
    ensures var params, e := cfg.defs[name].params, EntryEvent(cfg, entry, name);
            |e.args| == |params| && Means(params[i], AtEntry(cfg, entry, name, i), Some(e.args[i]))
  {
    var params, raws := cfg.defs[name].params, RawArgs(cfg, entry, name);
    FreshPassAt(params, EntryContext(cfg, entry, raws), |params|, i);
    DecodeMeans(params[i], AtEntry(cfg, entry, name, i));
    EntrySaysSomething(params[i], AtEntry(cfg, entry, name, i));
  }

  lemma {:induction false} EntrySaysSomething(p: Param, ctx: Context)
    requires ctx.atEntry
    ensures DecodeFresh(p, ctx).Some?
    decreases p
  {
    if p.VariantParam? && p.discriminator < |ctx.allArgs| {
      var disc := ctx.allArgs[p.discriminator];
      var c := Choose(disc, p.variants, p.otherwise, p.skipFor, p.skipWhenNotSet);
      if c.Chosen? {
        EntrySaysSomething(c.param, ctx);
      }
    }
  }

  /** A written event has one argument a parameter, each meaning what its stops say. */
  ghost predicate EventMeans(cfg: Config, stops: seq<Stop>, e: Event, o: Origin)
    requires WrittenFrom(cfg, stops, e, o)
  {
    var params, entry := cfg.defs[e.name].params, stops[o.entry].frame;
    && |e.args| == |params|
    && forall i | 0 <= i < |params| ::
         match o.exit
         case None => Means(params[i], AtEntry(cfg, entry, e.name, i), Some(e.args[i]))
         case Some(j) =>
           MeansInPhases(params[i], AtEntry(cfg, entry, e.name, i), AtExit(cfg, entry, stops[j].frame, e.name, i),
                         Succeeded(e.returnValue), e.args[i])
  }

  lemma WrittenMeans(cfg: Config, stops: seq<Stop>, e: Event, o: Origin)
    requires WrittenFrom(cfg, stops, e, o)
    ensures EventMeans(cfg, stops, e, o)
  {
    var entry := stops[o.entry].frame;
    forall i | 0 <= i < |cfg.defs[e.name].params|
      ensures |e.args| == |cfg.defs[e.name].params|
      ensures match o.exit
              case None => Means(cfg.defs[e.name].params[i], AtEntry(cfg, entry, e.name, i), Some(e.args[i]))
              case Some(j) =>
                MeansInPhases(cfg.defs[e.name].params[i], AtEntry(cfg, entry, e.name, i),
                              AtExit(cfg, entry, stops[j].frame, e.name, i), Succeeded(e.returnValue), e.args[i])
    {
      if o.exit.None? {
        EntryArgumentMeans(cfg, entry, e.name, i);
      } else {
        ArgumentMeans(cfg, entry, stops[o.exit.value].frame, e.name, i);
      }
    }
  }

  /** In every run whose sysctl calls have a MIB, from any caches, every argument of every written event
      means what the memory and the raw arguments of its own two stops say. */
  lemma RunMeans(cfg: Config, caches: Caches, stops: seq<Stop>, n: nat)
    requires WellFormed(cfg) && forall i | 0 <= i < |stops| :: HasOwnMib(cfg, stops[i])
    requires n < |Run(cfg, State(START, caches), stops).view.out|
    ensures n < |BookOf(cfg, stops).written|
    ensures var e, o := Run(cfg, State(START, caches), stops).view.out[n], BookOf(cfg, stops).written[n];
            WrittenFrom(cfg, stops, e, o) && EventMeans(cfg, stops, e, o)
  {
    RunIsTrace(cfg, caches, stops);
    EveryEventHasItsStops(cfg, stops);
    WrittenMeans(cfg, stops, Trace(cfg, START, stops).out[n], BookOf(cfg, stops).written[n]);
  }

  // ---------------------------------------------------------------------------------------------
  // One call, from the caller's side
  // ---------------------------------------------------------------------------------------------

  /** The arguments fit where the convention puts them. */
  predicate Fits(cfg: Config, name: string, args: seq<u64>)
    requires name in cfg.defs
  {
    && |args| == |cfg.defs[name].params|
    && FixedCount(|args|, cfg.defs[name].variadicStart) <= RegisterCount(cfg.arch)
  }

  function CalledBy(cfg: Config, frame: Frame, name: string, args: seq<u64>, ret: u64): Frame
    requires name in cfg.defs && HasStack(cfg.arch, frame)
  {
    Called(cfg.arch, frame, args, cfg.defs[name].variadicStart, ret)
  }

  lemma CallersArguments(cfg: Config, frame: Frame, name: string, args: seq<u64>, ret: u64)
    requires name in cfg.defs && HasStack(cfg.arch, frame) && Fits(cfg, name, args)
    ensures RawArgs(cfg, CalledBy(cfg, frame, name, args, ret), name) == args
  {
    CallingConvention(cfg.arch, frame, args, cfg.defs[name].variadicStart, ret);
  }

  /** The event of a call holds the caller's arguments, each decoded from the caller's list and the memory at
      the call or at its return, and the result that the callee left. */
  lemma CallMeans(cfg: Config, frame: Frame, name: string, args: seq<u64>, ret: u64, exit: Frame, w: u64, i: nat)
    requires name in cfg.defs && HasStack(cfg.arch, frame) && Fits(cfg, name, args) && i < |args|
    requires LeavesResult(cfg.arch, exit, w)
    ensures var entry := CalledBy(cfg, frame, name, args, ret);
            var done := Complete(cfg, EntryEvent(cfg, entry, name), exit);
            && done.name == name && done.rawArgs == args && |done.args| == |args|
            && ResultShows(cfg, name, args, w, exit.errno, done.returnValue)
            && MeansInPhases(cfg.defs[name].params[i],
                             Context(cfg.noAbbrev, cfg.tables, entry.memory, args[i], args, frame.listId, true, None),
                             Context(cfg.noAbbrev, cfg.tables, exit.memory, args[i], args, frame.listId, false,
                                     Some(done.returnValue)),
                             Succeeded(done.returnValue), done.args[i])
  {
    var entry := CalledBy(cfg, frame, name, args, ret);
    CallersArguments(cfg, frame, name, args, ret);
    ArgumentMeans(cfg, entry, exit, name, i);
    DecodeReturnShows(cfg, exit, name, args, w);
  }

  /** The entry of a call is filed under its thread and the address that it returns to. */
  lemma CallIsFiled(cfg: Config, s: State, thread: int, frame: Frame, name: string, args: seq<u64>, ret: u64)
    requires name in cfg.defs && HasStack(cfg.arch, frame)
    requires Classify(cfg, s.view.pending.Keys, Hit(thread, CalledBy(cfg, frame, name, args, ret))) == Entry(name)
    ensures var v := Step(cfg, s, Hit(thread, CalledBy(cfg, frame, name, args, ret))).view;
            && v.out == s.view.out && v.pending.Keys == s.view.pending.Keys + {Key(thread, ret)}
            && v.pending[Key(thread, ret)].name == name
            && forall k | k in s.view.pending && k != Key(thread, ret) :: v.pending[k] == s.view.pending[k]
  {
    CallingConvention(cfg.arch, frame, args, cfg.defs[name].variadicStart, ret);
  }

  /** The mode of an `open` is left out of its event exactly when the caller's flags lack `O_CREAT`, bit 9. */
  lemma OpenMode(cfg: Config, frame: Frame, name: string, args: seq<u64>, ret: u64, exit: Frame)
    requires name in cfg.defs && cfg.defs[name].params == OPEN_PARAMS
    requires HasStack(cfg.arch, frame) && Fits(cfg, name, args)
    ensures var done := Complete(cfg, EntryEvent(cfg, CalledBy(cfg, frame, name, args, ret), name), exit);
            |done.args| == 3 && (done.args[2] == SkipArg <==> !TestBit(args[1], 9))
  {
    var entry := CalledBy(cfg, frame, name, args, ret);
    CallersArguments(cfg, frame, name, args, ret);
    SkippedArguments(cfg, entry, exit, name, 2);
    TwoPhaseLaw(cfg, entry, exit, name, 2);
    OpenModeIsAbsent(args);
  }
}
