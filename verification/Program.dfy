/** A whole tracing session, from the definitions to the printed lines. */
module Program {
  import opened Prelude
  import opened CallTree
  import opened Identities
  import opened Params
  import opened Registry
  import opened StaleMib
  import opened Threads
  import opened Tracer
  import opened TracerSpec

  /** The configuration that a tracer with these options and definitions runs with. */
  ghost predicate IsConfigOf(cfg: Config, options: Options, definitions: seq<Registration>) {
    && (forall n :: n in cfg.defs <==> LastNamed(definitions, n).Some?)
    && (forall n | n in cfg.defs :: cfg.defs[n] == LastNamed(definitions, n).value.def)
    && (forall n :: n in cfg.categories <==> LastNamed(definitions, n).Some?)
    && (forall n | n in cfg.categories :: cfg.categories[n] == LastNamed(definitions, n).value.category)
    && cfg.filterCategory == options.filterCategory && cfg.filterNames == options.filterNames
    && cfg.noAbbrev == options.noAbbrev && cfg.arch == options.arch && cfg.pid == options.pid
    && cfg.tables == options.tables && cfg.errnoNames == options.errnoNames
  }

  lemma ConfigOfRegistry(cfg: Config, options: Options, definitions: seq<Registration>,
                         byName: Dict<string, SyscallDef>, categories: Dict<string, Category>)
    requires IsConfigOf(cfg, options, definitions)
    requires NamesReflect(byName, definitions) && CategoriesReflect(categories, definitions)
    ensures cfg.defs == byName.entries && cfg.categories == categories.entries
  {
  }

  /** A new tracer knows the definitions. */
  method NewTracer(options: Options, definitions: seq<Registration>, ghost cfg: Config) returns (tracer: Tracer)
    requires IsConfigOf(cfg, options, definitions) && forall d | d in definitions :: Ordered(d.def.params)
    ensures fresh(tracer) && fresh(tracer.summary) && fresh(tracer.decodeCtx) && fresh(tracer.events)
    ensures tracer.Valid() && tracer.Now() == State(START, NO_CACHES) && !tracer.interrupted
    ensures tracer.Cfg() == cfg && WellFormed(cfg) && tracer.options == options
  {
    tracer := new Tracer(options, definitions);
    ConfigOfRegistry(cfg, options, definitions, tracer.registry.byName, tracer.registry.categories);
  }

  /** Once the stops of a nested run have been seen to their end, nothing is pending, the post-order of
      the traced calls has been printed, one line each, and exactly these calls have been counted. */
  method TraceNested(tracer: Tracer, seen: seq<Observation>,
                     ghost cfg: Config, ghost thread: int, ghost calls: seq<Call>)
    returns (exitCode: Option<int>)
    requires tracer.Valid() && tracer.Now() == State(START, NO_CACHES) && !tracer.interrupted
    requires tracer.Cfg() == cfg && WellFormed(cfg)
    requires Placed(cfg, false, {}, calls) && Handled(seen) == StopsOf(cfg, thread, calls)
    requires Unshared(cfg, NO_CACHES, Handled(seen))
    modifies tracer, tracer.summary, tracer.decodeCtx, tracer.events
    ensures tracer.Valid() && tracer.pending == map[]
    ensures tracer.output == Lines(tracer.options, PostOrder(cfg, false, calls))
    ensures IsLoopCode(seen, exitCode)
    ensures tracer.summary.history == PostOrder(cfg, false, calls)
  {
    exitCode := tracer.TraceLoop(seen);
    RunIsExact(cfg, NO_CACHES, Handled(seen));
    TraceIsPostOrder(cfg, thread, calls);
    assert tracer.pending.Keys == {};
  }

  /** A whole session: build the tracer from the definitions and run its loop. */
  method TraceProgram(options: Options, definitions: seq<Registration>, seen: seq<Observation>,
                      ghost cfg: Config, ghost thread: int, ghost calls: seq<Call>)
    returns (tracer: Tracer, exitCode: Option<int>)
    requires IsConfigOf(cfg, options, definitions) && forall d | d in definitions :: Ordered(d.def.params)
    requires Placed(cfg, false, {}, calls) && Handled(seen) == StopsOf(cfg, thread, calls)
    requires Unshared(cfg, NO_CACHES, Handled(seen))
    ensures fresh(tracer) && tracer.Valid() && tracer.pending == map[]
    ensures tracer.output == Lines(options, PostOrder(cfg, false, calls))
    ensures IsLoopCode(seen, exitCode)
    ensures tracer.summary.history == PostOrder(cfg, false, calls)
  {
    tracer := NewTracer(options, definitions, cfg);
    exitCode := TraceNested(tracer, seen, cfg, thread, calls);
  }
}
