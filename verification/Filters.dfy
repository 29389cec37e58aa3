/** What a run traces, stated from the options and the registrations. */
module Filters {
  import opened Prelude
  import opened Arch
  import opened Ledger
  import opened Params
  import opened Program
  import opened Registry
  import opened Tracer
  import opened TracerSpec

  /** The options select a registered name: by the category of its last registration if a category is
      given, else by the set of names if one is given, else always. */
  predicate Selected(options: Options, definitions: seq<Registration>, name: string) {
    LastNamed(definitions, name).Some? &&
    match options.filterCategory
    case Some(category) => LastNamed(definitions, name).value.category == category
    case None =>
      match options.filterNames {
        case Some(names) => name in names
        case None => true
      }
  }

  lemma TracedIsSelected(cfg: Config, options: Options, definitions: seq<Registration>, name: string)
    requires IsConfigOf(cfg, options, definitions)
    ensures name in cfg.defs && ShouldTrace(cfg, name) <==> Selected(options, definitions, name)
  {
  }

  lemma EntryIsSelected(cfg: Config, options: Options, definitions: seq<Registration>, stops: seq<Stop>, i: nat,
                        name: string)
    requires IsConfigOf(cfg, options, definitions) && IsEntry(cfg, stops, i, name)
    ensures Selected(options, definitions, name)
  {
    EnteredExactly(cfg, false, stops[i].frame.functionName, name);
    TracedIsSelected(cfg, options, definitions, name);
  }

  /** In every run, from any caches, every pending and every written call is one that the options select. */
  lemma RunIsFiltered(cfg: Config, options: Options, definitions: seq<Registration>, caches: Caches, stops: seq<Stop>)
    requires IsConfigOf(cfg, options, definitions)
    ensures var v := Run(cfg, State(START, caches), stops).view;
            && (forall k | k in v.pending :: Selected(options, definitions, v.pending[k].name))
            && (forall i | 0 <= i < |v.out| :: Selected(options, definitions, v.out[i].name))
  {
    var v, own, b := Run(cfg, State(START, caches), stops).view, Trace(cfg, START, stops), BookOf(cfg, stops);
    RunOutline(cfg, caches, stops);
    EveryEventHasItsStops(cfg, stops);
    forall k | k in v.pending ensures Selected(options, definitions, v.pending[k].name) {
      assert Outline(v.pending[k]) == Outline(own.pending[k]) && PendingFrom(cfg, stops, k, own.pending[k], b.open[k]);
      EntryIsSelected(cfg, options, definitions, stops, b.open[k], v.pending[k].name);
    }
    forall i | 0 <= i < |v.out| ensures Selected(options, definitions, v.out[i].name) {
      assert Outline(v.out[i]) == Outline(own.out[i]) && WrittenFrom(cfg, stops, own.out[i], b.written[i]);
      EntryIsSelected(cfg, options, definitions, stops, b.written[i].entry, v.out[i].name);
    }
  }

  /** A stop in the function of a name without leading underscore, at no pending return address, is its
      entry exactly when the options select the name. */
  lemma FilterDecides(cfg: Config, options: Options, definitions: seq<Registration>, keys: set<Key>,
                      thread: int, frame: Frame, name: string)
    requires IsConfigOf(cfg, options, definitions)
    requires name != "" && name[0] != '_' && frame.functionName == Some(name) && Key(thread, frame.pc) !in keys
    ensures Classify(cfg, keys, Hit(thread, frame)) == Entry(name) <==> Selected(options, definitions, name)
  {
    EnteredExactly(cfg, HasPending(keys, thread), Some(name), name);
    TracedIsSelected(cfg, options, definitions, name);
  }
}
