/** `SummaryFormatter`: counters kept in step with the history of written events. */
module Summary {
  import opened Params
  import opened Registry
  import opened Formatters

  datatype Stat = Stat(count: nat, errors: nat)

  /** What the summary takes for a failed call. */
  predicate IsError(r: ReturnValue) {
    r.Number? && r.number < 0
  }

  function Count(history: seq<Event>, name: string): nat {
    if history == [] then 0
    else Count(history[..|history| - 1], name) + if history[|history| - 1].name == name then 1 else 0
  }

  function Errors(history: seq<Event>, name: string): (n: nat)
    ensures n <= Count(history, name)
  {
    if history == [] then 0
    else
      var last := history[|history| - 1];
      Errors(history[..|history| - 1], name) + if last.name == name && IsError(last.returnValue) then 1 else 0
  }

  /** The counters agree with the history, and only names in the history have counters. */
  ghost predicate Agrees(stats: Dict<string, Stat>, history: seq<Event>) {
    && stats.Valid()
    && (forall n :: n in stats.entries <==> Count(history, n) > 0)
    && (forall n | n in stats.entries :: stats.entries[n] == Stat(Count(history, n), Errors(history, n)))
  }

  function SumOf(keys: seq<string>, stats: map<string, Stat>): nat {
    if keys == [] then 0
    else SumOf(keys[..|keys| - 1], stats) +
         if keys[|keys| - 1] in stats then stats[keys[|keys| - 1]].count else 0
  }

  /** The counters of the event's name with the event counted. */
  function Counted(stats: Dict<string, Stat>, e: Event): Stat {
    var prior := if e.name in stats.entries then stats.entries[e.name] else Stat(0, 0);
    Stat(prior.count + 1, prior.errors + if IsError(e.returnValue) then 1 else 0)
  }

  class SummaryFormatter {
    var stats: Dict<string, Stat>
    ghost var history: seq<Event>

    ghost predicate Valid()
      reads this
    {
      Agrees(stats, history)
    }

    constructor ()
      ensures Valid() && history == []
    {
      stats, history := Dict([], map[]), [];
    }

    method AddEvent(e: Event)
      requires Valid()
      modifies this
      ensures Valid() && history == old(history) + [e]
    {
      ghost var before := stats;
      CountEvent(e);
      AddAgrees(before, stats, history, e);
      history := history + [e];
    }

    /** The updates of the counters. */
    method CountEvent(e: Event)
      requires stats.Valid()
      modifies this`stats
      ensures stats.Valid() && stats.entries == old(stats).entries[e.name := Counted(old(stats), e)]
    {
      if e.name !in stats.entries {
        stats := stats.Set(e.name, Stat(0, 0));
      }
      var stat := stats.entries[e.name];
      stat := stat.(count := stat.count + 1);
      if IsError(e.returnValue) {
        stat := stat.(errors := stat.errors + 1);
      }
      stats := stats.Set(e.name, stat);
    }

    /** The `total_calls` of the summary table. */
    method TotalCalls() returns (total: nat)
      requires Valid()
      ensures total == |history|
    {
      var keys, entries := stats.keys, stats.entries;
      total := 0;
      for i := 0 to |keys|
        invariant total == SumOf(keys[..i], entries)
      {
        assert keys[i] in keys;
        SumSnoc(keys, i, entries);
        total := total + entries[keys[i]].count;
      }
      assert keys[..|keys|] == keys;
      TotalIsLength(stats, history);
    }
  }

  lemma SumSnoc(keys: seq<string>, i: nat, stats: map<string, Stat>)
    requires i < |keys|
    ensures SumOf(keys[..i + 1], stats) ==
            SumOf(keys[..i], stats) + if keys[i] in stats then stats[keys[i]].count else 0
  {
    assert keys[..i + 1][..i] == keys[..i];
  }

  lemma CountSnoc(history: seq<Event>, e: Event, name: string)
    ensures Count(history + [e], name) == Count(history, name) + if e.name == name then 1 else 0
    ensures Errors(history + [e], name) ==
            Errors(history, name) + if e.name == name && IsError(e.returnValue) then 1 else 0
  {
    assert (history + [e])[..|history|] == history;
  }

  /** Counting one more event keeps the counters in step. */
  lemma AddAgrees(before: Dict<string, Stat>, after: Dict<string, Stat>, history: seq<Event>, e: Event)
    requires Agrees(before, history) && after.Valid()
    requires after.entries == before.entries[e.name := Counted(before, e)]
    ensures Agrees(after, history + [e])
  {
    forall n ensures n in after.entries <==> Count(history + [e], n) > 0 {
      CountSnoc(history, e, n);
    }
    forall n | n in after.entries
      ensures after.entries[n] == Stat(Count(history + [e], n), Errors(history + [e], n))
    {
      CountSnoc(history, e, n);
    }
  }

  function SumCounts(keys: seq<string>, history: seq<Event>): nat {
    if keys == [] then 0 else SumCounts(keys[..|keys| - 1], history) + Count(history, keys[|keys| - 1])
  }

  lemma {:induction false} SumCountsSnoc(keys: seq<string>, history: seq<Event>, e: Event)
    requires NoDuplicates(keys)
    ensures SumCounts(keys, history + [e]) == SumCounts(keys, history) + if e.name in keys then 1 else 0
  {
    if keys != [] {
      var front, last := keys[..|keys| - 1], keys[|keys| - 1];
      SumCountsSnoc(front, history, e);
      CountSnoc(history, e, last);
      assert keys == front + [last] && last !in front;
    }
  }

  lemma {:induction false} SumCountsOfNothing(keys: seq<string>)
    ensures SumCounts(keys, []) == 0
  {
    if keys != [] {
      SumCountsOfNothing(keys[..|keys| - 1]);
    }
  }

  /** Distinct names that cover the history account for every event once. */
  lemma {:induction false} SumCountsCovers(keys: seq<string>, history: seq<Event>)
    requires NoDuplicates(keys) && forall i | 0 <= i < |history| :: history[i].name in keys
    ensures SumCounts(keys, history) == |history|
  {
    if history == [] {
      SumCountsOfNothing(keys);
    } else {
      var front, last := history[..|history| - 1], history[|history| - 1];
      SumCountsCovers(keys, front);
      SumCountsSnoc(keys, front, last);
      assert history == front + [last];
    }
  }

  lemma {:induction false} NamedEventsCount(history: seq<Event>, i: nat)
    requires i < |history|
    ensures Count(history, history[i].name) > 0
  {
    if i < |history| - 1 {
      NamedEventsCount(history[..|history| - 1], i);
    }
  }

  lemma {:induction false} SumOfIsSumCounts(stats: Dict<string, Stat>, history: seq<Event>, n: nat)
    requires Agrees(stats, history) && n <= |stats.keys|
    ensures SumOf(stats.keys[..n], stats.entries) == SumCounts(stats.keys[..n], history)
  {
    if n > 0 {
      SumOfIsSumCounts(stats, history, n - 1);
      assert stats.keys[n - 1] in stats.keys;
      assert stats.keys[..n][..n - 1] == stats.keys[..n - 1];
    }
  }

  /** The counters add up to the number of written events. */
  lemma TotalIsLength(stats: Dict<string, Stat>, history: seq<Event>)
    requires Agrees(stats, history)
    ensures SumOf(stats.keys, stats.entries) == |history|
  {
    forall i | 0 <= i < |history| ensures history[i].name in stats.keys {
      NamedEventsCount(history, i);
      assert history[i].name in stats.entries;
    }
    SumCountsCovers(stats.keys, history);
    SumOfIsSumCounts(stats, history, |stats.keys|);
    assert stats.keys[..|stats.keys|] == stats.keys;
  }
}
