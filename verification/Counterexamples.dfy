/** Concrete runs in which a property fails whose exact condition is proved elsewhere. In each, every new
    argument list has an identity that no live list has. */
module Counterexamples {
  import opened Prelude
  import opened Arch
  import opened Formatters
  import opened Identities
  import opened Ledger
  import opened Params
  import opened Registry
  import opened StaleMib
  import opened Sysctl
  import opened TracerSpec

  /** The identity of the list that the context is made with. */
  const FIRST_LIST := 1

  const GETPID: SyscallDef := SyscallDef(20, "getpid", [], None, None)

  const EXAMPLE_CONFIG: Config :=
    Config(map["getpid" := GETPID, "sysctl" := SyscallDef(202, "sysctl", SYSCTL_PARAMS, None, None)], map[], None, None,
           false, Arm64, 1, Tables(map[], map[], map[], map[(6, 3) := IntType], map[]), map[])

  lemma NamesAreEntered()
    ensures EntryOf(EXAMPLE_CONFIG, false, Some("getpid")) == Some("getpid")
    ensures EntryOf(EXAMPLE_CONFIG, true, Some("getpid")) == Some("getpid")
    ensures EntryOf(EXAMPLE_CONFIG, false, Some("sysctl")) == Some("sysctl")
  {
    assert "getpid"[0] == 'g' && "sysctl"[0] == 's' && "__"[0] == '_';
  }

  // ---------------------------------------------------------------------------------------------
  // A lost call
  // ---------------------------------------------------------------------------------------------

  /** Two entries of `getpid` with one return address; their argument lists are different ones. */
  const OUTER: Frame := Frame(0x1000, Some("getpid"), map["lr" := 0x2000], map[], None, 2, 0)
  const INNER: Frame := Frame(0x1000, Some("getpid"), map["lr" := 0x2000], map[], None, 3, 1)

  /** A run of the program in which a call is lost. */
  lemma LostCall()
    ensures NewLists(EXAMPLE_CONFIG, FIRST_LIST, [Hit(1, OUTER), Hit(1, INNER)])
    ensures BookOf(EXAMPLE_CONFIG, [Hit(1, OUTER), Hit(1, INNER)]).lost != {}
  {
    NamesAreEntered();
    SecondEntryOverwrites(EXAMPLE_CONFIG, 1, OUTER, INNER);
    assert [Hit(1, OUTER), Hit(1, INNER)] == [Hit(1, OUTER)] + [Hit(1, INNER)];
    assert [Hit(1, OUTER)] == [] + [Hit(1, OUTER)];
    OneMoreStop(EXAMPLE_CONFIG, FIRST_LIST, [], Hit(1, OUTER), FIRST_LIST, START);
    OneMoreStop(EXAMPLE_CONFIG, FIRST_LIST, [Hit(1, OUTER)], Hit(1, INNER),
                HeldAfter(EXAMPLE_CONFIG, FIRST_LIST, START, Hit(1, OUTER)),
                TraceStep(EXAMPLE_CONFIG, START, Hit(1, OUTER)));
  }

  // ---------------------------------------------------------------------------------------------
  // A result decoded with the type of another call
  // ---------------------------------------------------------------------------------------------

  /** sysctl([CTL_HW, HW_NCPU], 2, ...), which fails. */
  const NAMED_ENTRY: Frame :=
    Frame(0x1000, Some("sysctl"), map["x0" := 0x5000, "x1" := 2, "lr" := 0x2000], MibMemory(0x5000, 6, 3), None, 7, 0)

  const NAMED_RETURN: Frame := Frame(0x2000, None, map["x0" := 0xFFFF_FFFF_FFFF_FFFF], map[], None, 0, 1)

  /** getpid(), after which the list of the first call is gone. */
  const GETPID_ENTRY: Frame := Frame(0x1100, Some("getpid"), map["lr" := 0x2100], map[], None, 8, 2)
  const GETPID_RETURN: Frame := Frame(0x2100, None, map["x0" := 123], map[], None, 0, 3)

  /** sysctl(NULL, 0, 0x6000, ...), whose argument list has the identity of the first one. */
  const NULL_ENTRY: Frame :=
    Frame(0x1000, Some("sysctl"), map["x0" := 0, "x2" := 0x6000, "lr" := 0x2200], map[], None, 7, 4)

  const NULL_RETURN: Frame :=
    Frame(0x2200, None, map["x0" := 0], StoreBytes(map[], 0x6000, IntBytes(8)), None, 0, 5)

  lemma NamedRawArgs()
    ensures var raws := RawArgs(EXAMPLE_CONFIG, NAMED_ENTRY, "sysctl"); raws[0] == 0x5000 && raws[1] == 2
  {
  }

  lemma NullRawArgs()
    ensures var raws := RawArgs(EXAMPLE_CONFIG, NULL_ENTRY, "sysctl"); raws[0] == 0 && raws[2] == 0x6000
  {
  }

  lemma NamedMib()
    ensures ReadMib(EXAMPLE_CONFIG.tables, NAMED_ENTRY.memory, 0x5000, 2).values == [6, 3]
  {
    MibIsRead(EXAMPLE_CONFIG.tables, 0x5000, 6, 3);
  }

  lemma NullResult()
    ensures IntAt(NULL_RETURN.memory, 0x6000) == Some(8)
  {
    StoredInt(map[], 0x6000, 8);
  }

  lemma AreCalls()
    ensures IsCall(EXAMPLE_CONFIG, "sysctl", 1, NAMED_ENTRY, NAMED_RETURN)
    ensures IsCall(EXAMPLE_CONFIG, "getpid", 1, GETPID_ENTRY, GETPID_RETURN)
    ensures IsCall(EXAMPLE_CONFIG, "sysctl", 1, NULL_ENTRY, NULL_RETURN)
  {
    NamesAreEntered();
  }

  const NAMED_CALL: seq<Stop> := [] + [Hit(1, NAMED_ENTRY)] + [Hit(1, NAMED_RETURN)]
  const BOTH_CALLS: seq<Stop> := NAMED_CALL + [Hit(1, GETPID_ENTRY)] + [Hit(1, GETPID_RETURN)]
  const BEFORE_RETURN: seq<Stop> := BOTH_CALLS + [Hit(1, NULL_ENTRY)]

  /** No two live lists of the run have one identity. */
  lemma ListsAreNew()
    ensures NewLists(EXAMPLE_CONFIG, FIRST_LIST, BEFORE_RETURN + [Hit(1, NULL_RETURN)])
  {
    AreCalls();
    CallKeepsNewLists(EXAMPLE_CONFIG, FIRST_LIST, [], "sysctl", 1, NAMED_ENTRY, NAMED_RETURN);
    CallKeepsNewLists(EXAMPLE_CONFIG, FIRST_LIST, NAMED_CALL, "getpid", 1, GETPID_ENTRY, GETPID_RETURN);
    CallKeepsNewLists(EXAMPLE_CONFIG, FIRST_LIST, BOTH_CALLS, "sysctl", 1, NULL_ENTRY, NULL_RETURN);
  }

  lemma TwoMoreStops(cfg: Config, s: State, stops: seq<Stop>, a: Stop, b: Stop)
    ensures Run(cfg, s, stops + [a] + [b]) == Step(cfg, Step(cfg, Run(cfg, s, stops), a), b)
  {
    RunSnoc(cfg, s, stops, a);
    RunSnoc(cfg, s, stops + [a], b);
  }

  lemma NamedFails()
    ensures var raws := RawArgs(EXAMPLE_CONFIG, NAMED_ENTRY, "sysctl");
            DecodeReturn(EXAMPLE_CONFIG, NAMED_RETURN, "sysctl", raws).Message?
  {
  }

  /** When the second sysctl is entered, the MIB of the first is cached under its list identity. */
  lemma MibLingers()
    ensures var s := Run(EXAMPLE_CONFIG, State(START, NO_CACHES), BOTH_CALLS);
            s.view.pending == map[] && s.caches.mibs == map[7 := [6, 3]]
  {
    var s := State(START, NO_CACHES);
    AreCalls();
    NamedRawArgs();
    NamedMib();
    NamedFails();
    FailedCall(EXAMPLE_CONFIG, s, "sysctl", 1, NAMED_ENTRY, NAMED_RETURN, [6, 3]);
    TwoMoreStops(EXAMPLE_CONFIG, s, [], Hit(1, NAMED_ENTRY), Hit(1, NAMED_RETURN));
    PlainCall(EXAMPLE_CONFIG, Run(EXAMPLE_CONFIG, s, NAMED_CALL), "getpid", 1, GETPID_ENTRY, GETPID_RETURN);
    TwoMoreStops(EXAMPLE_CONFIG, s, NAMED_CALL, Hit(1, GETPID_ENTRY), Hit(1, GETPID_RETURN));
  }

  lemma NullSucceeds(e: Event)
    requires e.name == "sysctl"
    ensures DecodesAgain(EXAMPLE_CONFIG, e, NULL_RETURN)
  {
  }

  /** The second sysctl while it is pending. */
  lemma NullIsPending()
    ensures var s := Run(EXAMPLE_CONFIG, State(START, NO_CACHES), BEFORE_RETURN);
            && s.caches.mibs == map[7 := [6, 3]] && Key(1, 0x2200) in s.view.pending
            && var e := s.view.pending[Key(1, 0x2200)];
               e.name == "sysctl" && |e.rawArgs| == 6 && e.rawArgs[0] == 0 && e.rawArgs[2] == 0x6000 && e.listId == 7
  {
    var s := State(START, NO_CACHES);
    MibLingers();
    AreCalls();
    NullRawArgs();
    EntryWithoutMib(EXAMPLE_CONFIG, Run(EXAMPLE_CONFIG, s, BOTH_CALLS), "sysctl", 1, NULL_ENTRY, NULL_RETURN);
    RunSnoc(EXAMPLE_CONFIG, s, BOTH_CALLS, Hit(1, NULL_ENTRY));
  }

  /** A run of the program whose second sysctl, which names no MIB, is shown with the type of the first. */
  lemma StaleType()
    ensures var stops := BEFORE_RETURN + [Hit(1, NULL_RETURN)];
            && NewLists(EXAMPLE_CONFIG, FIRST_LIST, stops)
            && Run(EXAMPLE_CONFIG, State(START, NO_CACHES), stops).view != Trace(EXAMPLE_CONFIG, START, stops)
  {
    ListsAreNew();
    NullIsPending();
    var s := Run(EXAMPLE_CONFIG, State(START, NO_CACHES), BEFORE_RETURN);
    NullSucceeds(s.view.pending[Key(1, 0x2200)]);
    NullResult();
    ShownAsInt(EXAMPLE_CONFIG, s.view.pending[Key(1, 0x2200)], NULL_RETURN, s.caches, 8);
    StaleTypeShows(EXAMPLE_CONFIG, NO_CACHES, BEFORE_RETURN, 1, NULL_RETURN);
  }
}
