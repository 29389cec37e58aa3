/** The result of a finished call, stated from what the callee left in its return register. */
module Results {
  import opened Prelude
  import opened Arch
  import opened Args
  import opened Bits
  import opened FileSymbols
  import opened FlagTables
  import opened Formatters
  import opened Ledger
  import opened Params
  import opened Text
  import opened TracerSpec

  // ---------------------------------------------------------------------------------------------
  // Reading the text of F_GETFL
  // ---------------------------------------------------------------------------------------------

  /** The two parts of `FLAGS (0x...)`. */
  function GetflParts(text: string): Option<(string, string)> {
    var parts := Split(text, '(');
    if |parts| == 2 && |parts[0]| > 0 && |parts[1]| > 0 && parts[1][|parts[1]| - 1] == ')'
    then Some((parts[0][..|parts[0]| - 1], parts[1][..|parts[1]| - 1]))
    else None
  }

  lemma {:induction false} DigitsHaveNoParen(n: nat, base: nat)
    requires 2 <= base <= 16
    ensures '(' !in Digits(n, base)
    decreases n
  {
    DigitHasNoParen(n % base);
    if n >= base {
      QuotientAndRemainder(n, base);
      DigitsHaveNoParen(n / base, base);
    }
  }

  lemma DigitHasNoParen(d: nat)
    requires d < 16
    ensures DigitChar(d) != '('
  {
    DigitValueOfChar(d);
  }

  lemma {:induction false} JoinHasNoParen(parts: seq<string>)
    requires forall p | p in parts :: '(' !in p
    ensures '(' !in Join(parts, "|")
  {
    if |parts| > 1 {
      assert parts[0] in parts;
      JoinHasNoParen(parts[1..]);
    }
  }

  lemma NamesHaveNoParen(table: FlagTable, fs: FlagTable)
    requires PlainNames(table) && PartOf(fs, table)
    ensures '(' !in Join(Names(fs), "|")
  {
    forall p | p in Names(fs) ensures '(' !in p {
      var i :| 0 <= i < |fs| && Names(fs)[i] == p;
      assert fs[i] in table;
    }
    JoinHasNoParen(Names(fs));
  }

  lemma HexHasNoParen(n: int)
    ensures '(' !in Hex(n)
  {
    DigitsHaveNoParen(if n < 0 then -n else n, 16);
  }

  lemma FlagsTextHasNoParen(table: FlagTable, value: u64)
    requires PlainNames(table)
    ensures '(' !in JoinOrHex(Names(OpenFlags(table, value)), value)
  {
    NamesHaveNoParen(table, OpenFlags(table, value));
    HexHasNoParen(ToSigned(value));
  }

  lemma OpenTextHasNoParen(value: u64)
    ensures '(' !in OpenText(value)
  {
    OpenPlain();
    if value == 0 {
      assert '(' !in "O_RDONLY";
    } else {
      FlagsTextHasNoParen(O_FLAGS, value);
    }
  }

  lemma GetflReads(flags: string, hex: string)
    requires '(' !in flags && '(' !in hex
    ensures GetflParts(flags + " (" + hex + ")") == Some((flags, hex))
  {
    var text := flags + " (" + hex + ")";
    assert text == (flags + " ") + ['('] + (hex + ")");
    SplitFirst(flags + " ", '(', hex + ")");
    SplitWhole(hex + ")", '(');
    assert (flags + " ")[..|flags|] == flags && (hex + ")")[..|hex|] == hex;
  }

  lemma HexLiteralReads(n: nat)
    ensures '(' !in HexLiteral(n) && ParseNumber(HexLiteral(n)) == Some(n)
    ensures HexLiteral(n) != "" && HexLiteral(n)[0] == '0'
  {
    HexLiteralRoundTrip(n);
    DigitsHaveNoParen(n, 16);
  }

  // ---------------------------------------------------------------------------------------------
  // The law of results
  // ---------------------------------------------------------------------------------------------

  /** fcntl: the close-on-exec flag by name, the file status flags with their word, anything else as it is. */
  ghost predicate FcntlShows(noAbbrev: bool, rawArgs: seq<u64>, w: u64, r: ReturnValue) {
    var command := if |rawArgs| >= 2 then rawArgs[1] else 0;
    && (r == Message("FD_CLOEXEC") <==> !noAbbrev && command == 1 && TestBit(w, 0))
    && (command == 3 && noAbbrev ==> r.Message? && ParseNumber(r.message) == Some(w))
    && (command == 3 && !noAbbrev ==>
          r.Message? && GetflParts(r.message).Some?
          && ParseNumber(GetflParts(r.message).value.1) == Some(w)
          && (ParseFlags(O_FLAGS, GetflParts(r.message).value.0) == Some(w) <==> OpenIsExact(O_FLAGS, w)))
    && (command != 3 && r != Message("FD_CLOEXEC") ==> r == Number(w))
  }

  /** A failed call: "-1", with the name and the description of a known errno. */
  predicate ErrnoShows(errnoNames: map<int, ErrnoName>, errno: Option<int>, text: string) {
    if errno.Some? && errno.value > 0 && errno.value in errnoNames then
      text == "-1 " + errnoNames[errno.value].name + " (" + errnoNames[errno.value].description + ")"
    else
      text == "-1"
  }

  /** What a call shows whose callee left `w`: the number that `w` is in two's complement, except for a
      decoded fcntl result and an abbreviated -1. */
  ghost predicate ResultShows(cfg: Config, name: string, rawArgs: seq<u64>, w: u64, errno: Option<int>,
                              r: ReturnValue)
  {
    var decoded := name in cfg.defs && cfg.defs[name].returnDecoder.Some? && w < 0x8000_0000_0000_0000;
    var failed := w == 0xFFFF_FFFF_FFFF_FFFF && !cfg.noAbbrev;
    && (decoded ==> FcntlShows(cfg.noAbbrev, rawArgs, w, r))
    && (failed ==> r.Message? && ErrnoShows(cfg.errnoNames, errno, r.message))
    && (!decoded && !failed ==>
          r.Number? && -0x8000_0000_0000_0000 <= r.number < 0x8000_0000_0000_0000
          && r.number % 0x1_0000_0000_0000_0000 == w)
  }

  lemma FcntlResultShows(noAbbrev: bool, rawArgs: seq<u64>, w: u64)
    requires w < 0x8000_0000_0000_0000
    ensures FcntlShows(noAbbrev, rawArgs, w, FcntlResult(w, rawArgs, noAbbrev))
  {
    HexLiteralReads(w);
    if |rawArgs| >= 2 && rawArgs[1] == 3 {
      OpenTextHasNoParen(w);
      OpenRoundTrip(w);
      GetflReads(OpenText(w), HexLiteral(w));
      CloseOnExecIsNoGetfl();
    }
    if |rawArgs| >= 2 && rawArgs[1] == 1 {
      LowBit(w);
    }
  }

  lemma CloseOnExecIsNoGetfl()
    ensures GetflParts("FD_CLOEXEC").None? && "FD_CLOEXEC"[0] == 'F'
  {
    SplitWhole("FD_CLOEXEC", '(');
  }

  lemma LowBit(w: nat)
    ensures And(w, 1) != 0 <==> TestBit(w, 0)
  {
    AndOnes(w, 1);
    assert Pow2(1) - 1 == 1;
  }

  /** The decoded result of a return stop shows what the callee left. */
  lemma DecodeReturnShows(cfg: Config, frame: Frame, name: string, rawArgs: seq<u64>, w: u64)
    requires LeavesResult(cfg.arch, frame, w)
    ensures ResultShows(cfg, name, rawArgs, w, frame.errno, DecodeReturn(cfg, frame, name, rawArgs))
  {
    ResultOfCallee(cfg.arch, frame, w);
    if w < 0x8000_0000_0000_0000 {
      FcntlResultShows(cfg.noAbbrev, rawArgs, w);
    }
  }

  lemma UnreadableReturn(cfg: Config, frame: Frame, name: string, rawArgs: seq<u64>)
    requires forall w: u64 :: !LeavesResult(cfg.arch, frame, w)
    ensures DecodeReturn(cfg, frame, name, rawArgs) == Message("?")
  {
    var r := FindRegister(frame, ReturnRegister(cfg.arch));
    if r.Some? {
      ResultOfCallee(cfg.arch, frame, r.value);
    }
  }

  /** The result of a written event: "?" if it was written at its entry, or nothing could be read; else
      what the callee of its return stop left. */
  ghost predicate ShowsItsReturn(cfg: Config, stops: seq<Stop>, e: Event, o: Origin) {
    if o.exit.None? then e.returnValue == Message("?")
    else
      && o.entry < o.exit.value < |stops| && stops[o.exit.value].Hit?
      && var exit := stops[o.exit.value].frame;
      && (forall w: u64 | LeavesResult(cfg.arch, exit, w) ::
            ResultShows(cfg, e.name, e.rawArgs, w, exit.errno, e.returnValue))
      && ((forall w: u64 :: !LeavesResult(cfg.arch, exit, w)) ==> e.returnValue == Message("?"))
  }

  lemma WrittenShowsItsReturn(cfg: Config, stops: seq<Stop>, e: Event, o: Origin)
    requires WrittenFrom(cfg, stops, e, o)
    ensures ShowsItsReturn(cfg, stops, e, o)
  {
    if o.exit.Some? {
      var exit := stops[o.exit.value].frame;
      assert e.returnValue == DecodeReturn(cfg, exit, e.name, e.rawArgs);
      forall w: u64 | LeavesResult(cfg.arch, exit, w)
        ensures ResultShows(cfg, e.name, e.rawArgs, w, exit.errno, e.returnValue)
      {
        DecodeReturnShows(cfg, exit, e.name, e.rawArgs, w);
      }
      if forall w: u64 :: !LeavesResult(cfg.arch, exit, w) {
        UnreadableReturn(cfg, exit, e.name, e.rawArgs);
      }
    }
  }

  /** In every run, from any caches, every written event shows the result of its own return stop. */
  lemma RunShowsResults(cfg: Config, caches: Caches, stops: seq<Stop>, i: nat)
    requires i < |Run(cfg, State(START, caches), stops).view.out|
    ensures i < |BookOf(cfg, stops).written|
    ensures ShowsItsReturn(cfg, stops, Run(cfg, State(START, caches), stops).view.out[i], BookOf(cfg, stops).written[i])
  {
    RunOutline(cfg, caches, stops);
    EveryEventHasItsStops(cfg, stops);
    var own := Trace(cfg, START, stops).out[i];
    WrittenShowsItsReturn(cfg, stops, own, BookOf(cfg, stops).written[i]);
    assert Outline(Run(cfg, State(START, caches), stops).view.out[i]) == Outline(own);
  }
}
