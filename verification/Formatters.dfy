/** `formatters.py`: the plain and the coloured line of an event, and the summary counters. */
module Formatters {
  import opened Prelude
  import opened Text
  import opened StringQuote
  import opened Args
  import opened Params

  datatype Event = Event(
    pid: int,
    name: string,
    args: seq<Arg>,
    returnValue: ReturnValue,
    timestamp: int,
    rawArgs: seq<u64>,
    listId: int)

  function ReturnText(r: ReturnValue): string {
    match r
    case Message(s) => s
    case Number(n) => Decimal(n)
  }

  function Shown(args: seq<Arg>): seq<Arg> {
    Filter((a: Arg) => !a.SkipArg?, args)
  }

  function ArgTexts(e: Event): seq<string> {
    Map(ArgText, Shown(e.args))
  }

  /** A line put together from its parts. */
  function Assemble(name: string, args: seq<string>, ret: string): string {
    name + "(" + Join(args, ", ") + ") = " + ret
  }

  /** `TextFormatter.format` */
  function TextLine(e: Event): string {
    Assemble(e.name, ArgTexts(e), ReturnText(e.returnValue))
  }

  // ---------------------------------------------------------------------------------------------
  // Colours
  // ---------------------------------------------------------------------------------------------

  const ESC: char := '\U{1B}'

  /** The ANSI sequence that selects a graphic rendition. */
  function Sgr(parameters: string): string {
    [ESC, '['] + parameters + "m"
  }

  const RESET := "0"
  const SYSCALL := "1;36"
  const STRING := "0;33"
  const NUMBER := "0;35"
  const ADDRESS := "0;34"
  const FD := "0;32"
  const RETURN_OK := "1;32"
  const RETURN_ERR := "1;31"
  const PUNCTUATION := "0;37"

  function Colored(color: string, text: string): string {
    Sgr(color) + text + Sgr(RESET)
  }

  /** The colour of an argument, if its type has one: yellow strings, magenta numbers, blue pointers, green
      descriptors. */
  function ArgColor(a: Arg): (color: Option<string>)
    ensures color == Some("0;33") <==> a.StringArg?
    ensures color == Some("0;35") <==> a.IntArg? || a.UnsignedArg?
    ensures color == Some("0;34") <==> a.PointerArg?
    ensures color == Some("0;32") <==> a.FileDescriptorArg?
  {
    match a
    case StringArg(_) => Some(STRING)
    case PointerArg(_) => Some(ADDRESS)
    case FileDescriptorArg(_) => Some(FD)
    case IntArg(_, _) => Some(NUMBER)
    case UnsignedArg(_) => Some(NUMBER)
    case _ => None
  }

  function ColoredArg(a: Arg): string {
    match ArgColor(a)
    case Some(color) => Colored(color, ArgText(a))
    case None => ArgText(a)
  }

  /** Red for a negative number, green for anything else. */
  function ReturnColor(r: ReturnValue): (color: string)
    ensures color == "1;31" || color == "1;32"
    ensures color == "1;31" <==> r.Number? && r.number < 0
  {
    if r.Number? && r.number < 0 then RETURN_ERR else RETURN_OK
  }

  function ColoredArgs(args: seq<Arg>): string {
    Join(Map(ColoredArg, args), Colored(PUNCTUATION, ",") + " ")
  }

  function ColorLine(e: Event): string {
    Colored(SYSCALL, e.name) + Colored(PUNCTUATION, "(") + ColoredArgs(Shown(e.args)) + Colored(PUNCTUATION, ")") + " "
    + Colored(PUNCTUATION, "=") + " " + Colored(ReturnColor(e.returnValue), ReturnText(e.returnValue))
  }

  /** The loop of `ColorTextFormatter.format`. */
  method FormatColor(e: Event) returns (line: string)
    ensures line == ColorLine(e)
  {
    var coloredArgs := [];
    ghost var shown := (a: Arg) => !a.SkipArg?;
    for i := 0 to |e.args|
      invariant coloredArgs == Map(ColoredArg, Filter(shown, e.args[..i]))
    {
      FilterSnoc(shown, e.args, i);
      if e.args[i].SkipArg? {
        continue;
      }
      coloredArgs := coloredArgs + [ColoredArg(e.args[i])];
    }
    assert e.args[..|e.args|] == e.args;
    var argsStr := Join(coloredArgs, Colored(PUNCTUATION, ",") + " ");
    line := Colored(SYSCALL, e.name) + Colored(PUNCTUATION, "(") + argsStr + Colored(PUNCTUATION, ")") + " "
            + Colored(PUNCTUATION, "=") + " " + Colored(ReturnColor(e.returnValue), ReturnText(e.returnValue));
  }

  /** The coloured line starts with the name in cyan and a white parenthesis, and ends with the result, red
      for a negative number, green for anything else. */
  lemma ColoredEnds(e: Event)
    ensures Sgr("1;36") + e.name + Sgr("0") + Sgr("0;37") + "(" + Sgr("0") <= ColorLine(e)
    ensures var failed := e.returnValue.Number? && e.returnValue.number < 0;
            var result := Sgr(if failed then "1;31" else "1;32") + ReturnText(e.returnValue) + Sgr("0");
            |result| <= |ColorLine(e)| && ColorLine(e)[|ColorLine(e)| - |result|..] == result
  {
    assert Colored(SYSCALL, e.name) + Colored(PUNCTUATION, "(") ==
           Sgr("1;36") + e.name + Sgr("0") + Sgr("0;37") + "(" + Sgr("0");
  }

  // ---------------------------------------------------------------------------------------------
  // Removing colours
  // ---------------------------------------------------------------------------------------------

  predicate IsParameter(c: char) {
    '0' <= c <= '9' || c == ';'
  }

  /** How many parameter characters the text starts with. */
  function ParameterRun(s: string): (n: nat)
    ensures n <= |s|
    ensures n < |s| ==> !IsParameter(s[n])
  {
    if s == "" || !IsParameter(s[0]) then 0 else 1 + ParameterRun(s[1..])
  }

  /** The length of the colour sequence the text starts with, 0 if it starts with none. */
  function SgrLength(s: string): (n: nat)
    ensures n <= |s|
  {
    if |s| >= 2 && s[0] == ESC && s[1] == '[' then
      var n := ParameterRun(s[2..]);
      if 2 + n < |s| && s[2 + n] == 'm' then 3 + n else 0
    else 0
  }

  /** The text without its colour sequences. */
  function Erase(s: string): (r: string)
    ensures |r| < |s| || r == s
    decreases |s|
  {
    if s == "" then ""
    else if SgrLength(s) > 0 then Erase(s[SgrLength(s)..])
    else [s[0]] + Erase(s[1..])
  }

  predicate EndsPart(rest: string) {
    rest == "" || rest[0] == ESC
  }

  lemma {:induction false} RunBeforeEsc(a: string, rest: string)
    requires EndsPart(rest)
    ensures ParameterRun(a + rest) == ParameterRun(a)
  {
    if a == "" {
      assert a + rest == rest;
    } else {
      assert (a + rest)[1..] == a[1..] + rest;
      RunBeforeEsc(a[1..], rest);
    }
  }

  lemma SgrBeforeEsc(a: string, rest: string)
    requires a != "" && EndsPart(rest)
    ensures SgrLength(a + rest) == SgrLength(a)
  {
    if |a| >= 2 {
      assert (a + rest)[2..] == a[2..] + rest;
      RunBeforeEsc(a[2..], rest);
    }
  }

  /** A part that an escape character follows is erased on its own: no colour sequence spans both. */
  lemma {:induction false} EraseBeforeEsc(a: string, rest: string)
    requires EndsPart(rest)
    ensures Erase(a + rest) == Erase(a) + Erase(rest)
    decreases |a|
  {
    if a == "" {
      assert a + rest == rest;
    } else {
      SgrBeforeEsc(a, rest);
      var n := SgrLength(a);
      if n > 0 {
        assert (a + rest)[n..] == a[n..] + rest;
        EraseBeforeEsc(a[n..], rest);
      } else {
        assert (a + rest)[1..] == a[1..] + rest;
        EraseBeforeEsc(a[1..], rest);
        assert [a[0]] + (Erase(a[1..]) + Erase(rest)) == ([a[0]] + Erase(a[1..])) + Erase(rest);
      }
    }
  }

  lemma {:induction false} RunOfParameters(ps: string, rest: string)
    requires forall c | c in ps :: IsParameter(c)
    ensures ParameterRun(ps + "m" + rest) == |ps|
  {
    if ps == "" {
      assert ps + "m" + rest == "m" + rest;
    } else {
      assert (ps + "m" + rest)[1..] == ps[1..] + "m" + rest;
      RunOfParameters(ps[1..], rest);
    }
  }

  lemma EraseSgr(ps: string, rest: string)
    requires forall c | c in ps :: IsParameter(c)
    ensures Erase(Sgr(ps) + rest) == Erase(rest)
  {
    var s := Sgr(ps) + rest;
    assert s[2..] == ps + "m" + rest;
    RunOfParameters(ps, rest);
    assert s[3 + |ps|..] == rest;
  }

  lemma EraseColored(color: string, text: string, rest: string)
    requires forall c | c in color :: IsParameter(c)
    ensures Erase(Colored(color, text) + rest) == Erase(text) + Erase(rest)
  {
    var after := Sgr(RESET) + rest;
    assert Colored(color, text) + rest == Sgr(color) + (text + after);
    EraseSgr(color, text + after);
    EraseBeforeEsc(text, after);
    EraseSgr(RESET, rest);
  }

  lemma ErasePlain(c: char, rest: string)
    requires c != ESC
    ensures Erase([c] + rest) == [c] + Erase(rest)
    ensures Erase([c]) == [c]
  {
    assert ([c] + rest)[1..] == rest;
    assert [c][1..] == "";
  }

  lemma EraseColoredArg(a: Arg, rest: string)
    requires EndsPart(rest)
    ensures Erase(ColoredArg(a) + rest) == Erase(ArgText(a)) + Erase(rest)
  {
    match ArgColor(a)
    case Some(color) => EraseColored(color, ArgText(a), rest);
    case None => EraseBeforeEsc(ArgText(a), rest);
  }

  function Separator(): string {
    Colored(PUNCTUATION, ",") + " "
  }

  lemma EraseSeparator(rest: string)
    ensures Erase(Separator() + rest) == ", " + Erase(rest)
  {
    assert Separator() + rest == Colored(PUNCTUATION, ",") + ([' '] + rest);
    EraseColored(PUNCTUATION, ",", [' '] + rest);
    ErasePlain(',', "");
    ErasePlain(' ', rest);
  }

  lemma JoinCons(parts: seq<string>, sep: string, rest: string)
    requires |parts| > 1
    ensures Join(parts, sep) + rest == parts[0] + (sep + (Join(parts[1..], sep) + rest))
  {
  }

  function ErasedTexts(args: seq<Arg>): seq<string> {
    Map((a: Arg) => Erase(ArgText(a)), args)
  }

  lemma {:induction false} EraseColoredArgs(args: seq<Arg>, rest: string)
    requires EndsPart(rest)
    ensures Erase(ColoredArgs(args) + rest) == Join(ErasedTexts(args), ", ") + Erase(rest)
  {
    if args == [] {
      assert ColoredArgs(args) + rest == rest;
    } else if |args| == 1 {
      EraseColoredArg(args[0], rest);
    } else {
      var colored, erased := Map(ColoredArg, args), ErasedTexts(args);
      assert colored[1..] == Map(ColoredArg, args[1..]) && erased[1..] == ErasedTexts(args[1..]);
      var after := ColoredArgs(args[1..]) + rest;
      JoinCons(colored, Separator(), rest);
      EraseColoredArg(args[0], Separator() + after);
      EraseSeparator(after);
      EraseColoredArgs(args[1..], rest);
      JoinCons(erased, ", ", Erase(rest));
    }
  }

  lemma EraseMark(mark: char, rest: string)
    requires mark != ESC
    ensures Erase(Colored(PUNCTUATION, [mark]) + rest) == [mark] + Erase(rest)
    ensures EndsPart(Colored(PUNCTUATION, [mark]) + rest)
  {
    EraseColored(PUNCTUATION, [mark], rest);
    ErasePlain(mark, "");
  }

  lemma EraseMarkAndSpace(mark: char, rest: string)
    requires mark != ESC
    ensures Erase(Colored(PUNCTUATION, [mark]) + ([' '] + rest)) == [mark, ' '] + Erase(rest)
    ensures EndsPart(Colored(PUNCTUATION, [mark]) + ([' '] + rest))
  {
    EraseMark(mark, [' '] + rest);
    ErasePlain(' ', rest);
  }

  lemma EraseReturn(r: ReturnValue)
    ensures Erase(Colored(ReturnColor(r), ReturnText(r))) == Erase(ReturnText(r))
  {
    EraseColored(ReturnColor(r), ReturnText(r), "");
    assert Colored(ReturnColor(r), ReturnText(r)) + "" == Colored(ReturnColor(r), ReturnText(r));
  }

  function ClosePart(ret: string): string {
    Colored(PUNCTUATION, [')']) + ([' '] + (Colored(PUNCTUATION, ['=']) + ([' '] + ret)))
  }

  lemma EraseClosePart(ret: string)
    ensures Erase(ClosePart(ret)) == ") = " + Erase(ret)
    ensures EndsPart(ClosePart(ret))
  {
    EraseMarkAndSpace('=', ret);
    EraseMarkAndSpace(')', Colored(PUNCTUATION, ['=']) + ([' '] + ret));
    assert [')', ' '] + (['=', ' '] + Erase(ret)) == ") = " + Erase(ret);
  }

  /** The pieces of a coloured line, erased one by one. */
  lemma EraseLine(name: string, args: seq<Arg>, tail: string, plainTail: string)
    requires EndsPart(tail) && Erase(tail) == plainTail
    ensures Erase(Colored(SYSCALL, name) + (Colored(PUNCTUATION, ['(']) + (ColoredArgs(args) + tail))) ==
            Erase(name) + (['('] + (Join(ErasedTexts(args), ", ") + plainTail))
  {
    var afterParen := ColoredArgs(args) + tail;
    EraseColored(SYSCALL, name, Colored(PUNCTUATION, ['(']) + afterParen);
    EraseMark('(', afterParen);
    EraseColoredArgs(args, tail);
  }

  /** Removing the colours from the coloured line leaves the plain line with every part cleaned of the
      colour sequences it held itself. */
  lemma EraseColorLine(e: Event)
    ensures Erase(ColorLine(e)) ==
            Assemble(Erase(e.name), ErasedTexts(Shown(e.args)), Erase(ReturnText(e.returnValue)))
  {
    var ret := Colored(ReturnColor(e.returnValue), ReturnText(e.returnValue));
    EraseReturn(e.returnValue);
    EraseClosePart(ret);
    EraseLine(e.name, Shown(e.args), ClosePart(ret), ") = " + Erase(ReturnText(e.returnValue)));
    Regroup(Colored(SYSCALL, e.name), Colored(PUNCTUATION, "("), ColoredArgs(Shown(e.args)),
            Colored(PUNCTUATION, ")"), Colored(PUNCTUATION, "="), ret);
    Reassemble(Erase(e.name), ErasedTexts(Shown(e.args)), Erase(ReturnText(e.returnValue)));
  }

  lemma Regroup(name: string, open: string, args: string, close: string, equals: string, ret: string)
    ensures name + open + args + close + " " + equals + " " + ret ==
            name + (open + (args + (close + ([' '] + (equals + ([' '] + ret))))))
  {
  }

  lemma Reassemble(name: string, args: seq<string>, ret: string)
    ensures name + (['('] + (Join(args, ", ") + (") = " + ret))) == Assemble(name, args, ret)
  {
  }

  // ---------------------------------------------------------------------------------------------
  // When the erased line is the plain line
  // ---------------------------------------------------------------------------------------------

  /** No shown part holds a colour sequence of its own. */
  predicate PartsAreColorless(e: Event) {
    && Erase(e.name) == e.name
    && (forall i | 0 <= i < |ArgTexts(e)| :: Erase(ArgTexts(e)[i]) == ArgTexts(e)[i])
    && Erase(ReturnText(e.returnValue)) == ReturnText(e.returnValue)
  }

  lemma {:induction false} JoinShrinks(a: seq<string>, b: seq<string>, sep: string)
    requires |a| == |b|
    requires forall i | 0 <= i < |a| :: a[i] == b[i] || |a[i]| < |b[i]|
    ensures |Join(a, sep)| < |Join(b, sep)| || a == b
  {
    if |a| > 1 {
      JoinShrinks(a[1..], b[1..], sep);
      if a[0] == b[0] && a[1..] == b[1..] {
        assert a == [a[0]] + a[1..] && b == [b[0]] + b[1..];
      }
    }
  }

  /** The coloured line erases to the plain one exactly when no part carries colours of its own. */
  lemma ColorErasure(e: Event)
    ensures Erase(ColorLine(e)) == TextLine(e) <==> PartsAreColorless(e)
  {
    EraseColorLine(e);
    var erased, texts := ErasedTexts(Shown(e.args)), ArgTexts(e);
    assert forall i | 0 <= i < |texts| :: erased[i] == Erase(texts[i]);
    JoinShrinks(erased, texts, ", ");
    var ret := ReturnText(e.returnValue);
    if PartsAreColorless(e) {
      assert erased == texts;
    } else {
      assert erased == texts ==> Erase(e.name) != e.name || Erase(ret) != ret;
      assert |Erase(ColorLine(e))| < |TextLine(e)|;
    }
  }

  // ---------------------------------------------------------------------------------------------
  // Which arguments can carry an escape character at all
  // ---------------------------------------------------------------------------------------------

  predicate Clean(s: string) {
    ESC !in s
  }

  predicate CleanOption(s: Option<string>) {
    s.Some? ==> Clean(s.value)
  }

  /** Only texts taken from the traced process or from a table can hold one; numbers, pointers and
      quoted buffers cannot. */
  predicate CleanArg(a: Arg) {
    match a
    case StringArg(s) => Clean(s)
    case StringArrayArg(strings) => forall i | 0 <= i < |strings| :: Clean(strings[i])
    case IntArg(_, symbolic) => CleanOption(symbolic)
    case FlagsArg(_, names) => CleanOption(names)
    case StructArg(fields) => forall i | 0 <= i < |fields| :: Clean(fields[i].name)
    case _ => true
  }

  lemma {:induction false} CleanErase(s: string)
    requires Clean(s)
    ensures Erase(s) == s
  {
    if s != "" {
      CleanErase(s[1..]);
      assert s == [s[0]] + s[1..];
    }
  }

  lemma {:induction false} CleanJoin(parts: seq<string>, sep: string)
    requires Clean(sep) && forall i | 0 <= i < |parts| :: Clean(parts[i])
    ensures Clean(Join(parts, sep))
  {
    if |parts| > 1 {
      CleanJoin(parts[1..], sep);
    }
  }

  lemma {:induction false} CleanEscape(s: string)
    requires Clean(s)
    ensures Clean(EscapeOnce(s))
  {
    if s != "" {
      CleanEscape(s[1..]);
    }
  }

  lemma CleanQuoted(s: string)
    requires Clean(s)
    ensures Clean(Quoted(s))
  {
    EscapeIsOnePass(s);
    CleanEscape(s);
  }

  lemma CleanArgText(a: Arg)
    requires CleanArg(a)
    ensures Clean(ArgText(a))
  {
    match a
    case StringArg(s) => CleanQuoted(s);
    case BufferArg(data, _) => QuoteIsClean(data);
    case StringArrayArg(strings) =>
      forall i | 0 <= i < |strings| ensures Clean(Map(Quoted, strings)[i]) {
        CleanQuoted(strings[i]);
      }
      CleanJoin(Map(Quoted, strings), ", ");
    case StructArg(fields) =>
      CleanJoin(Map(FieldText, fields), ", ");
    case _ =>
  }

  lemma QuoteIsClean(data: seq<byte>)
    ensures Clean("\"" + Quote(data, MAX_DISPLAY) + "\"")
  {
    QuoteIsPrintable(data, MAX_DISPLAY);
  }

  /** An event whose strings hold no escape character erases to its plain line. */
  lemma CleanEventErases(e: Event)
    requires Clean(e.name) && (forall i | 0 <= i < |e.args| :: CleanArg(e.args[i]))
    requires e.returnValue.Message? ==> Clean(e.returnValue.message)
    ensures Erase(ColorLine(e)) == TextLine(e)
  {
    CleanErase(e.name);
    CleanErase(ReturnText(e.returnValue));
    forall i | 0 <= i < |ArgTexts(e)| ensures Erase(ArgTexts(e)[i]) == ArgTexts(e)[i] {
      assert Shown(e.args)[i] in Shown(e.args);
      CleanArgText(Shown(e.args)[i]);
      CleanErase(ArgTexts(e)[i]);
    }
    ColorErasure(e);
  }
}
