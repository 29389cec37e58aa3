/** A reader for the plain line of an event: its name, its arguments kind by kind, and its result. */
module LineReader {
  import opened Prelude
  import opened Args
  import opened Formatters
  import opened MibReader
  import opened Params
  import opened StringQuote
  import opened Text
  import opened Tracer

  // ---------------------------------------------------------------------------------------------
  // Arguments
  // ---------------------------------------------------------------------------------------------

  /** `{name=value, ...}` */
  function ReadField(text: string): Option<Field> {
    var parts := Split(text, '=');
    if |parts| == 2 && ParseNumber(parts[1]).Some? then Some(Field(parts[0], ParseNumber(parts[1]).value)) else None
  }

  predicate FieldsAreRead(fields: seq<Field>, text: string) {
    && |text| >= 2 && text[0] == '{' && text[|text| - 1] == '}'
    && var parts := ReadList(text[1..|text| - 1]);
       |parts| == |fields| && forall i | 0 <= i < |fields| :: ReadField(parts[i]) == Some(fields[i])
  }

  predicate ReadableNames(fields: seq<Field>) {
    forall i | 0 <= i < |fields| :: ',' !in fields[i].name && '=' !in fields[i].name
  }

  /** The text shows this argument: a reader gets the value back, or the symbolic form as it is. */
  ghost predicate Shows(text: string, arg: Arg) {
    match arg
    case IntArg(value, symbolic) =>
      if symbolic.Some? && symbolic.value != "" then text == symbolic.value else ParseNumber(text) == Some(value)
    case UnsignedArg(value) => ParseNumber(text) == Some(value)
    case PointerArg(address) => address >= 0 ==> IsHexOf(address, text)
    case StringArg(s) => text != "" && text[0] == '"' && ReadToQuote(text[1..]) == Some(Read(s, ""))
    case FileDescriptorArg(fd) => ParseNumber(text) == Some(fd)
    case FlagsArg(value, names) =>
      if names.Some? && names.value != "" then text == names.value else value >= 0 ==> IsHexOf(value, text)
    case StructArg(fields) => fields != [] && ReadableNames(fields) ==> FieldsAreRead(fields, text)
    case BufferArg(data, _) =>
      && |text| >= 2 && text[0] == '"' && text[|text| - 1] == '"'
      && Unescape(text[1..|text| - 1]) ==
         Some(if |data| <= 32 then data else data[..32] + [46, 46, 46])
    case StringArrayArg(strings) => ReadArray(text) == Some(strings)
    case UnknownArg => text == "?"
    case SkipArg => text == ""
  }

  lemma FieldIsRead(f: Field)
    requires ',' !in f.name && '=' !in f.name
    ensures ReadField(FieldText(f)) == Some(f) && ',' !in FieldText(f)
  {
    DecimalRoundTrip(f.value);
    DecimalChars(f.value);
    assert FieldText(f) == f.name + ['='] + Decimal(f.value);
    SplitFirst(f.name, '=', Decimal(f.value));
    SplitWhole(Decimal(f.value), '=');
  }

  lemma StructShows(fields: seq<Field>)
    requires fields != [] && ReadableNames(fields)
    ensures FieldsAreRead(fields, ArgText(StructArg(fields)))
  {
    var texts := Map(FieldText, fields);
    forall i | 0 <= i < |fields| ensures ReadField(texts[i]) == Some(fields[i]) && ',' !in texts[i] {
      FieldIsRead(fields[i]);
    }
    ReadListOfJoin(texts);
    InBraces(Join(texts, ", "));
  }

  lemma InBraces(inner: string)
    ensures var text := "{" + inner + "}";
            |text| >= 2 && text[0] == '{' && text[|text| - 1] == '}' && text[1..|text| - 1] == inner
  {
  }

  lemma StringShows(s: string)
    ensures Shows(Quoted(s), StringArg(s))
  {
    ReadQuoted(s, "");
    assert Quoted(s) + "" == Quoted(s);
  }

  lemma BufferShows(data: seq<byte>, at: int)
    ensures Shows(ArgText(BufferArg(data, at)), BufferArg(data, at))
  {
    var text := "\"" + Quote(data, MAX_DISPLAY) + "\"";
    assert text[1..|text| - 1] == Quote(data, MAX_DISPLAY);
    QuoteRoundTrip(data, MAX_DISPLAY);
    assert DOTS == [46, 46, 46];
  }

  /** The text of every argument shows it. */
  lemma ArgShows(arg: Arg)
    ensures Shows(ArgText(arg), arg)
  {
    match arg
    case IntArg(value, _) => DecimalRoundTrip(value);
    case UnsignedArg(value) => DecimalRoundTrip(value);
    case PointerArg(address) => if address >= 0 { HexShows(address); }
    case StringArg(s) => StringShows(s);
    case FileDescriptorArg(fd) => DecimalRoundTrip(fd);
    case FlagsArg(value, _) => if value >= 0 { HexShows(value); }
    case StructArg(fields) => if fields != [] && ReadableNames(fields) { StructShows(fields); }
    case BufferArg(data, at) => BufferShows(data, at);
    case StringArrayArg(strings) => StringArrayRoundTrip(strings);
    case UnknownArg =>
    case SkipArg =>
  }

  /** The arguments without the skipped ones. */
  function Kept(args: seq<Arg>): seq<Arg> {
    if args == [] then [] else (if args[0] == SkipArg then [] else [args[0]]) + Kept(args[1..])
  }

  lemma {:induction false} ShownAreKept(args: seq<Arg>)
    ensures Formatters.Shown(args) == Kept(args)
  {
    if args != [] {
      ShownAreKept(args[1..]);
    }
  }

  // ---------------------------------------------------------------------------------------------
  // The line
  // ---------------------------------------------------------------------------------------------

  /** Where the last `) = ` of a text starts. */
  function LastMark(s: string): Option<nat> {
    if |s| < 4 then None
    else if s[|s| - 4..] == ") = " then Some(|s| - 4)
    else LastMark(s[..|s| - 1])
  }

  predicate MarkAt(s: string, i: nat) {
    i + 4 <= |s| && s[i..i + 4] == ") = "
  }

  ghost predicate NoMark(s: string) {
    forall i: nat :: !MarkAt(s, i)
  }

  lemma {:induction false} MarkIsFound(a: string, r: string)
    requires NoMark(r)
    ensures LastMark(a + ") = " + r) == Some(|a|)
  {
    var s := a + ") = " + r;
    if r == "" {
      assert s[|s| - 4..] == ") = ";
    } else {
      TailIsNoMark(a, r);
      var front := r[..|r| - 1];
      assert NoMark(front) by {
        forall i: nat ensures !MarkAt(front, i) {
          assert !MarkAt(r, i);
          assert i + 4 <= |front| ==> front[i..i + 4] == r[i..i + 4];
        }
      }
      MarkIsFound(a, front);
      assert s[..|s| - 1] == a + ") = " + front;
    }
  }

  lemma TailIsNoMark(a: string, r: string)
    requires NoMark(r) && r != ""
    ensures var s := a + ") = " + r; s[|s| - 4..] != ") = "
  {
    var s := a + ") = " + r;
    var tail := s[|s| - 4..];
    if |r| >= 4 {
      assert !MarkAt(r, |r| - 4);
      assert tail == r[|r| - 4..|r| - 4 + 4];
    } else {
      assert tail[0] == (") = " + r)[|r|];
    }
  }

  datatype Line = Line(name: string, args: string, result: string)

  /** `name(args) = result` */
  function ReadLine(text: string): Option<Line> {
    var parts := Split(text, '(');
    if |parts[0]| + 1 > |text| then None
    else
      var rest := text[|parts[0]| + 1..];
      var mark := LastMark(rest);
      if mark.None? || mark.value + 4 > |rest| then None
      else Some(Line(parts[0], rest[..mark.value], rest[mark.value + 4..]))
  }

  lemma RestIsRead(args: string, result: string)
    requires NoMark(result)
    ensures var rest, mark := args + ") = " + result, LastMark(args + ") = " + result);
            mark == Some(|args|) && rest[..|args|] == args && rest[|args| + 4..] == result
  {
    MarkIsFound(args, result);
  }

  lemma NameIsFirst(name: string, rest: string)
    requires '(' !in name
    ensures Split(name + "(" + rest, '(')[0] == name && (name + "(" + rest)[|name| + 1..] == rest
  {
    SplitFirst(name, '(', rest);
  }

  lemma AssembledIsRead(name: string, args: string, result: string)
    requires '(' !in name && NoMark(result)
    ensures ReadLine(name + "(" + args + ") = " + result) == Some(Line(name, args, result))
  {
    var rest := args + ") = " + result;
    assert name + "(" + args + ") = " + result == name + "(" + rest;
    NameIsFirst(name, rest);
    RestIsRead(args, result);
  }

  lemma NumberHasNoMark(n: int)
    ensures NoMark(Decimal(n))
  {
    DecimalChars(n);
    var s := Decimal(n);
    forall i: nat ensures !MarkAt(s, i) {
      if i + 4 <= |s| {
        assert s[i..i + 4][0] == s[i] && s[i] in s;
      }
    }
  }

  /** The result of an event: a number, or a text as it is. */
  predicate ShowsResult(text: string, r: ReturnValue) {
    match r
    case Number(n) => ParseNumber(text) == Some(n)
    case Message(s) => text == s
  }

  /** Reading the line gives the name of the event, the texts of its arguments without the skipped ones,
      in order, each showing its argument, and the text of its result. */
  ghost predicate ShowsEvent(text: string, e: Event) {
    var texts, line := Map(ArgText, Kept(e.args)), ReadLine(text);
    && line.Some? && line.value.name == e.name && line.value.args == Join(texts, ", ")
    && ShowsResult(line.value.result, e.returnValue)
    && forall i | 0 <= i < |texts| :: Shows(texts[i], Kept(e.args)[i])
  }

  /** An event whose name and result cannot be taken for the marks of the line. */
  ghost predicate CanBeRead(e: Event) {
    '(' !in e.name && (e.returnValue.Message? ==> NoMark(e.returnValue.message))
  }

  lemma LineIsRead(e: Event)
    requires CanBeRead(e)
    ensures ShowsEvent(TextLine(e), e)
  {
    var texts := Map(ArgText, Kept(e.args));
    ShownAreKept(e.args);
    if e.returnValue.Number? {
      NumberHasNoMark(e.returnValue.number);
      DecimalRoundTrip(e.returnValue.number);
    }
    AssembledIsRead(e.name, Join(texts, ", "), ReturnText(e.returnValue));
    forall i | 0 <= i < |texts| ensures Shows(texts[i], Kept(e.args)[i]) {
      ArgShows(Kept(e.args)[i]);
    }
  }

  /** An event that holds no escape character. */
  predicate HasNoEscape(e: Event) {
    && Clean(e.name) && (forall i | 0 <= i < |e.args| :: CleanArg(e.args[i]))
    && (e.returnValue.Message? ==> Clean(e.returnValue.message))
  }

  lemma CleanLine(e: Event)
    requires HasNoEscape(e)
    ensures Clean(TextLine(e))
  {
    forall i | 0 <= i < |ArgTexts(e)| ensures Clean(ArgTexts(e)[i]) {
      assert Formatters.Shown(e.args)[i] in Formatters.Shown(e.args);
      CleanArgText(Formatters.Shown(e.args)[i]);
    }
    CleanJoin(ArgTexts(e), ", ");
    if e.returnValue.Number? {
      DecimalChars(e.returnValue.number);
    }
  }

  /** Every line of the output shows its event: as it is, or without its colours if the run has colours. */
  lemma OutputIsRead(options: Options, written: seq<Event>, i: nat)
    requires !options.summaryOnly && i < |written| && CanBeRead(written[i]) && HasNoEscape(written[i])
    ensures |Lines(options, written)| == |written|
    ensures var line := Lines(options, written)[i];
            && (options.color <==> !Clean(line))
            && ShowsEvent(if options.color then Erase(line) else line, written[i])
  {
    var e := written[i];
    LineIsRead(e);
    CleanLine(e);
    CleanEventErases(e);
    assert ColorLine(e)[0] == ESC;
  }
}
