/** `args.py`: decoded arguments and their text. */
module Args {
  import opened Prelude
  import opened Text
  import opened StringQuote

  datatype Field = Field(name: string, value: int)

  datatype Arg =
    | IntArg(value: int, symbolic: Option<string>)
    | UnsignedArg(unsigned: int)
    | PointerArg(address: int)
    | StringArg(text: string)
    | FileDescriptorArg(fd: int)
    | FlagsArg(flags: int, names: Option<string>)
    | StructArg(fields: seq<Field>)
    | BufferArg(data: seq<byte>, at: int)
    | StringArrayArg(strings: seq<string>)
    | UnknownArg
    | SkipArg

  const MAX_DISPLAY := 32

  /** `s.replace(c, replacement)` for a single character. */
  function Replace(s: string, c: char, replacement: string): string {
    if s == "" then "" else (if s[0] == c then replacement else [s[0]]) + Replace(s[1..], c, replacement)
  }

  /** The two chained replacements of `StringArg.__str__`. */
  function Escape(s: string): string {
    Replace(Replace(s, '\\', "\\\\"), '"', "\\\"")
  }

  function Quoted(s: string): string {
    "\"" + Escape(s) + "\""
  }

  function StringArrayText(strings: seq<string>): string {
    if strings == [] then "[]" else "[" + Join(Map(Quoted, strings), ", ") + "]"
  }

  /** `StringArrayArg.__str__` */
  method FormatStringArray(strings: seq<string>) returns (text: string)
    ensures text == StringArrayText(strings)
  {
    if strings == [] {
      return "[]";
    }
    var escapedStrs := [];
    for i := 0 to |strings|
      invariant escapedStrs == Map(Quoted, strings[..i])
    {
      var escaped := Replace(Replace(strings[i], '\\', "\\\\"), '"', "\\\"");
      escapedStrs := escapedStrs + ["\"" + escaped + "\""];
    }
    assert strings[..|strings|] == strings;
    text := "[" + Join(escapedStrs, ", ") + "]";
  }

  function FieldText(f: Field): string {
    f.name + "=" + Decimal(f.value)
  }

  function OrElse(symbolic: Option<string>, otherwise: string): string {
    if symbolic.Some? && symbolic.value != "" then symbolic.value else otherwise
  }

  /** `str(arg)` */
  function ArgText(arg: Arg): string {
    match arg
    case IntArg(value, symbolic) => OrElse(symbolic, Decimal(value))
    case UnsignedArg(value) => Decimal(value)
    case PointerArg(address) => HexLiteral(address)
    case StringArg(s) => Quoted(s)
    case FileDescriptorArg(fd) => Decimal(fd)
    case FlagsArg(value, names) => OrElse(names, HexLiteral(value))
    case StructArg(fields) => "{" + Join(Map(FieldText, fields), ", ") + "}"
    case BufferArg(data, _) => "\"" + Quote(data, MAX_DISPLAY) + "\""
    case StringArrayArg(strings) => StringArrayText(strings)
    case UnknownArg => "?"
    case SkipArg => ""
  }

  /** `f"0x{n:x}"`, which puts the sign of a negative number after the prefix. */
  function HexLiteral(n: int): string {
    if n < 0 then "0x-" + Digits(-n, 16) else "0x" + Digits(n, 16)
  }

  /** The text is the number in hexadecimal. */
  predicate IsHexOf(n: int, text: string) {
    |text| > 2 && text[0] == '0' && text[1] == 'x' && ParseNumber(text) == Some(n)
  }

  lemma HexShows(n: nat)
    ensures IsHexOf(n, HexLiteral(n))
  {
    HexLiteralRoundTrip(n);
    assert ("0x" + Digits(n, 16))[0] == '0' && ("0x" + Digits(n, 16))[1] == 'x';
  }

  // ---------------------------------------------------------------------------------------------
  // Reading strings back
  // ---------------------------------------------------------------------------------------------

  /** One pass that puts a backslash before every backslash and quote. */
  function EscapeOnce(s: string): string {
    if s == "" then "" else EscapeChar(s[0]) + EscapeOnce(s[1..])
  }

  function EscapeChar(c: char): string {
    if c == '\\' || c == '"' then ['\\', c] else [c]
  }

  lemma {:induction false} ReplaceAppend(a: string, b: string, c: char, replacement: string)
    ensures Replace(a + b, c, replacement) == Replace(a, c, replacement) + Replace(b, c, replacement)
  {
    if a == "" {
      assert a + b == b;
    } else {
      assert (a + b)[1..] == a[1..] + b;
      ReplaceAppend(a[1..], b, c, replacement);
    }
  }

  lemma ReplaceOne(c: char, d: char, replacement: string)
    ensures Replace([d], c, replacement) == if d == c then replacement else [d]
  {
    assert [d][1..] == "";
    assert Replace([d][1..], c, replacement) == "";
  }

  lemma ReplaceQuoteInPair()
    ensures Replace("\\\\", '"', "\\\"") == "\\\\"
  {
    ReplaceOne('"', '\\', "\\\"");
    ReplaceAppend("\\", "\\", '"', "\\\"");
    assert "\\\\" == "\\" + "\\";
  }

  /** Escaping backslashes first and quotes second equals the single pass: no backslash that the
      second replacement adds is escaped again. */
  lemma {:induction false} EscapeIsOnePass(s: string)
    ensures Escape(s) == EscapeOnce(s)
  {
    if s != "" {
      var head := if s[0] == '\\' then "\\\\" else [s[0]];
      var tail := Replace(s[1..], '\\', "\\\\");
      ReplaceAppend(head, tail, '"', "\\\"");
      EscapeIsOnePass(s[1..]);
      if s[0] == '\\' {
        ReplaceQuoteInPair();
      } else {
        ReplaceOne('"', s[0], "\\\"");
      }
    }
  }

  datatype Read = Read(content: string, rest: string)

  /** Read up to the closing quote, dropping the backslash of each escape. */
  function ReadToQuote(s: string): (r: Option<Read>)
    ensures r.Some? ==> |r.value.rest| < |s|
  {
    if s == "" then None
    else if s[0] == '"' then Some(Read("", s[1..]))
    else if s[0] == '\\' then
      if |s| == 1 then None else Push(s[1], ReadToQuote(s[2..]))
    else
      Push(s[0], ReadToQuote(s[1..]))
  }

  function Push(c: char, r: Option<Read>): Option<Read> {
    if r.Some? then Some(Read([c] + r.value.content, r.value.rest)) else None
  }

  lemma {:induction false} ReadEscaped(s: string, rest: string)
    ensures ReadToQuote(EscapeOnce(s) + "\"" + rest) == Some(Read(s, rest))
  {
    if s == "" {
      assert EscapeOnce(s) + "\"" + rest == "\"" + rest;
      assert ("\"" + rest)[1..] == rest;
    } else {
      var inner := EscapeOnce(s[1..]) + "\"" + rest;
      ReadEscaped(s[1..], rest);
      ReadOne(s[0], inner, Read(s[1..], rest));
      assert EscapeOnce(s) + "\"" + rest == EscapeChar(s[0]) + inner;
      assert s == [s[0]] + s[1..];
    }
  }

  lemma ReadOne(c: char, inner: string, r: Read)
    requires ReadToQuote(inner) == Some(r)
    ensures ReadToQuote(EscapeChar(c) + inner) == Some(Read([c] + r.content, r.rest))
  {
    if c == '\\' || c == '"' {
      assert (['\\', c] + inner)[2..] == inner;
    } else {
      assert ([c] + inner)[1..] == inner;
    }
  }

  /** Read `"a", "b", ...]`. */
  function ReadItems(s: string): Option<seq<string>>
    decreases |s|
  {
    if s == "" || s[0] != '"' then None
    else
      var r := ReadToQuote(s[1..]);
      if r.None? then None
      else if r.value.rest == "]" then Some([r.value.content])
      else if ", " <= r.value.rest then
        var more := ReadItems(r.value.rest[2..]);
        if more.Some? then Some([r.value.content] + more.value) else None
      else None
  }

  function ReadArray(text: string): Option<seq<string>> {
    if text == "[]" then Some([])
    else if text != "" && text[0] == '[' then ReadItems(text[1..])
    else None
  }

  lemma ReadQuoted(s: string, rest: string)
    ensures Quoted(s) + rest != "" && (Quoted(s) + rest)[0] == '"'
    ensures ReadToQuote((Quoted(s) + rest)[1..]) == Some(Read(s, rest))
  {
    EscapeIsOnePass(s);
    ReadEscaped(s, rest);
    assert (Quoted(s) + rest)[1..] == EscapeOnce(s) + "\"" + rest;
  }

  lemma ReadLast(s: string)
    ensures ReadItems(Quoted(s) + "]") == Some([s])
  {
    ReadQuoted(s, "]");
  }

  lemma ReadFirst(s: string, text: string, rest: seq<string>)
    requires ReadItems(text) == Some(rest)
    ensures ReadItems(Quoted(s) + (", " + text)) == Some([s] + rest)
  {
    var after := ", " + text;
    ReadQuoted(s, after);
    assert after[2..] == text && after[0] == ',' && ", " <= after;
  }

  /** The text after the opening bracket. */
  function Items(strings: seq<string>): string {
    Join(Map(Quoted, strings), ", ") + "]"
  }

  lemma ItemsCons(strings: seq<string>)
    requires |strings| > 1
    ensures Items(strings) == Quoted(strings[0]) + (", " + Items(strings[1..]))
  {
    assert Map(Quoted, strings)[1..] == Map(Quoted, strings[1..]);
  }

  lemma ItemsOne(s: string)
    ensures Items([s]) == Quoted(s) + "]"
  {
  }

  lemma {:induction false} ReadJoined(strings: seq<string>)
    requires strings != []
    ensures ReadItems(Items(strings)) == Some(strings)
  {
    if |strings| == 1 {
      ItemsOne(strings[0]);
      ReadLast(strings[0]);
      assert strings == [strings[0]];
    } else {
      ReadJoined(strings[1..]);
      ReadFirst(strings[0], Items(strings[1..]), strings[1..]);
      ItemsCons(strings);
      assert [strings[0]] + strings[1..] == strings;
    }
  }

  /** Printing any list of strings and reading it back gives the list, whatever the strings hold. */
  lemma StringArrayRoundTrip(strings: seq<string>)
    ensures ReadArray(StringArrayText(strings)) == Some(strings)
  {
    if strings != [] {
      ReadJoined(strings);
      var text := StringArrayText(strings);
      assert text[1..] == Items(strings);
      NotEmptyArray(strings);
    }
  }

  lemma NotEmptyArray(strings: seq<string>)
    requires strings != []
    ensures StringArrayText(strings) != "[]"
  {
    var items := Map(Quoted, strings);
    assert items[0] == Quoted(strings[0]);
    assert Join(items, ", ")[0] == '"';
    assert StringArrayText(strings)[1] == '"';
  }
}
