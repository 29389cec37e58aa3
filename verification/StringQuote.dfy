/** `string_quote.py`: C-style quoting of buffer contents, and the reader that undoes it. */
module StringQuote {
  import opened Prelude

  const QUOTE: byte := 34
  const BACKSLASH: byte := 92

  /** The character after the backslash, for the bytes of `_ESCAPE_MAP`. */
  function SpecialEscape(b: byte): Option<char> {
    if b == QUOTE then Some('"')
    else if b == BACKSLASH then Some('\\')
    else if b == 9 then Some('t')
    else if b == 10 then Some('n')
    else if b == 13 then Some('r')
    else if b == 11 then Some('v')
    else if b == 12 then Some('f')
    else None
  }

  predicate IsPrintable(c: int) {
    0x20 <= c < 0x7F
  }

  /** The bytes of the characters '0' to '7'. */
  predicate IsOctalByte(b: int) {
    48 <= b <= 55
  }

  predicate IsOctal(c: char) {
    '0' <= c <= '7'
  }

  function OctalDigit(d: nat): (c: char)
    requires d < 8
    ensures IsOctal(c) && OctalValue(c) == d
  {
    (d + 48) as char
  }

  function OctalValue(c: char): (d: nat)
    requires IsOctal(c)
    ensures d < 8
  {
    c as int - 48
  }

  /** `f"{b:03o}"` */
  function PaddedOctal(b: byte): string {
    [OctalDigit(b / 64), OctalDigit(b / 8 % 8), OctalDigit(b % 8)]
  }

  /** `f"{b:o}"` */
  function MinimalOctal(b: byte): string {
    if b < 8 then [OctalDigit(b)]
    else if b < 64 then [OctalDigit(b / 8), OctalDigit(b % 8)]
    else PaddedOctal(b)
  }

  function EscapeByte(b: byte, next: Option<byte>): string {
    if SpecialEscape(b).Some? then ['\\', SpecialEscape(b).value]
    else if IsPrintable(b) then [b as char]
    else if next.Some? && IsOctalByte(next.value) then "\\" + PaddedOctal(b)
    else "\\" + MinimalOctal(b)
  }

  /** How long an escape is: one of a letter has two characters, a printable byte stands for itself, and an
      octal escape takes no more digits than needed, unless the next byte looks like one. */
  lemma EscapeLength(b: byte, next: Option<byte>)
    ensures var n := |EscapeByte(b, next)|;
            if b in {9, 10, 11, 12, 13, 34, 92} then n == 2
            else if 32 <= b <= 126 then EscapeByte(b, next) == [b as char]
            else n == if b >= 64 || (next.Some? && 48 <= next.value <= 55) then 4 else if b >= 8 then 3 else 2
  {
  }

  function First(data: seq<byte>): Option<byte> {
    if data == [] then None else Some(data[0])
  }

  /** The escaped bytes, each with its successor as lookahead. */
  function Body(data: seq<byte>): string {
    if data == [] then "" else EscapeByte(data[0], First(data[1..])) + Body(data[1..])
  }

  /** `data[:n]`, where a negative `n` counts from the end. */
  function SliceTo(data: seq<byte>, n: int): (r: seq<byte>)
    ensures r <= data
    ensures 0 <= n <= |data| ==> |r| == n
    ensures n > |data| ==> r == data
    ensures n < 0 ==> |r| == if |data| + n < 0 then 0 else |data| + n
  {
    if n > |data| then data
    else if n >= 0 then data[..n]
    else if |data| + n >= 0 then data[..|data| + n]
    else []
  }

  function Quote(data: seq<byte>, maxLength: int): string {
    if data == [] then ""
    else Body(SliceTo(data, maxLength)) + if |data| > maxLength then "..." else ""
  }

  /** The loop of `quote_string`. */
  method QuoteString(data: seq<byte>, maxLength: int) returns (text: string)
    ensures text == Quote(data, maxLength)
  {
    if data == [] {
      return "";
    }
    var displayData := SliceTo(data, maxLength);
    var suffix := if |data| > maxLength then "..." else "";
    var result := "";
    for i := 0 to |displayData|
      invariant result + Body(displayData[i..]) == Body(displayData)
    {
      var nextByte := if i + 1 < |displayData| then Some(displayData[i + 1]) else None;
      assert displayData[i..][1..] == displayData[i + 1..];
      result := result + EscapeByte(displayData[i], nextByte);
    }
    text := result + suffix;
  }

  // ---------------------------------------------------------------------------------------------
  // Reading the text back
  // ---------------------------------------------------------------------------------------------

  function SpecialByte(c: char): Option<byte> {
    if c == '"' then Some(QUOTE)
    else if c == '\\' then Some(BACKSLASH)
    else if c == 't' then Some(9)
    else if c == 'n' then Some(10)
    else if c == 'r' then Some(13)
    else if c == 'v' then Some(11)
    else if c == 'f' then Some(12)
    else None
  }

  /** How many octal digits a C reader takes: as many as there are, at most three. */
  function OctalRun(s: string): (n: nat)
    ensures n <= 3 && n <= |s|
  {
    if |s| == 0 || !IsOctal(s[0]) then 0
    else if |s| == 1 || !IsOctal(s[1]) then 1
    else if |s| == 2 || !IsOctal(s[2]) then 2
    else 3
  }

  function OctalNumber(s: string): nat
    requires forall c | c in s :: IsOctal(c)
  {
    if s == "" then 0 else 8 * OctalNumber(s[..|s| - 1]) + OctalValue(s[|s| - 1])
  }

  /** A C-style unescaper. */
  function Unescape(s: string): Option<seq<byte>> {
    if s == "" then Some([])
    else if s[0] != '\\' then
      if s[0] as int < 256 then Prepend(s[0] as int, Unescape(s[1..])) else None
    else
      var n := OctalRun(s[1..]);
      if n > 0 then
        var b := OctalNumber(s[1..1 + n]);
        if b < 256 then Prepend(b, Unescape(s[1 + n..])) else None
      else if |s| > 1 && SpecialByte(s[1]).Some? then
        Prepend(SpecialByte(s[1]).value, Unescape(s[2..]))
      else
        None
  }

  function Prepend(b: byte, rest: Option<seq<byte>>): Option<seq<byte>> {
    if rest.Some? then Some([b] + rest.value) else None
  }

  predicate StartsOctal(s: string) {
    s != "" && IsOctal(s[0])
  }

  /** The lookahead is right: the text that follows an escape starts with an octal digit exactly
      when the raw next byte is one. */
  lemma BodyStartsOctal(data: seq<byte>, tail: string)
    requires !StartsOctal(tail)
    ensures StartsOctal(Body(data) + tail) <==> data != [] && IsOctalByte(data[0])
  {
    if data == [] {
      assert Body(data) + tail == tail;
    }
  }

  lemma NumberOfOctal(b: byte)
    ensures OctalNumber(PaddedOctal(b)) == b
    ensures OctalNumber(MinimalOctal(b)) == b
  {
    NumberOfPadded(b);
    if b < 8 {
      OctalOne(OctalDigit(b));
    } else if b < 64 {
      OctalTwo(OctalDigit(b / 8), OctalDigit(b % 8));
    }
  }

  lemma OctalTwo(d0: char, d1: char)
    requires IsOctal(d0) && IsOctal(d1)
    ensures forall c | c in [d0, d1] :: IsOctal(c)
    ensures OctalNumber([d0, d1]) == 8 * OctalValue(d0) + OctalValue(d1)
  {
    OctalOne(d0);
    OctalSnoc([d0], d1);
    assert [d0, d1] == [d0] + [d1];
  }

  lemma NumberOfPadded(b: byte)
    ensures OctalNumber(PaddedOctal(b)) == b
  {
    var d0, d1, d2 := OctalDigit(b / 64), OctalDigit(b / 8 % 8), OctalDigit(b % 8);
    OctalTwo(d0, d1);
    OctalSnoc([d0, d1], d2);
    assert PaddedOctal(b) == [d0, d1] + [d2];
    assert 8 * (8 * (b / 64) + b / 8 % 8) + b % 8 == b;
  }

  lemma OctalOne(d: char)
    requires IsOctal(d)
    ensures OctalNumber([d]) == OctalValue(d)
  {
    assert [d][..0] == "";
  }

  lemma OctalSnoc(s: string, d: char)
    requires IsOctal(d) && forall c | c in s :: IsOctal(c)
    ensures forall c | c in s + [d] :: IsOctal(c)
    ensures OctalNumber(s + [d]) == 8 * OctalNumber(s) + OctalValue(d)
  {
    assert (s + [d])[..|s|] == s;
  }

  /** One octal escape is read back whole when no further digit can be taken. */
  lemma UnescapeOctal(b: byte, digits: string, rest: string)
    requires digits == PaddedOctal(b) || (digits == MinimalOctal(b) && !StartsOctal(rest))
    ensures Unescape("\\" + digits + rest) == Prepend(b, Unescape(rest))
  {
    var s := "\\" + digits + rest;
    NumberOfOctal(b);
    assert s[1..] == digits + rest;
    assert OctalRun(digits + rest) == |digits|;
    assert s[1..1 + |digits|] == digits;
    assert s[1 + |digits|..] == rest;
  }

  lemma UnescapeByte(b: byte, next: Option<byte>, rest: string)
    requires StartsOctal(rest) <==> next.Some? && IsOctalByte(next.value)
    ensures Unescape(EscapeByte(b, next) + rest) == Prepend(b, Unescape(rest))
  {
    var s := EscapeByte(b, next) + rest;
    if SpecialEscape(b).Some? {
      assert s[2..] == rest;
      assert OctalRun(s[1..]) == 0;
    } else if IsPrintable(b) {
      assert s[1..] == rest;
    } else {
      var digits := EscapeByte(b, next)[1..];
      UnescapeOctal(b, digits, rest);
      assert s == "\\" + digits + rest;
    }
  }

  function AppendTo(data: seq<byte>, rest: Option<seq<byte>>): Option<seq<byte>> {
    if rest.Some? then Some(data + rest.value) else None
  }

  lemma PrependAppend(data: seq<byte>, rest: Option<seq<byte>>)
    requires data != []
    ensures Prepend(data[0], AppendTo(data[1..], rest)) == AppendTo(data, rest)
  {
    if rest.Some? {
      assert [data[0]] + (data[1..] + rest.value) == data + rest.value;
    }
  }

  lemma UnescapeStep(b: byte, next: Option<byte>, rest: string, tail: string)
    requires StartsOctal(rest + tail) <==> next.Some? && IsOctalByte(next.value)
    ensures Unescape(EscapeByte(b, next) + rest + tail) == Prepend(b, Unescape(rest + tail))
  {
    var e := EscapeByte(b, next);
    assert e + rest + tail == e + (rest + tail);
    UnescapeByte(b, next, rest + tail);
  }

  lemma {:induction false} UnescapeBody(data: seq<byte>, tail: string)
    requires !StartsOctal(tail)
    ensures Unescape(Body(data) + tail) == AppendTo(data, Unescape(tail))
  {
    if data == [] {
      assert Body(data) + tail == tail;
      assert Unescape(tail).Some? ==> data + Unescape(tail).value == Unescape(tail).value;
    } else {
      BodyStartsOctal(data[1..], tail);
      UnescapeStep(data[0], First(data[1..]), Body(data[1..]), tail);
      UnescapeBody(data[1..], tail);
      PrependAppend(data, Unescape(tail));
    }
  }

  const DOTS: seq<byte> := [46, 46, 46]

  lemma UnescapePlain(c: char, rest: string)
    requires c != '\\' && c as int < 256
    ensures Unescape([c] + rest) == Prepend(c as int, Unescape(rest))
  {
    assert ([c] + rest)[1..] == rest;
  }

  lemma UnescapeDots()
    ensures Unescape("...") == Some(DOTS)
  {
    var none: seq<byte> := [];
    assert Unescape(".") == Some([46]) by {
      UnescapePlain('.', "");
      assert "." == ['.'] + "" && [46] + none == [46];
    }
    assert Unescape("..") == Some([46, 46]) by {
      UnescapePlain('.', ".");
      assert ".." == ['.'] + "." && [46] + [46] == [46, 46];
    }
    UnescapePlain('.', "..");
    assert "..." == ['.'] + ".." && [46] + [46, 46] == DOTS;
  }

  /** Reading a quoted buffer gives the displayed bytes; truncation shows as three dots after them. */
  lemma QuoteRoundTrip(data: seq<byte>, maxLength: int)
    ensures Unescape(Quote(data, maxLength)) ==
            Some(SliceTo(data, maxLength) + if data != [] && |data| > maxLength then DOTS else [])
    ensures |data| <= maxLength ==> Unescape(Quote(data, maxLength)) == Some(data)
  {
    var shown := SliceTo(data, maxLength);
    if data == [] {
      assert shown == [] && shown + [] == [];
    } else if |data| > maxLength {
      UnescapeDots();
      UnescapeBody(shown, "...");
    } else {
      UnescapeBody(shown, "");
      assert Body(shown) + "" == Body(shown);
      assert shown == data && shown + [] == data;
    }
  }

  /** The text tells whether the buffer was cut, and which bytes were shown. */
  lemma QuoteIsUnambiguous(a: seq<byte>, b: seq<byte>, maxLength: nat)
    requires Quote(a, maxLength) == Quote(b, maxLength)
    ensures |a| <= maxLength <==> |b| <= maxLength
    ensures SliceTo(a, maxLength) == SliceTo(b, maxLength)
  {
    QuoteRoundTrip(a, maxLength);
    QuoteRoundTrip(b, maxLength);
    var read := Unescape(Quote(a, maxLength)).value;
    if |a| > maxLength {
      assert SliceTo(a, maxLength) == read[..maxLength];
    }
    if |b| > maxLength {
      assert SliceTo(b, maxLength) == read[..maxLength];
    }
    assert |read| <= maxLength <==> |a| <= maxLength;
  }

  /** The text is safe for a terminal: nothing but printable ASCII. */
  lemma {:induction false} BodyIsPrintable(data: seq<byte>)
    ensures forall c | c in Body(data) :: IsPrintable(c as int)
  {
    if data != [] {
      BodyIsPrintable(data[1..]);
    }
  }

  lemma QuoteIsPrintable(data: seq<byte>, maxLength: int)
    ensures forall c | c in Quote(data, maxLength) :: IsPrintable(c as int)
  {
    BodyIsPrintable(SliceTo(data, maxLength));
  }
}
