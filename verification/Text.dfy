/** Number and list formatting of the printers, with the readers that undo it. */
module Text {
  import opened Prelude

  function DigitChar(d: nat): (c: char)
    requires d < 16
    ensures c != '|' && ' ' < c <= '~'
  {
    "0123456789abcdef"[d]
  }

  function DigitValue(c: char): Option<nat> {
    if '0' <= c <= '9' then Some(c as int - '0' as int)
    else if 'a' <= c <= 'f' then Some(c as int - 'a' as int + 10)
    else None
  }

  lemma DigitValueOfChar(d: nat)
    requires d < 16
    ensures DigitValue(DigitChar(d)) == Some(d)
    ensures d < 10 ==> '0' <= DigitChar(d) <= '9'
    ensures d < 8 ==> '0' <= DigitChar(d) <= '7'
    ensures DigitChar(d) == '0' ==> d == 0
  {
    assert "0123456789"[..] == "0123456789";
    if d == 0 {} else if d == 1 {} else if d == 2 {} else if d == 3 {} else if d == 4 {}
    else if d == 5 {} else if d == 6 {} else if d == 7 {} else if d == 8 {} else if d == 9 {} else {}
  }

  /** The digits of `n`, without leading zeros. */
  function Digits(n: nat, base: nat): (s: string)
    requires 2 <= base <= 16
    ensures s != ""
    ensures forall c | c in s :: c != '|' && ' ' < c <= '~'
    decreases n
  {
    if n < base then [DigitChar(n)] else Digits(n / base, base) + [DigitChar(n % base)]
  }

  function ParseDigits(s: string, base: nat): Option<nat>
    requires 2 <= base <= 16
  {
    if s == "" then
      Some(0)
    else
      var front, last := ParseDigits(s[..|s| - 1], base), DigitValue(s[|s| - 1]);
      if front.Some? && last.Some? && last.value < base then Some(front.value * base + last.value) else None
  }

  lemma QuotientAndRemainder(n: nat, base: nat)
    requires base >= 2
    ensures n / base * base + n % base == n
    ensures n % base < base
    ensures n >= base ==> 0 < n / base < n
  {
  }

  lemma {:induction false} ParseSnoc(s: string, d: nat, base: nat)
    requires d < base && 2 <= base <= 16
    ensures var front := ParseDigits(s, base);
            ParseDigits(s + [DigitChar(d)], base) ==
            if front.Some? then Some(front.value * base + d) else None
  {
    DigitValueOfChar(d);
    assert (s + [DigitChar(d)])[..|s|] == s;
  }

  lemma {:induction false} DigitsRoundTrip(n: nat, base: nat)
    requires 2 <= base <= 16
    ensures ParseDigits(Digits(n, base), base) == Some(n)
    decreases n
  {
    if n < base {
      ParseSnoc("", n, base);
      assert "" + [DigitChar(n)] == [DigitChar(n)];
    } else {
      QuotientAndRemainder(n, base);
      DigitsRoundTrip(n / base, base);
      ParseSnoc(Digits(n / base, base), n % base, base);
    }
  }

  lemma {:induction false} FirstDigit(n: nat, base: nat)
    requires 2 <= base <= 16
    ensures base <= 10 ==> '0' <= Digits(n, base)[0] <= '9'
    ensures n > 0 ==> Digits(n, base)[0] != '0'
    decreases n
  {
    if n < base {
      DigitValueOfChar(n);
    } else {
      QuotientAndRemainder(n, base);
      FirstDigit(n / base, base);
    }
  }

  /** `str(n)` */
  function Decimal(n: int): (s: string)
    ensures s != "" && forall c | c in s :: c != '|' && ' ' < c <= '~'
  {
    if n < 0 then "-" + Digits(-n, 10) else Digits(n, 10)
  }

  /** `hex(n)` */
  function Hex(n: int): (s: string)
    ensures s != "" && forall c | c in s :: c != '|' && ' ' < c <= '~'
  {
    if n < 0 then "-0x" + Digits(-n, 16) else "0x" + Digits(n, 16)
  }

  /** A number written as in C: `0x` starts a hexadecimal one, any other leading 0 an octal one. */
  function ParseNumber(s: string): Option<int> {
    if s == "" then None
    else if s[0] == '-' then
      var n := ParseNatural(s[1..]);
      if n.Some? then Some(-n.value) else None
    else
      ParseNatural(s)
  }

  function ParseNatural(s: string): Option<int> {
    if s == "" then None
    else if s[0] == '0' then
      if |s| > 1 && s[1] == 'x' then ParseDigits(s[2..], 16) else ParseDigits(s[1..], 8)
    else ParseDigits(s, 10)
  }

  lemma DecimalRoundTrip(n: int)
    ensures ParseNumber(Decimal(n)) == Some(n)
    ensures Decimal(n)[0] == '-' || '0' <= Decimal(n)[0] <= '9'
  {
    var m := if n < 0 then -n else n;
    DigitsRoundTrip(m, 10);
    FirstDigit(m, 10);
    if n < 0 {
      assert Decimal(n)[1..] == Digits(m, 10);
    } else if n == 0 {
      assert ParseDigits("0"[1..], 8) == Some(0);
    }
  }

  lemma {:induction false} DecimalDigits(n: nat)
    ensures forall c | c in Digits(n, 10) :: '0' <= c <= '9'
    decreases n
  {
    DigitValueOfChar(n % 10);
    if n >= 10 {
      QuotientAndRemainder(n, 10);
      DecimalDigits(n / 10);
    }
  }

  /** A decimal number consists of digits, behind a sign if it is negative. */
  lemma DecimalChars(n: int)
    ensures forall c | c in Decimal(n) :: c == '-' || '0' <= c <= '9'
  {
    DecimalDigits(if n < 0 then -n else n);
  }

  lemma HexLiteralRoundTrip(n: nat)
    ensures ParseNatural("0x" + Digits(n, 16)) == Some(n)
  {
    DigitsRoundTrip(n, 16);
    var literal := "0x" + Digits(n, 16);
    assert literal[2..] == Digits(n, 16);
    assert literal[0] == '0' && literal[1] == 'x';
  }

  lemma HexRoundTrip(n: int)
    ensures ParseNumber(Hex(n)) == Some(n)
    ensures Hex(n)[0] == '-' || Hex(n)[0] == '0'
  {
    var m := if n < 0 then -n else n;
    HexLiteralRoundTrip(m);
    if n < 0 {
      assert Hex(n)[1..] == "0x" + Digits(m, 16);
    }
  }

  lemma OctalRoundTrip(n: nat)
    ensures ParseNumber("0" + Digits(n, 8)) == Some(n)
  {
    DigitsRoundTrip(n, 8);
    var literal := "0" + Digits(n, 8);
    assert literal[1..] == Digits(n, 8);
    assert literal[0] == '0' && literal[1] != 'x' by { FirstDigit(n, 8); }
  }

  /** `sep.join(parts)` */
  function Join(parts: seq<string>, sep: string): string {
    if parts == [] then ""
    else if |parts| == 1 then parts[0]
    else parts[0] + sep + Join(parts[1..], sep)
  }

  /** `text.split(c)` for a separator of one character. */
  function Split(text: string, c: char): (parts: seq<string>)
    ensures parts != []
  {
    if text == "" then [""]
    else
      var rest := Split(text[1..], c);
      if text[0] == c then [""] + rest else [[text[0]] + rest[0]] + rest[1..]
  }

  lemma {:induction false} SplitFirst(a: string, c: char, b: string)
    requires c !in a
    ensures Split(a + [c] + b, c) == [a] + Split(b, c)
  {
    if a == "" {
      assert ([c] + b)[1..] == b;
      assert a + [c] + b == [c] + b;
    } else {
      SplitFirst(a[1..], c, b);
      assert (a + [c] + b)[1..] == a[1..] + [c] + b;
      assert a == [a[0]] + a[1..];
    }
  }

  lemma {:induction false} SplitWhole(a: string, c: char)
    requires c !in a
    ensures Split(a, c) == [a]
  {
    if a != "" {
      SplitWhole(a[1..], c);
      assert a == [a[0]] + a[1..];
    }
  }

  lemma {:induction false} SplitJoin(parts: seq<string>, c: char)
    requires parts != []
    requires forall p | p in parts :: c !in p
    ensures Split(Join(parts, [c]), c) == parts
  {
    assert parts[0] in parts;
    if |parts| == 1 {
      SplitWhole(parts[0], c);
    } else {
      SplitFirst(parts[0], c, Join(parts[1..], [c]));
      SplitJoin(parts[1..], c);
    }
  }
}
