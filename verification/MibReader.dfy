/** A reader for the text of a MIB, and the round trip through memory and text. */
module MibReader {
  import opened Prelude
  import opened Numbers
  import opened Sysctl
  import opened Text

  // ---------------------------------------------------------------------------------------------
  // Lists with ", " between the elements
  // ---------------------------------------------------------------------------------------------

  /** The elements, the later ones with the space that follows the comma. */
  function Spaced(parts: seq<string>): seq<string> {
    seq(|parts|, i requires 0 <= i < |parts| => if i == 0 then parts[i] else " " + parts[i])
  }

  lemma SplitAfterSpace(s: string)
    ensures Split(" " + s, ',') == [" " + Split(s, ',')[0]] + Split(s, ',')[1..]
  {
    assert (" " + s)[1..] == s;
  }

  lemma {:induction false} SplitCommas(parts: seq<string>)
    requires parts != [] && forall p | p in parts :: ',' !in p
    ensures Split(Join(parts, ", "), ',') == Spaced(parts)
  {
    assert parts[0] in parts;
    if |parts| == 1 {
      SplitWhole(parts[0], ',');
    } else {
      var rest := parts[1..];
      SplitCommas(rest);
      SplitAfterSpace(Join(rest, ", "));
      SplitFirst(parts[0], ',', " " + Join(rest, ", "));
      assert Join(parts, ", ") == parts[0] + [','] + (" " + Join(rest, ", "));
      SpacedCons(parts);
    }
  }

  lemma SpacedCons(parts: seq<string>)
    requires |parts| > 1
    ensures Spaced(parts) == [parts[0]] + ([" " + Spaced(parts[1..])[0]] + Spaced(parts[1..])[1..])
  {
  }

  /** Split at the commas, without the spaces after them. */
  function ReadList(text: string): seq<string> {
    var parts := Split(text, ',');
    seq(|parts|, i requires 0 <= i < |parts| => if i > 0 && parts[i] != "" then parts[i][1..] else parts[i])
  }

  lemma ReadListOfJoin(parts: seq<string>)
    requires parts != [] && forall p | p in parts :: ',' !in p
    ensures ReadList(Join(parts, ", ")) == parts
  {
    SplitCommas(parts);
    forall i | 0 < i < |parts| ensures (" " + parts[i])[1..] == parts[i] {
    }
  }

  // ---------------------------------------------------------------------------------------------
  // Elements
  // ---------------------------------------------------------------------------------------------

  /** Names that a reader can tell from each other, from numbers, and from the separator. */
  ghost predicate NamesCanBeRead(names: map<int, string>) {
    && (forall k, l | k in names && l in names && k != l :: names[k] != names[l])
    && (forall k | k in names :: ',' !in names[k] && ParseNumber(names[k]).None?)
  }

  /** The value that a name of the table stands for, or a number. */
  ghost function ReadName(names: map<int, string>, s: string): Option<int> {
    if k :| k in names && names[k] == s then Some(k) else ParseNumber(s)
  }

  lemma NameIsRead(names: map<int, string>, v: int)
    requires NamesCanBeRead(names)
    ensures ReadName(names, NameOr(names, v)) == Some(v) && ',' !in NameOr(names, v)
  {
    DecimalRoundTrip(v);
    DecimalChars(v);
  }

  /** Element `i`, given the value of the first one: only the second element of CTL_KERN (1) and of
      CTL_HW (6) has names. */
  ghost function ReadElement(tables: Tables, first: int, i: nat, s: string): Option<int> {
    if i == 0 then ReadName(tables.topNames, s)
    else if i == 1 && first == 1 then ReadName(tables.kernNames, s)
    else if i == 1 && first == 6 then ReadName(tables.hwNames, s)
    else ParseNumber(s)
  }

  ghost predicate TablesCanBeRead(tables: Tables) {
    NamesCanBeRead(tables.topNames) && NamesCanBeRead(tables.kernNames) && NamesCanBeRead(tables.hwNames)
  }

  lemma ElementIsRead(tables: Tables, values: seq<int>, i: nat)
    requires TablesCanBeRead(tables) && i < |values|
    ensures ReadElement(tables, values[0], i, ElementText(tables, values, i)) == Some(values[i])
    ensures ',' !in ElementText(tables, values, i)
  {
    NameIsRead(tables.topNames, values[i]);
    NameIsRead(tables.kernNames, values[i]);
    NameIsRead(tables.hwNames, values[i]);
    DecimalRoundTrip(values[i]);
    DecimalChars(values[i]);
  }

  /** The values of the elements, if every one can be read. */
  ghost function ReadElements(tables: Tables, parts: seq<string>): Option<seq<int>>
    requires parts != []
  {
    var first := ReadElement(tables, 0, 0, parts[0]);
    if first.None? then None else ReadFrom(tables, first.value, parts, |parts|)
  }

  /** The first `n` elements. */
  ghost function ReadFrom(tables: Tables, first: int, parts: seq<string>, n: nat): Option<seq<int>>
    requires n <= |parts|
  {
    if n == 0 then Some([])
    else
      var front, last := ReadFrom(tables, first, parts, n - 1), ReadElement(tables, first, n - 1, parts[n - 1]);
      if front.Some? && last.Some? then Some(front.value + [last.value]) else None
  }

  lemma {:induction false} ElementsFrom(tables: Tables, first: int, parts: seq<string>, values: seq<int>, n: nat)
    requires n <= |parts| == |values|
    requires forall i | 0 <= i < n :: ReadElement(tables, first, i, parts[i]) == Some(values[i])
    ensures ReadFrom(tables, first, parts, n) == Some(values[..n])
  {
    if n > 0 {
      ElementsFrom(tables, first, parts, values, n - 1);
      assert values[..n] == values[..n - 1] + [values[n - 1]];
    }
  }

  /** The MIB that a text in brackets stands for. */
  ghost function ReadMibText(tables: Tables, text: string): Option<seq<int>> {
    if |text| < 2 || text[0] != '[' || text[|text| - 1] != ']' then None
    else
      var parts := ReadList(text[1..|text| - 1]);
      if parts == [] then None else ReadElements(tables, parts)
  }

  lemma InBrackets(inner: string)
    ensures var text := "[" + inner + "]";
            |text| >= 2 && text[0] == '[' && text[|text| - 1] == ']' && text[1..|text| - 1] == inner
  {
  }

  lemma TextIsRead(tables: Tables, values: seq<int>)
    requires TablesCanBeRead(tables) && values != []
    ensures ReadMibText(tables, MibText(tables, values)) == Some(values)
  {
    var texts := seq(|values|, i requires 0 <= i < |values| => ElementText(tables, values, i));
    forall i | 0 <= i < |values|
      ensures ReadElement(tables, values[0], i, texts[i]) == Some(values[i]) && ',' !in texts[i]
    {
      ElementIsRead(tables, values, i);
    }
    ReadListOfJoin(texts);
    BracketsAreRead(tables, texts, values);
  }

  lemma BracketsAreRead(tables: Tables, texts: seq<string>, values: seq<int>)
    requires |texts| == |values| > 0 && ReadList(Join(texts, ", ")) == texts
    requires forall i | 0 <= i < |values| :: ReadElement(tables, values[0], i, texts[i]) == Some(values[i])
    ensures ReadMibText(tables, "[" + Join(texts, ", ") + "]") == Some(values)
  {
    InBrackets(Join(texts, ", "));
    ElementsFrom(tables, values[0], texts, values, |values|);
    assert values[..|values|] == values;
    assert ReadElement(tables, 0, 0, texts[0]) == ReadElement(tables, values[0], 0, texts[0]);
  }

  // ---------------------------------------------------------------------------------------------
  // Memory
  // ---------------------------------------------------------------------------------------------

  /** 32-bit integers lie one after another at `ptr`. */
  predicate HoldsInts(mem: Memory, ptr: int, values: seq<int>) {
    forall i | 0 <= i < |values| :: HoldsNumber(mem, ptr + 4 * i, 4, true, values[i])
  }

  lemma HeldInt(mem: Memory, ptr: int, values: seq<int>, i: nat)
    requires HoldsInts(mem, ptr, values) && i < |values|
    ensures IntAt(mem, ptr + i * 4) == Some(values[i])
  {
    assert HoldsNumber(mem, ptr + 4 * i, 4, true, values[i]);
    NumberIsRead(mem, ptr + 4 * i, 4, true, values[i]);
  }

  lemma {:induction false} IntsAreRead(mem: Memory, ptr: int, values: seq<int>, n: nat)
    requires HoldsInts(mem, ptr, values) && n <= |values|
    ensures ReadInts(mem, ptr, n) == values[..n]
  {
    if n > 0 {
      IntsAreRead(mem, ptr, values, n - 1);
      HeldInt(mem, ptr, values, n - 1);
    }
  }

  /** A readable MIB of at most twelve elements comes back from its text, and as its values. */
  lemma MibRoundTrip(tables: Tables, mem: Memory, ptr: int, values: seq<int>)
    requires TablesCanBeRead(tables) && ptr != 0 && 0 < |values| <= 12 && HoldsInts(mem, ptr, values)
    ensures ReadMib(tables, mem, ptr, |values|).values == values
    ensures ReadMibText(tables, ReadMib(tables, mem, ptr, |values|).text) == Some(values)
  {
    IntsAreRead(mem, ptr, values, |values|);
    assert values[..|values|] == values;
    TextIsRead(tables, values);
  }

  /** Every other MIB has no values and says why: there is none, it is too long, or which element is the
      first that cannot be read. */
  lemma MibErrors(tables: Tables, mem: Memory, ptr: int, count: nat, readable: seq<int>)
    requires HoldsInts(mem, ptr, readable) && |readable| < count && !Readable(mem, ptr + 4 * |readable|, 4)
    ensures ReadMib(tables, mem, ptr, count) ==
            MibRead(if ptr == 0 then "NULL"
                    else if count > 12 then "<invalid namelen=" + Decimal(count) + ">"
                    else "[<unreadable " + Decimal(|readable|) + "/" + Decimal(count) + ">]", [])
  {
    IntsAreRead(mem, ptr, readable, |readable|);
    assert readable[..|readable|] == readable;
    ReadIntsStops(mem, ptr, |readable|, count);
  }

  lemma NoMib(tables: Tables, mem: Memory, ptr: int, count: nat)
    requires ptr == 0 || count == 0 || count > 12
    ensures ReadMib(tables, mem, ptr, count) ==
            MibRead(if ptr == 0 || count == 0 then "NULL" else "<invalid namelen=" + Decimal(count) + ">", [])
  {
  }
}
