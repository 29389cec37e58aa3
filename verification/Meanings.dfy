/** What every decoded argument means, stated from the raw arguments and the memory of the call. */
module Meanings {
  import opened Prelude
  import opened Args
  import opened CStrings
  import opened FdSet
  import opened FileSymbols
  import opened FlagTables
  import opened MibReader
  import opened Numbers
  import opened Params
  import opened Sysctl
  import opened Text

  // ---------------------------------------------------------------------------------------------
  // Registers
  // ---------------------------------------------------------------------------------------------

  /** The number that a register holds in two's complement: all 64 bits, or the low 32. */
  predicate Is64(v: int, w: u64) {
    -0x8000_0000_0000_0000 <= v < 0x8000_0000_0000_0000 && v % 0x1_0000_0000_0000_0000 == w
  }

  predicate Is32(v: int, w: u64) {
    -0x8000_0000 <= v < 0x8000_0000 && (w - v) % 0x1_0000_0000 == 0
  }

  predicate MeansConst(ctx: Context, names: map<int, string>, a: Arg) {
    && a.IntArg? && Is32(a.value, ctx.rawValue)
    && (a.symbolic.Some? <==> !ctx.noAbbrev && a.value in names)
    && (a.symbolic.Some? ==> a.symbolic.value == names[a.value])
  }

  predicate IsOctalOf(n: int, text: string) {
    |text| > 1 && text[0] == '0' && text[1] != 'x' && ParseNumber(text) == Some(n)
  }

  /** Symbolic unless negative: the word in hexadecimal on request, else the number in octal. */
  predicate MeansOctal(ctx: Context, a: Arg) {
    && a.IntArg? && Is64(a.value, ctx.rawValue)
    && (a.symbolic.Some? <==> ctx.noAbbrev || a.value >= 0)
    && (a.symbolic.Some? ==>
          if ctx.noAbbrev then IsHexOf(ctx.rawValue, a.symbolic.value) else IsOctalOf(a.value, a.symbolic.value))
  }

  /** Always symbolic: the word in hexadecimal on request, else flags that read back to the word, exactly
      when they are ones that survive. */
  ghost predicate MeansOpenFlags(ctx: Context, a: Arg) {
    && a.IntArg? && Is64(a.value, ctx.rawValue) && a.symbolic.Some?
    && if ctx.noAbbrev then IsHexOf(ctx.rawValue, a.symbolic.value)
       else ParseFlags(O_FLAGS, a.symbolic.value) == Some(ctx.rawValue) <==> OpenIsExact(O_FLAGS, ctx.rawValue)
  }

  lemma OctalShows(n: nat)
    ensures IsOctalOf(n, "0" + Digits(n, 8))
  {
    OctalRoundTrip(n);
    FirstDigit(n, 8);
    assert ("0" + Digits(n, 8))[1] == Digits(n, 8)[0];
  }

  /** Neither flag names nor hexadecimal words are decimal numbers. */
  lemma NotDecimal(table: FlagTable, fs: FlagTable, value: u64, v: int)
    requires PlainNames(table) && PartOf(fs, table)
    ensures JoinOrHex(Names(fs), value) != Decimal(v)
  {
    DecimalChars(v);
    if fs == [] {
      assert 'x' in Hex(ToSigned(value));
    } else {
      assert fs[0] in table;
      var i :| 0 <= i < |table| && table[i] == fs[0];
      assert PlainName(table[i].name);
      assert JoinOrHex(Names(fs), value)[0] == Names(fs)[0][0] == table[i].name[0];
      assert Decimal(v)[0] in Decimal(v);
    }
  }

  lemma OpenTextIsNotDecimal(value: u64, v: int)
    ensures OpenText(value) != Decimal(v)
  {
    OpenPlain();
    DecimalChars(v);
    if value != 0 {
      NotDecimal(O_FLAGS, OpenFlags(O_FLAGS, value), value, v);
    } else {
      assert 'R' in "O_RDONLY";
    }
  }

  lemma OpenMeans(ctx: Context)
    ensures MeansOpenFlags(ctx, DecodeOpen(ctx))
  {
    HexShows(ctx.rawValue);
    OpenRoundTrip(ctx.rawValue);
    OpenTextIsNotDecimal(ctx.rawValue, ToSigned(ctx.rawValue));
  }


  // ---------------------------------------------------------------------------------------------
  // Strings
  // ---------------------------------------------------------------------------------------------

  predicate IsCharsOf(text: string, bytes: seq<byte>) {
    |text| == |bytes| && forall i | 0 <= i < |text| :: text[i] as int == bytes[i]
  }

  /** The text for a string pointer: the string, if its chunks can be read; the address, if not even the
      first one can. */
  ghost predicate ShowsCString(text: string, mem: Memory, addr: int, limit: int) {
    && (addr == 0 ==> text == "NULL")
    && (addr > 0 && !Readable(mem, addr, 256) ==> IsHexOf(addr, text))
    && (addr > 0 && Readable(mem, addr, 256) && ChunksReadable(mem, addr, limit) ==>
          IsCharsOf(text, CString(mem, addr, limit)))
  }

  lemma StringShows(mem: Memory, addr: int, limit: int)
    requires addr >= 0 && limit >= 256
    ensures ShowsCString(ReadString(mem, addr, limit).Text(), mem, addr, limit)
  {
    if addr > 0 {
      HexShows(addr);
      ReadStringRefines(mem, addr, limit);
    }
  }

  /** An array of pointers that ends with a null pointer or where memory ends. */
  predicate HoldsPointerArray(mem: Memory, addr: int, ptrs: seq<int>) {
    && (forall i | 0 <= i < |ptrs| :: ptrs[i] > 0 && HoldsNumber(mem, addr + 8 * i, 8, false, ptrs[i]))
    && var end := addr + 8 * |ptrs|;
       !Readable(mem, end, 8) || HoldsNumber(mem, end, 8, false, 0)
  }

  ghost predicate MeansStrings(mem: Memory, addr: int, max: nat, a: Arg) {
    if addr == 0 then a == PointerArg(0)
    else
      a.StringArrayArg? && forall ptrs | HoldsPointerArray(mem, addr, ptrs) ::
        && |a.strings| == (if |ptrs| < max then |ptrs| else max)
        && forall i | 0 <= i < |a.strings| :: ShowsCString(a.strings[i], mem, ptrs[i], 4096)
  }

  lemma HeldPointer(mem: Memory, addr: int, v: int)
    requires HoldsNumber(mem, addr, 8, false, v)
    ensures PointerAt(mem, addr) == Some(v)
  {
    NumberIsRead(mem, addr, 8, false, v);
  }

  lemma StringsMean(mem: Memory, addr: int, max: nat)
    requires addr != 0
    ensures MeansStrings(mem, addr, max, StringArrayArg(StringsFrom(mem, addr, 0, max)))
  {
    var strings := StringsFrom(mem, addr, 0, max);
    forall ptrs: seq<int> | HoldsPointerArray(mem, addr, ptrs)
      ensures |strings| == (if |ptrs| < max then |ptrs| else max)
      ensures forall i | 0 <= i < |strings| :: ShowsCString(strings[i], mem, ptrs[i], 4096)
    {
      ArrayIsRead(mem, addr, ptrs, max);
    }
  }

  lemma ArrayIsRead(mem: Memory, addr: int, ptrs: seq<int>, max: nat)
    requires HoldsPointerArray(mem, addr, ptrs)
    ensures var strings := StringsFrom(mem, addr, 0, max);
            && |strings| == (if |ptrs| < max then |ptrs| else max)
            && forall i | 0 <= i < |strings| :: ShowsCString(strings[i], mem, ptrs[i], 4096)
  {
    forall i | 0 <= i < |ptrs| ensures PointerAt(mem, addr + i * 8) == Some(ptrs[i]) && ptrs[i] != 0 {
      HeldPointer(mem, addr + 8 * i, ptrs[i]);
    }
    var end := addr + 8 * |ptrs|;
    if HoldsNumber(mem, end, 8, false, 0) {
      HeldPointer(mem, end, 0);
    }
    StringsOfPointers(mem, addr, ptrs, max);
    var strings := StringsFrom(mem, addr, 0, max);
    forall i | 0 <= i < |strings| ensures ShowsCString(strings[i], mem, ptrs[i], 4096) {
      StringShows(mem, ptrs[i], 4096);
    }
  }

  // ---------------------------------------------------------------------------------------------
  // Structs and buffers
  // ---------------------------------------------------------------------------------------------

  /** The members lie one after another, each as a number of its own size and signedness. */
  predicate HoldsStruct(mem: Memory, addr: int, members: seq<Member>, values: seq<int>)
    requires |members| == |values|
    decreases |members|
  {
    members == [] ||
    (&& HoldsNumber(mem, addr, members[0].size, members[0].signed, values[0])
     && HoldsStruct(mem, addr + members[0].size, members[1..], values[1..]))
  }

  /** The members that are shown, under their names. */
  function VisibleFields(members: seq<Member>, values: seq<int>): seq<Field>
    requires |members| == |values|
  {
    if members == [] then []
    else if members[0].excluded then VisibleFields(members[1..], values[1..])
    else [Field(members[0].name, values[0])] + VisibleFields(members[1..], values[1..])
  }

  lemma BlockParts(mem: Memory, addr: int, m: nat, n: nat)
    requires Readable(mem, addr, m) && Readable(mem, addr + m, n)
    ensures Readable(mem, addr, m + n)
    ensures Block(mem, addr, m + n)[..m] == Block(mem, addr, m)
    ensures Block(mem, addr, m + n)[m..] == Block(mem, addr + m, n)
  {
    forall a | addr <= a < addr + (m + n) ensures a in mem {
      if a >= addr + m {
        assert addr + m <= a < addr + m + n;
      }
    }
    var whole := Block(mem, addr, m + n);
    forall i | 0 <= i < n ensures whole[m..][i] == Block(mem, addr + m, n)[i] {
      assert whole[m + i] == mem[addr + (m + i)];
    }
  }

  lemma {:induction false} StructIsRead(mem: Memory, addr: int, members: seq<Member>, values: seq<int>)
    requires |members| == |values| && HoldsStruct(mem, addr, members, values)
    ensures Readable(mem, addr, StructSize(members))
    ensures StructFields(members, Block(mem, addr, StructSize(members))) == VisibleFields(members, values)
    decreases |members|
  {
    if members != [] {
      var m := members[0];
      StructIsRead(mem, addr + m.size, members[1..], values[1..]);
      BlockParts(mem, addr, m.size, StructSize(members[1..]));
      NumberIsRead(mem, addr, m.size, m.signed, values[0]);
    }
  }

  /** In the wrong phase: nothing at exit, the pointer at entry. */
  predicate MeansOtherPhase(ctx: Context, r: Option<Arg>) {
    r == if ctx.atEntry then Some(PointerArg(ctx.rawValue)) else None
  }

  predicate IsPhase(ctx: Context, direction: Direction) {
    ctx.atEntry <==> direction == In
  }

  /** A stored struct is shown member by member, in its own phase; without memory or members to show it is
      the pointer. */
  ghost predicate MeansStruct(ctx: Context, members: seq<Member>, direction: Direction, r: Option<Arg>) {
    if !IsPhase(ctx, direction) then MeansOtherPhase(ctx, r)
    else
      && (ctx.rawValue == 0 || !Readable(ctx.memory, ctx.rawValue, StructSize(members)) ==>
            r == Some(PointerArg(ctx.rawValue)))
      && forall values: seq<int> |
           ctx.rawValue != 0 && |values| == |members| && HoldsStruct(ctx.memory, ctx.rawValue, members, values) ::
           var fields := VisibleFields(members, values);
           r == Some(if StructSize(members) == 0 || fields == [] then PointerArg(ctx.rawValue) else StructArg(fields))
  }

  lemma StructMeans(ctx: Context, members: seq<Member>, direction: Direction)
    ensures MeansStruct(ctx, members, direction, DecodeStruct(ctx, members, direction))
  {
    if IsPhase(ctx, direction) && ctx.rawValue != 0 {
      forall values: seq<int> | |values| == |members| && HoldsStruct(ctx.memory, ctx.rawValue, members, values)
        ensures var fields := VisibleFields(members, values);
                DecodeStruct(ctx, members, direction) ==
                Some(if StructSize(members) == 0 || fields == [] then PointerArg(ctx.rawValue) else StructArg(fields))
      {
        StructIsRead(ctx.memory, ctx.rawValue, members, values);
      }
    }
  }

  /** How many bytes of a buffer are read: the least of its size argument, the cap, and, at exit, the number
      of bytes that the call returned. */
  predicate IsExtent(ctx: Context, sizeArg: nat, n: int)
    requires sizeArg < |ctx.allArgs|
  {
    var size, cap := ctx.allArgs[sizeArg], if ctx.noAbbrev then 65536 else 4096;
    n <= size && n <= cap &&
    match ctx.returnValue
    case Some(Number(k)) =>
      if !ctx.atEntry && k > 0 then n <= k && (n == size || n == cap || n == k) else n == size || n == cap
    case _ => n == size || n == cap
  }

  ghost predicate MeansBuffer(ctx: Context, sizeArg: nat, direction: Direction, r: Option<Arg>) {
    if !IsPhase(ctx, direction) then MeansOtherPhase(ctx, r)
    else if ctx.rawValue == 0 || sizeArg >= |ctx.allArgs| then r == Some(PointerArg(ctx.rawValue))
    else
      forall n | IsExtent(ctx, sizeArg, n) ::
        if n > 0 && Readable(ctx.memory, ctx.rawValue, n) then
          r.Some? && r.value.BufferArg? && r.value.at == ctx.rawValue && |r.value.data| == n
          && forall i | 0 <= i < n :: r.value.data[i] == ctx.memory[ctx.rawValue + i]
        else
          r == Some(PointerArg(ctx.rawValue))
  }

  // ---------------------------------------------------------------------------------------------
  // Descriptor sets and sizes
  // ---------------------------------------------------------------------------------------------

  predicate IsInBrackets(text: string) {
    |text| >= 2 && text[0] == '[' && text[|text| - 1] == ']'
  }

  function Inner(text: string): string
    requires IsInBrackets(text)
  {
    text[1..|text| - 1]
  }

  /** `[3 4 5]` */
  predicate FdsAreRead(fds: seq<nat>, text: string) {
    && IsInBrackets(text)
    && if fds == [] then Inner(text) == ""
       else
         var parts := Split(Inner(text), ' ');
         |parts| == |fds| && forall i | 0 <= i < |fds| :: ParseNumber(parts[i]) == Some(fds[i])
  }

  lemma FdsShow(fds: seq<nat>)
    ensures FdsAreRead(fds, "[" + Join(Map((fd: nat) => Decimal(fd), fds), " ") + "]")
  {
    var parts := Map((fd: nat) => Decimal(fd), fds);
    InBrackets(Join(parts, " "));
    if fds != [] {
      forall i | 0 <= i < |fds| ensures ParseNumber(parts[i]) == Some(fds[i]) && ' ' !in parts[i] {
        DecimalRoundTrip(fds[i]);
      }
      SplitJoin(parts, ' ');
    }
  }

  /** Which descriptors a bitmap of 1024 bits holds, shown at entry only. */
  ghost predicate MeansFdSet(ctx: Context, r: Option<Arg>) {
    if !ctx.atEntry then r == None
    else if ctx.rawValue == 0 || !Readable(ctx.memory, ctx.rawValue, 128) then r == Some(PointerArg(ctx.rawValue))
    else
      r.Some? && r.value.StringArg? && forall fds: seq<nat> | Lists(fds, Block(ctx.memory, ctx.rawValue, 128), 1024) ::
        FdsAreRead(fds, r.value.text)
  }

  lemma FdSetMeans(ctx: Context)
    ensures MeansFdSet(ctx, DecodeFdSet(ctx))
  {
    if ctx.atEntry && ctx.rawValue != 0 && Readable(ctx.memory, ctx.rawValue, 128) {
      var data := Block(ctx.memory, ctx.rawValue, 128);
      FdsBelowLists(data, 1024);
      FdsShow(FdsBelow(data, 1024));
      forall fds: seq<nat> | Lists(fds, data, 1024) ensures fds == FdsBelow(data, 1024) {
        AscendingListsAreEqual(fds, FdsBelow(data, 1024));
      }
    }
  }

  /** The size that a pointer points to, in brackets. */
  ghost predicate MeansSize(ctx: Context, a: Arg) {
    && (ctx.rawValue == 0 || !Readable(ctx.memory, ctx.rawValue, 8) ==> a == PointerArg(ctx.rawValue))
    && forall v | ctx.rawValue != 0 && HoldsNumber(ctx.memory, ctx.rawValue, 8, false, v) ::
         a.StringArg? && IsInBrackets(a.text) && ParseNumber(Inner(a.text)) == Some(v)
  }

  lemma SizeMeans(ctx: Context)
    ensures MeansSize(ctx, DecodeSize(ctx))
  {
    forall v | ctx.rawValue != 0 && HoldsNumber(ctx.memory, ctx.rawValue, 8, false, v)
      ensures var a := DecodeSize(ctx);
              a.StringArg? && IsInBrackets(a.text) && ParseNumber(Inner(a.text)) == Some(v)
    {
      NumberIsRead(ctx.memory, ctx.rawValue, 8, false, v);
      InBrackets(Decimal(v));
      DecimalRoundTrip(v);
    }
  }

  // ---------------------------------------------------------------------------------------------
  // sysctl
  // ---------------------------------------------------------------------------------------------

  ghost predicate MeansNumberAt(mem: Memory, addr: int, size: nat, a: Arg) {
    && (!Readable(mem, addr, size) ==> a == PointerArg(addr))
    && forall v | HoldsNumber(mem, addr, size, true, v) :: a == IntArg(v, None)
  }

  /** A value of a known type: the 32-bit or 64-bit integer, or the string of at most 256 characters, unless
      that starts like an address. */
  ghost predicate MeansTyped(t: SysctlType, mem: Memory, addr: int, a: Arg) {
    match t
    case IntType => MeansNumberAt(mem, addr, 4, a)
    case Int64Type => MeansNumberAt(mem, addr, 8, a)
    case StringType =>
      && (!Readable(mem, addr, 256) ==> a == PointerArg(addr))
      && (Readable(mem, addr, 256) && ChunksReadable(mem, addr, 256) ==>
            forall s | IsCharsOf(s, CString(mem, addr, 256)) ::
              a == if "0x" <= s then PointerArg(addr) else StringArg(s))
  }

  lemma NumberMeans(ctx: Context, size: nat)
    requires size > 0
    ensures MeansNumberAt(ctx.memory, ctx.rawValue, size, DecodeIntAt(ctx, size))
  {
    forall v | HoldsNumber(ctx.memory, ctx.rawValue, size, true, v) ensures DecodeIntAt(ctx, size) == IntArg(v, None) {
      NumberIsRead(ctx.memory, ctx.rawValue, size, true, v);
    }
  }

  lemma SameChars(s: string, t: string, bytes: seq<byte>)
    requires IsCharsOf(s, bytes) && IsCharsOf(t, bytes)
    ensures s == t
  {
    forall i | 0 <= i < |s| ensures s[i] == t[i] {
      assert s[i] as int == t[i] as int;
    }
  }

  lemma TypedMeans(ctx: Context, t: SysctlType)
    requires ctx.rawValue != 0
    ensures MeansTyped(t, ctx.memory, ctx.rawValue, DecodeByType(ctx, Some(t)))
  {
    match t
    case IntType => NumberMeans(ctx, 4);
    case Int64Type => NumberMeans(ctx, 8);
    case StringType =>
      var text := ReadString(ctx.memory, ctx.rawValue, 256).Text();
      StringShows(ctx.memory, ctx.rawValue, 256);
      var bytes := CString(ctx.memory, ctx.rawValue, 256);
      forall s | IsCharsOf(text, bytes) && IsCharsOf(s, bytes) ensures s == text {
        SameChars(s, text, bytes);
      }
  }

  /** The ints of the MIB that this call names, if they can all be read. */
  predicate NamesMib(ctx: Context, values: seq<int>) {
    && |ctx.allArgs| >= 2 && ctx.allArgs[0] != 0 && 0 < |values| <= 12 && ctx.allArgs[1] == |values|
    && HoldsInts(ctx.memory, ctx.allArgs[0], values)
  }

  predicate NamesNoMib(ctx: Context) {
    || |ctx.allArgs| < 2 || ctx.allArgs[0] == 0 || ctx.allArgs[1] == 0 || ctx.allArgs[1] > 12
    || !Readable(ctx.memory, ctx.allArgs[0], 4 * ctx.allArgs[1])
  }

  /** A value whose type the table of the module lists under the key. */
  ghost predicate MeansListed<K>(types: map<K, SysctlType>, listed: bool, key: K, ctx: Context, a: Arg) {
    if listed && key in types then MeansTyped(types[key], ctx.memory, ctx.rawValue, a)
    else a == PointerArg(ctx.rawValue)
  }

  /** The first two elements of a MIB. */
  function FirstTwo(values: seq<int>): (int, int)
    requires values != []
  {
    (values[0], if |values| >= 2 then values[1] else 0)
  }

  /** The result of sysctl is shown at exit, by the type of its first two MIB elements. */
  ghost predicate MeansMibResult(ctx: Context, a: Arg) {
    && (ctx.atEntry || ctx.rawValue == 0 || NamesNoMib(ctx) ==> a == PointerArg(ctx.rawValue))
    && forall values | !ctx.atEntry && ctx.rawValue != 0 && NamesMib(ctx, values) ::
         MeansListed(ctx.tables.mibTypes, |values| >= 2, FirstTwo(values), ctx, a)
  }

  /** The name that this call's own name argument points to, or stands for. */
  ghost predicate NamesString(ctx: Context, name: string) {
    |ctx.allArgs| >= 1 &&
    var ptr := ctx.allArgs[0];
    if ptr == 0 then name == "NULL"
    else
      Readable(ctx.memory, ptr, 256) && ChunksReadable(ctx.memory, ptr, 4096)
      && IsCharsOf(name, CString(ctx.memory, ptr, 4096))
  }

  /** The result of sysctlbyname is shown at exit, by the type of its name. */
  ghost predicate MeansNameResult(ctx: Context, a: Arg) {
    && (ctx.atEntry || ctx.rawValue == 0 || |ctx.allArgs| < 1 ==> a == PointerArg(ctx.rawValue))
    && forall name | !ctx.atEntry && ctx.rawValue != 0 && NamesString(ctx, name) ::
         MeansListed(ctx.tables.nameTypes, name != "", name, ctx, a)
  }

  /** The text of a MIB reads back to its values, or says why there are none. */
  ghost predicate MeansMib(ctx: Context, a: Arg) {
    if ctx.rawValue == 0 || |ctx.allArgs| < 2 then a == PointerArg(ctx.rawValue)
    else
      var count := ctx.allArgs[1];
      && a.StringArg?
      && (count == 0 ==> a.text == "NULL")
      && (count > 12 ==> a.text == "<invalid namelen=" + Decimal(count) + ">")
      && (forall values | 0 < count <= 12 && |values| == count && HoldsInts(ctx.memory, ctx.rawValue, values) ::
            TablesCanBeRead(ctx.tables) ==> ReadMibText(ctx.tables, a.text) == Some(values))
      && forall readable: seq<int> | HoldsInts(ctx.memory, ctx.rawValue, readable) && |readable| < count <= 12
                                     && !Readable(ctx.memory, ctx.rawValue + 4 * |readable|, 4) ::
           a.text == "[<unreadable " + Decimal(|readable|) + "/" + Decimal(count) + ">]"
  }

  lemma MibMeans(ctx: Context)
    requires ctx.rawValue != 0 && |ctx.allArgs| >= 2
    ensures MeansMib(ctx, StringArg(MibOf(ctx).text))
  {
    var count := ctx.allArgs[1];
    forall values | 0 < count <= 12 && |values| == count && HoldsInts(ctx.memory, ctx.rawValue, values)
                    && TablesCanBeRead(ctx.tables)
      ensures ReadMibText(ctx.tables, MibOf(ctx).text) == Some(values)
    {
      MibRoundTrip(ctx.tables, ctx.memory, ctx.rawValue, values);
    }
    forall readable: seq<int> | HoldsInts(ctx.memory, ctx.rawValue, readable) && |readable| < count <= 12
                                && !Readable(ctx.memory, ctx.rawValue + 4 * |readable|, 4)
      ensures MibOf(ctx).text == "[<unreadable " + Decimal(|readable|) + "/" + Decimal(count) + ">]"
    {
      MibErrors(ctx.tables, ctx.memory, ctx.rawValue, count, readable);
    }
  }

  lemma {:induction false} AllReadable(mem: Memory, ptr: int, n: nat)
    requires |ReadInts(mem, ptr, n)| == n
    ensures Readable(mem, ptr, 4 * n)
  {
    if n > 0 {
      AllReadable(mem, ptr, n - 1);
      forall a | ptr <= a < ptr + 4 * n ensures a in mem {
        if a >= ptr + 4 * (n - 1) {
          assert Readable(mem, ptr + (n - 1) * 4, 4);
        }
      }
    }
  }

  lemma NoMibHasNoType(ctx: Context)
    requires NamesNoMib(ctx)
    ensures OwnMibType(ctx) == None
  {
    if |ctx.allArgs| >= 2 && ctx.allArgs[0] != 0 {
      var ptr, count := ctx.allArgs[0], ctx.allArgs[1];
      if |ReadInts(ctx.memory, ptr, count)| == count {
        AllReadable(ctx.memory, ptr, count);
      }
    }
  }

  lemma MibHasItsType(ctx: Context, values: seq<int>)
    requires NamesMib(ctx, values)
    ensures OwnMibType(ctx) == TypeOfMib(ctx.tables, values)
  {
    var ptr := ctx.allArgs[0];
    IntsAreRead(ctx.memory, ptr, values, |values|);
    assert values[..|values|] == values;
  }

  lemma MibResultMeans(ctx: Context)
    ensures MeansMibResult(ctx, DecodeResultBuffer(ctx, OwnMibType(ctx)))
  {
    var a := DecodeResultBuffer(ctx, OwnMibType(ctx));
    if NamesNoMib(ctx) {
      NoMibHasNoType(ctx);
    }
    forall values | !ctx.atEntry && ctx.rawValue != 0 && NamesMib(ctx, values)
      ensures MeansListed(ctx.tables.mibTypes, |values| >= 2, FirstTwo(values), ctx, a)
    {
      MibHasItsType(ctx, values);
      if OwnMibType(ctx).Some? {
        TypedMeans(ctx, OwnMibType(ctx).value);
      }
    }
  }

  lemma NameResultMeans(ctx: Context)
    ensures MeansNameResult(ctx, DecodeResultBuffer(ctx, OwnNameType(ctx)))
  {
    var a := DecodeResultBuffer(ctx, OwnNameType(ctx));
    forall name | !ctx.atEntry && ctx.rawValue != 0 && NamesString(ctx, name)
      ensures MeansListed(ctx.tables.nameTypes, name != "", name, ctx, a)
    {
      var bytes := CString(ctx.memory, ctx.allArgs[0], 4096);
      StringShows(ctx.memory, ctx.allArgs[0], 4096);
      if ctx.allArgs[0] != 0 {
        SameChars(name, ReadString(ctx.memory, ctx.allArgs[0], 4096).Text(), bytes);
      }
      if OwnNameType(ctx).Some? {
        TypedMeans(ctx, OwnNameType(ctx).value);
      }
    }
  }

  // ---------------------------------------------------------------------------------------------
  // Every parameter
  // ---------------------------------------------------------------------------------------------

  ghost predicate MeansText(ctx: Context, r: Option<Arg>) {
    r.Some? && r.value.StringArg? && ShowsCString(r.value.text, ctx.memory, ctx.rawValue, 4096)
  }

  /** What a parameter makes of its raw value in this context, `None` if nothing. */
  ghost predicate Means(p: Param, ctx: Context, r: Option<Arg>)
    decreases p
  {
    match p
    case IntParam => r.Some? && r.value.IntArg? && Is64(r.value.value, ctx.rawValue) && r.value.symbolic.None?
    case UnsignedParam => r == Some(UnsignedArg(ctx.rawValue))
    case PointerParam => r == Some(PointerArg(ctx.rawValue))
    case FileDescriptorParam => r.Some? && r.value.FileDescriptorArg? && Is64(r.value.fd, ctx.rawValue)
    case StringParam => MeansText(ctx, r)
    case ArrayOfStringsParam(max) => r.Some? && MeansStrings(ctx.memory, ctx.rawValue, max, r.value)
    case ConstParam(names) => r.Some? && MeansConst(ctx, names, r.value)
    case OctalParam => r.Some? && MeansOctal(ctx, r.value)
    case OpenFlagsParam => r.Some? && MeansOpenFlags(ctx, r.value)
    case FdSetParam => MeansFdSet(ctx, r)
    case StructParam(members, direction) => MeansStruct(ctx, members, direction, r)
    case BufferParam(sizeArg, direction) => MeansBuffer(ctx, sizeArg, direction, r)
    case VariantParam(disc, variants, otherwise, skipFor, unless) =>
      if disc >= |ctx.allArgs| then r == Some(PointerArg(ctx.rawValue))
      else
        var d := ctx.allArgs[disc];
        if SaysAbsent(d, skipFor, unless) then r == Some(SkipArg)
        else if d in variants then Means(variants[d], ctx, r)
        else if otherwise.Some? then Means(otherwise.value, ctx, r)
        else r == Some(PointerArg(ctx.rawValue))
    case SysctlMibParam => r.Some? && MeansMib(ctx, r.value)
    case SysctlBufferParam => r.Some? && MeansMibResult(ctx, r.value)
    case SysctlBynameNameParam => MeansText(ctx, r)
    case SysctlBynameBufferParam => r.Some? && MeansNameResult(ctx, r.value)
    case SysctlSizePointerParam => r.Some? && MeansSize(ctx, r.value)
  }

  lemma BufferMeans(ctx: Context, sizeArg: nat, direction: Direction)
    ensures MeansBuffer(ctx, sizeArg, direction, DecodeBuffer(ctx, sizeArg, direction))
  {
    if sizeArg < |ctx.allArgs| {
      assert IsExtent(ctx, sizeArg, BufferLimit(ctx, sizeArg));
    }
  }

  lemma PlainMeans(p: Param, ctx: Context)
    requires !p.VariantParam?
    ensures Means(p, ctx, DecodeFresh(p, ctx))
  {
    match p
    case StringParam => StringShows(ctx.memory, ctx.rawValue, 4096);
    case SysctlBynameNameParam => StringShows(ctx.memory, ctx.rawValue, 4096);
    case ArrayOfStringsParam(max) => if ctx.rawValue != 0 { StringsMean(ctx.memory, ctx.rawValue, max); }
    case OctalParam => OctalMeans(ctx);
    case OpenFlagsParam => OpenMeans(ctx);
    case FdSetParam => FdSetMeans(ctx);
    case StructParam(members, direction) => StructMeans(ctx, members, direction);
    case BufferParam(sizeArg, direction) => BufferMeans(ctx, sizeArg, direction);
    case SysctlMibParam => if ctx.rawValue != 0 && |ctx.allArgs| >= 2 { MibMeans(ctx); }
    case SysctlBufferParam => MibResultMeans(ctx);
    case SysctlBynameBufferParam => NameResultMeans(ctx);
    case SysctlSizePointerParam => SizeMeans(ctx);
    case _ =>
  }

  lemma OctalMeans(ctx: Context)
    ensures MeansOctal(ctx, DecodeOctal(ctx))
  {
    HexShows(ctx.rawValue);
    if ToSigned(ctx.rawValue) >= 0 {
      OctalShows(ToSigned(ctx.rawValue));
    }
  }

  /** Every decoder, at entry and at exit, through variants, says what its parameter means. */
  lemma {:induction false} DecodeMeans(p: Param, ctx: Context)
    ensures Means(p, ctx, DecodeFresh(p, ctx))
    decreases p
  {
    if !p.VariantParam? {
      PlainMeans(p, ctx);
    } else if p.discriminator < |ctx.allArgs| {
      var disc := ctx.allArgs[p.discriminator];
      var c := Choose(disc, p.variants, p.otherwise, p.skipFor, p.skipWhenNotSet);
      ChooseExactly(disc, p.variants, p.otherwise, p.skipFor, p.skipWhenNotSet);
      if c.Chosen? {
        DecodeMeans(c.param, ctx);
      }
    }
  }
}
