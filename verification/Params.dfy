/** `definitions/__init__.py` and the sysctl parameters of `definitions/sysinfo.py`: decoding one
    argument, at entry or at exit. */
module Params {
  import opened Prelude
  import opened Text
  import opened Bits
  import opened FileSymbols
  import opened FdSet
  import opened Args
  import opened CStrings
  import opened Sysctl

  datatype Direction = In | Out

  /** A syscall's return value: a number, or a text such as "?" or "-1 ENOENT (...)". */
  datatype ReturnValue = Number(number: int) | Message(message: string)

  /** What `DecodeContext` shows a decoder. The identity of the argument list is part of it because
      the sysctl caches are keyed by it. */
  datatype Context = Context(
    noAbbrev: bool,
    tables: Tables,
    memory: Memory,
    rawValue: u64,
    allArgs: seq<u64>,
    listId: int,
    atEntry: bool,
    returnValue: Option<ReturnValue>)

  /** A struct member; excluded ones (padding) are skipped in the output. */
  datatype Member = Member(name: string, size: nat, signed: bool, excluded: bool)

  datatype Param =
    | IntParam
    | UnsignedParam
    | PointerParam
    | FileDescriptorParam
    | StringParam
    | ArrayOfStringsParam(maxStrings: nat)
    | ConstParam(names: map<int, string>)
    | OctalParam
    | OpenFlagsParam
    | FdSetParam
    | StructParam(members: seq<Member>, direction: Direction)
    | BufferParam(sizeArg: nat, direction: Direction)
    | VariantParam(discriminator: nat, variants: map<u64, Param>, otherwise: Option<Param>,
                   skipFor: set<u64>, skipWhenNotSet: Option<nat>)
    | SysctlMibParam
    | SysctlBufferParam
    | SysctlBynameNameParam
    | SysctlBynameBufferParam
    | SysctlSizePointerParam

  /** `tracer.sysctl_mib_cache` and `tracer.sysctlbyname_cache`. */
  datatype Caches = Caches(mibs: map<int, seq<int>>, names: map<int, string>)

  datatype Decoded = Decoded(arg: Option<Arg>, caches: Caches)

  // ---------------------------------------------------------------------------------------------
  // Decoders without memory of other parameters
  // ---------------------------------------------------------------------------------------------

  function Pointer(ctx: Context): Arg {
    PointerArg(ctx.rawValue)
  }

  /** Direction filtering, shared by the struct and buffer decoders: `Some` is the final answer. */
  function WrongPhase(ctx: Context, direction: Direction): Option<Option<Arg>> {
    if ctx.atEntry && direction != In then Some(Some(Pointer(ctx)))
    else if !ctx.atEntry && direction != Out then Some(None)
    else None
  }

  function Min(a: int, b: int): int {
    if a < b then a else b
  }

  const MAX_BUFFER := 4096
  const MAX_BUFFER_NO_ABBREV := 65536

  predicate HasPositiveReturn(ctx: Context) {
    !ctx.atEntry && ctx.returnValue.Some? && ctx.returnValue.value.Number? && ctx.returnValue.value.number > 0
  }

  /** How many bytes `BufferParam` reads: never more than the size argument, the cap, or, at exit,
      the positive number of bytes the call returned. */
  function BufferLimit(ctx: Context, sizeArg: nat): (limit: int)
    requires sizeArg < |ctx.allArgs|
    ensures limit <= ctx.allArgs[sizeArg]
    ensures limit <= if ctx.noAbbrev then 65536 else 4096
    ensures HasPositiveReturn(ctx) ==> limit <= ctx.returnValue.value.number
    ensures limit == ctx.allArgs[sizeArg] || limit == (if ctx.noAbbrev then 65536 else 4096)
            || (HasPositiveReturn(ctx) && limit == ctx.returnValue.value.number)
  {
    var size := ctx.allArgs[sizeArg];
    var returned := if HasPositiveReturn(ctx) && ctx.returnValue.value.number < size then ctx.returnValue.value.number
                    else size;
    Min(returned, if ctx.noAbbrev then MAX_BUFFER_NO_ABBREV else MAX_BUFFER)
  }

  /** A buffer is shown exactly in its own phase, for a non-null pointer with a positive size whose
      capped extent is readable, and what is shown is that memory. */
  function DecodeBuffer(ctx: Context, sizeArg: nat, direction: Direction): (r: Option<Arg>)
    ensures r.Some? && r.value.BufferArg? <==>
            && (ctx.atEntry <==> direction == In) && ctx.rawValue != 0 && sizeArg < |ctx.allArgs|
            && BufferLimit(ctx, sizeArg) > 0 && Readable(ctx.memory, ctx.rawValue, BufferLimit(ctx, sizeArg))
    ensures r.Some? && r.value.BufferArg? ==>
              r.value == BufferArg(Block(ctx.memory, ctx.rawValue, BufferLimit(ctx, sizeArg)), ctx.rawValue)
  {
    if WrongPhase(ctx, direction).Some? then WrongPhase(ctx, direction).value
    else if ctx.rawValue == 0 || sizeArg >= |ctx.allArgs| then Some(Pointer(ctx))
    else
      var size := BufferLimit(ctx, sizeArg);
      if size <= 0 then Some(Pointer(ctx))
      else
        var data := ReadMemory(ctx.memory, ctx.rawValue, size);
        if data.None? then Some(Pointer(ctx)) else Some(BufferArg(data.value, ctx.rawValue))
  }

  function StructSize(members: seq<Member>): nat {
    if members == [] then 0 else members[0].size + StructSize(members[1..])
  }

  /** The members in order, each from its own bytes. */
  function StructFields(members: seq<Member>, data: seq<byte>): seq<Field>
    requires |data| == StructSize(members)
  {
    if members == [] then []
    else
      var m, bytes := members[0], data[..members[0].size];
      (if m.excluded then []
       else [Field(m.name, if m.signed then FromLittleEndianSigned(bytes) else FromLittleEndian(bytes))])
      + StructFields(members[1..], data[m.size..])
  }

  function DecodeStruct(ctx: Context, members: seq<Member>, direction: Direction): Option<Arg> {
    if WrongPhase(ctx, direction).Some? then WrongPhase(ctx, direction).value
    else if ctx.rawValue == 0 then Some(Pointer(ctx))
    else
      var data := ReadMemory(ctx.memory, ctx.rawValue, StructSize(members));
      if data.None? then Some(Pointer(ctx))
      else
        var fields := StructFields(members, data.value);
        if fields == [] then Some(Pointer(ctx)) else Some(StructArg(fields))
  }

  function DecodeConst(ctx: Context, names: map<int, string>): Arg {
    var v := ToSigned32(ctx.rawValue);
    IntArg(v, if !ctx.noAbbrev && v in names then Some(names[v]) else None)
  }

  function DecodeOctal(ctx: Context): Arg {
    var v := ToSigned(ctx.rawValue);
    if ctx.noAbbrev then IntArg(v, Some(HexLiteral(ctx.rawValue)))
    else IntArg(v, if v >= 0 then Some("0" + Digits(v, 8)) else None)
  }

  /** `CustomParam(decode_open_flags)` */
  function DecodeOpen(ctx: Context): Arg {
    var v := ToSigned(ctx.rawValue);
    if ctx.noAbbrev then IntArg(v, Some(HexLiteral(ctx.rawValue)))
    else
      var symbolic := OpenText(ctx.rawValue);
      IntArg(v, if symbolic == Decimal(v) then None else Some(symbolic))
  }

  function DecodeFdSet(ctx: Context): Option<Arg> {
    if !ctx.atEntry then None
    else if ctx.rawValue == 0 then Some(PointerArg(0))
    else
      var data := ReadMemory(ctx.memory, ctx.rawValue, FdSet.ARRAY_SIZE * 4);
      if data.None? then Some(Pointer(ctx))
      else
        var fds := FdsBelow(data.value, FdSet.FD_SETSIZE);
        Some(StringArg("[" + Join(Map((fd: nat) => Decimal(fd), fds), " ") + "]"))
  }

  function DecodeSize(ctx: Context): Arg {
    var data := ReadMemory(ctx.memory, ctx.rawValue, 8);
    if ctx.rawValue == 0 || data.None? then Pointer(ctx)
    else StringArg("[" + Decimal(FromLittleEndian(data.value)) + "]")
  }

  function DecodeStringAt(ctx: Context): string {
    ReadString(ctx.memory, ctx.rawValue, MAX_STRING).Text()
  }

  /** The decoders that neither read nor write a cache. */
  function DecodeLeaf(p: Param, ctx: Context): Option<Arg> {
    match p
    case IntParam => Some(IntArg(ToSigned(ctx.rawValue), None))
    case UnsignedParam => Some(UnsignedArg(ctx.rawValue))
    case PointerParam => Some(Pointer(ctx))
    case FileDescriptorParam => Some(FileDescriptorArg(ToSigned(ctx.rawValue)))
    case StringParam => Some(StringArg(DecodeStringAt(ctx)))
    case ArrayOfStringsParam(max) =>
      if ctx.rawValue == 0 then Some(PointerArg(0))
      else Some(StringArrayArg(StringsFrom(ctx.memory, ctx.rawValue, 0, max)))
    case ConstParam(names) => Some(DecodeConst(ctx, names))
    case OctalParam => Some(DecodeOctal(ctx))
    case OpenFlagsParam => Some(DecodeOpen(ctx))
    case FdSetParam => DecodeFdSet(ctx)
    case StructParam(members, direction) => DecodeStruct(ctx, members, direction)
    case BufferParam(sizeArg, direction) => DecodeBuffer(ctx, sizeArg, direction)
    case SysctlSizePointerParam => Some(DecodeSize(ctx))
    case _ => Some(Pointer(ctx))
  }

  // ---------------------------------------------------------------------------------------------
  // The sysctl parameters
  // ---------------------------------------------------------------------------------------------

  /** `_decode_by_type` */
  function DecodeByType(ctx: Context, t: Option<SysctlType>): Arg {
    match t
    case None => Pointer(ctx)
    case Some(StringType) =>
      var s := ReadString(ctx.memory, ctx.rawValue, 256).Text();
      if "0x" <= s then Pointer(ctx) else StringArg(s)
    case Some(IntType) => DecodeIntAt(ctx, 4)
    case Some(Int64Type) => DecodeIntAt(ctx, 8)
  }

  function DecodeIntAt(ctx: Context, size: nat): Arg {
    var data := ReadMemory(ctx.memory, ctx.rawValue, size);
    if data.None? then Pointer(ctx) else IntArg(FromLittleEndianSigned(data.value), None)
  }

  function MibOf(ctx: Context): MibRead
    requires |ctx.allArgs| >= 2
  {
    ReadMib(ctx.tables, ctx.memory, ctx.rawValue, ctx.allArgs[1])
  }

  function DecodeMib(ctx: Context, caches: Caches): Decoded {
    if ctx.rawValue == 0 || |ctx.allArgs| < 2 then Decoded(Some(Pointer(ctx)), caches)
    else
      Decoded(Some(StringArg(MibOf(ctx).text)), caches.(mibs := caches.mibs[ctx.listId := MibOf(ctx).values]))
  }

  /** The type a result buffer is decoded with: unknown when the cache holds no usable entry. */
  function CachedMibType(ctx: Context, caches: Caches): Option<SysctlType> {
    if ctx.listId in caches.mibs && caches.mibs[ctx.listId] != [] then TypeOfMib(ctx.tables, caches.mibs[ctx.listId])
    else None
  }

  function CachedNameType(ctx: Context, caches: Caches): Option<SysctlType> {
    if ctx.listId in caches.names && caches.names[ctx.listId] != "" then
      TypeOfName(ctx.tables, caches.names[ctx.listId])
    else None
  }

  function DecodeResultBuffer(ctx: Context, t: Option<SysctlType>): Arg {
    if ctx.rawValue == 0 || ctx.atEntry then Pointer(ctx) else DecodeByType(ctx, t)
  }

  // ---------------------------------------------------------------------------------------------
  // Param.decode
  // ---------------------------------------------------------------------------------------------

  datatype Choice = Skipped | Undecided | Chosen(param: Param)

  /** Which decoder a `VariantParam` selects for a discriminator value. */
  function Choose(disc: u64, variants: map<u64, Param>, otherwise: Option<Param>,
                  skipFor: set<u64>, skipWhenNotSet: Option<nat>): (c: Choice)
    ensures c.Chosen? ==> (disc in variants && c.param == variants[disc]) || otherwise == Some(c.param)
  {
    if disc in skipFor then Skipped
    else if skipWhenNotSet.Some? && And(disc, skipWhenNotSet.value) == 0 then Skipped
    else if disc in variants then Chosen(variants[disc])
    else if otherwise.Some? then Chosen(otherwise.value)
    else Undecided
  }

  /** `param.decode(ctx)`, with the tracer's caches passed through. */
  function Decode(p: Param, ctx: Context, caches: Caches): Decoded
    decreases p
  {
    match p
    case SysctlMibParam => DecodeMib(ctx, caches)
    case SysctlBufferParam => Decoded(Some(DecodeResultBuffer(ctx, CachedMibType(ctx, caches))), caches)
    case SysctlBynameNameParam =>
      var name := DecodeStringAt(ctx);
      Decoded(Some(StringArg(name)), caches.(names := caches.names[ctx.listId := name]))
    case SysctlBynameBufferParam => Decoded(Some(DecodeResultBuffer(ctx, CachedNameType(ctx, caches))), caches)
    case VariantParam(disc, variants, otherwise, skipFor, unless) =>
      if disc >= |ctx.allArgs| then Decoded(Some(Pointer(ctx)), caches)
      else
        match Choose(ctx.allArgs[disc], variants, otherwise, skipFor, unless) {
          case Skipped => Decoded(Some(SkipArg), caches)
          case Undecided => Decoded(Some(Pointer(ctx)), caches)
          case Chosen(q) => Decode(q, ctx, caches)
        }
    case _ => Decoded(DecodeLeaf(p, ctx), caches)
  }

  // ---------------------------------------------------------------------------------------------
  // Decoding without caches: the specification
  // ---------------------------------------------------------------------------------------------

  /** The type this call's own MIB argument gives. */
  function OwnMibType(ctx: Context): Option<SysctlType> {
    if |ctx.allArgs| < 2 || ctx.allArgs[0] == 0 then None
    else TypeOfMib(ctx.tables, ReadMib(ctx.tables, ctx.memory, ctx.allArgs[0], ctx.allArgs[1]).values)
  }

  /** The type this call's own name argument gives. */
  function OwnNameType(ctx: Context): Option<SysctlType> {
    if |ctx.allArgs| < 1 then None
    else
      var name := ReadString(ctx.memory, ctx.allArgs[0], MAX_STRING).Text();
      if name == "" then None else TypeOfName(ctx.tables, name)
  }

  /** What a decoder should say, from this call's arguments alone. */
  function DecodeFresh(p: Param, ctx: Context): Option<Arg>
    decreases p
  {
    match p
    case SysctlBufferParam => Some(DecodeResultBuffer(ctx, OwnMibType(ctx)))
    case SysctlBynameBufferParam => Some(DecodeResultBuffer(ctx, OwnNameType(ctx)))
    case SysctlMibParam =>
      if ctx.rawValue == 0 || |ctx.allArgs| < 2 then Some(Pointer(ctx)) else Some(StringArg(MibOf(ctx).text))
    case SysctlBynameNameParam => Some(StringArg(DecodeStringAt(ctx)))
    case VariantParam(disc, variants, otherwise, skipFor, unless) =>
      if disc >= |ctx.allArgs| then Some(Pointer(ctx))
      else
        match Choose(ctx.allArgs[disc], variants, otherwise, skipFor, unless) {
          case Skipped => Some(SkipArg)
          case Undecided => Some(Pointer(ctx))
          case Chosen(q) => DecodeFresh(q, ctx)
        }
    case _ => DecodeLeaf(p, ctx)
  }

  // ---------------------------------------------------------------------------------------------
  // One left-to-right pass over the parameters of a call
  // ---------------------------------------------------------------------------------------------

  /** The context of argument `i`. */
  function ForArg(ctx: Context, i: nat): Context
    requires i < |ctx.allArgs|
  {
    ctx.(rawValue := ctx.allArgs[i])
  }

  datatype PassResult = PassResult(args: seq<Option<Arg>>, caches: Caches)

  /** The first `n` parameters, decoded in order. */
  function Pass(params: seq<Param>, ctx: Context, n: nat, caches: Caches): (r: PassResult)
    requires n <= |params| && n <= |ctx.allArgs|
    ensures |r.args| == n
  {
    if n == 0 then PassResult([], caches)
    else
      var before := Pass(params, ctx, n - 1, caches);
      var d := Decode(params[n - 1], ForArg(ctx, n - 1), before.caches);
      PassResult(before.args + [d.arg], d.caches)
  }

  /** The first `n` parameters, each decoded from a new context and this call's arguments alone. */
  function FreshPass(params: seq<Param>, ctx: Context, n: nat): (args: seq<Option<Arg>>)
    requires n <= |params| && n <= |ctx.allArgs|
    ensures |args| == n
  {
    if n == 0 then []
    else FreshPass(params, ctx, n - 1) + [DecodeFresh(params[n - 1], ForArg(ctx, n - 1))]
  }

  lemma {:induction false} FreshPassAt(params: seq<Param>, ctx: Context, n: nat, i: nat)
    requires i < n <= |params| && n <= |ctx.allArgs|
    ensures FreshPass(params, ctx, n)[i] == DecodeFresh(params[i], ForArg(ctx, i))
  {
    if i < n - 1 {
      FreshPassAt(params, ctx, n - 1, i);
    }
  }

  predicate ReadsMib(p: Param) {
    match p
    case SysctlBufferParam => true
    case VariantParam(_, variants, otherwise, _, _) =>
      (exists k | k in variants :: ReadsMib(variants[k])) || (otherwise.Some? && ReadsMib(otherwise.value))
    case _ => false
  }

  predicate ReadsName(p: Param) {
    match p
    case SysctlBynameBufferParam => true
    case VariantParam(_, variants, otherwise, _, _) =>
      (exists k | k in variants :: ReadsName(variants[k])) || (otherwise.Some? && ReadsName(otherwise.value))
    case _ => false
  }

  predicate Writes(p: Param) {
    match p
    case SysctlMibParam => true
    case SysctlBynameNameParam => true
    case VariantParam(_, variants, otherwise, _, _) =>
      (exists k | k in variants :: Writes(variants[k])) || (otherwise.Some? && Writes(otherwise.value))
    case _ => false
  }

  /** A parameter list in which result buffers come after the parameter that fills their cache, as
      in the definitions of sysctl and sysctlbyname, and nothing else writes a cache. */
  predicate Ordered(params: seq<Param>) {
    && (forall i | 0 <= i < |params| && ReadsMib(params[i]) :: i > 0 && params[0] == SysctlMibParam)
    && (forall i | 0 <= i < |params| && ReadsName(params[i]) :: i > 0 && params[0] == SysctlBynameNameParam)
    && (forall i | 0 <= i < |params| && Writes(params[i]) :: i == 0)
  }

  /** Every MIB result buffer of the call has a MIB to go with. */
  predicate HasMib(params: seq<Param>, allArgs: seq<u64>) {
    forall i | 0 <= i < |params| && i < |allArgs| && ReadsMib(params[i]) :: allArgs[0] != 0
  }

  lemma {:induction false} DecodeKeepsCaches(p: Param, ctx: Context, caches: Caches)
    requires !Writes(p)
    ensures Decode(p, ctx, caches).caches == caches
    decreases p
  {
    match p
    case VariantParam(disc, variants, otherwise, skipFor, unless) =>
      if disc < |ctx.allArgs| {
        var c := Choose(ctx.allArgs[disc], variants, otherwise, skipFor, unless);
        if c.Chosen? {
          DecodeKeepsCaches(c.param, ctx, caches);
        }
      }
    case _ =>
  }

  lemma {:induction false} DecodeMatchesFresh(p: Param, ctx: Context, caches: Caches)
    requires ReadsMib(p) ==> CachedMibType(ctx, caches) == OwnMibType(ctx)
    requires ReadsName(p) ==> CachedNameType(ctx, caches) == OwnNameType(ctx)
    ensures Decode(p, ctx, caches).arg == DecodeFresh(p, ctx)
    decreases p
  {
    if !p.VariantParam? {
      PlainMatchesFresh(p, ctx, caches);
    } else if p.discriminator < |ctx.allArgs| {
      var c := Choose(ctx.allArgs[p.discriminator], p.variants, p.otherwise, p.skipFor, p.skipWhenNotSet);
      if c.Chosen? {
        ChosenReads(p, ctx.allArgs[p.discriminator], c.param);
        DecodeMatchesFresh(c.param, ctx, caches);
      }
    }
  }

  /** A variant reads the caches that its alternatives read. */
  lemma ChosenReads(p: Param, disc: u64, q: Param)
    requires p.VariantParam? && Choose(disc, p.variants, p.otherwise, p.skipFor, p.skipWhenNotSet) == Chosen(q)
    ensures ReadsMib(q) ==> ReadsMib(p)
    ensures ReadsName(q) ==> ReadsName(p)
  {
  }

  lemma PlainMatchesFresh(p: Param, ctx: Context, caches: Caches)
    requires !p.VariantParam?
    requires ReadsMib(p) ==> CachedMibType(ctx, caches) == OwnMibType(ctx)
    requires ReadsName(p) ==> CachedNameType(ctx, caches) == OwnNameType(ctx)
    ensures Decode(p, ctx, caches).arg == DecodeFresh(p, ctx)
  {
  }

  /** The caches hold what the first parameter of this call found. */
  predicate Primed(first: Param, ctx: Context, caches: Caches)
    requires |ctx.allArgs| > 0
  {
    && (first == SysctlMibParam && |ctx.allArgs| >= 2 && ctx.allArgs[0] != 0 ==>
          ctx.listId in caches.mibs && caches.mibs[ctx.listId] == MibOf(ForArg(ctx, 0)).values)
    && (first == SysctlBynameNameParam ==>
          ctx.listId in caches.names && caches.names[ctx.listId] == DecodeStringAt(ForArg(ctx, 0)))
  }

  lemma PrimedAfterFirst(first: Param, ctx: Context, caches: Caches)
    requires |ctx.allArgs| > 0
    ensures Primed(first, ctx, Decode(first, ForArg(ctx, 0), caches).caches)
  {
  }

  /** Only the first parameter of a pass writes the caches. */
  lemma {:induction false} PassCaches(params: seq<Param>, ctx: Context, n: nat, caches: Caches)
    requires Ordered(params) && 0 < n <= |params| && n <= |ctx.allArgs|
    ensures Pass(params, ctx, n, caches).caches == Decode(params[0], ForArg(ctx, 0), caches).caches
  {
    if n == 1 {
      assert Pass(params, ctx, 0, caches).caches == caches;
    } else {
      PassCaches(params, ctx, n - 1, caches);
      DecodeKeepsCaches(params[n - 1], ForArg(ctx, n - 1), Pass(params, ctx, n - 1, caches).caches);
    }
  }

  lemma PassPrimes(params: seq<Param>, ctx: Context, n: nat, caches: Caches)
    requires Ordered(params) && 0 < n <= |params| && n <= |ctx.allArgs|
    ensures Primed(params[0], ctx, Pass(params, ctx, n, caches).caches)
  {
    PassCaches(params, ctx, n, caches);
    PrimedAfterFirst(params[0], ctx, caches);
  }

  lemma {:induction false} PassArg(params: seq<Param>, ctx: Context, n: nat, i: nat, caches: Caches)
    requires i < n <= |params| && n <= |ctx.allArgs|
    ensures Pass(params, ctx, n, caches).args[i] ==
            Decode(params[i], ForArg(ctx, i), Pass(params, ctx, i, caches).caches).arg
  {
    if i < n - 1 {
      PassArg(params, ctx, n - 1, i, caches);
    }
  }

  predicate WritesMib(p: Param) {
    match p
    case SysctlMibParam => true
    case VariantParam(_, variants, otherwise, _, _) =>
      (exists k | k in variants :: WritesMib(variants[k])) || (otherwise.Some? && WritesMib(otherwise.value))
    case _ => false
  }

  /** The call may leave the values of its MIB under the identity of its argument list. */
  predicate LeavesMib(params: seq<Param>, allArgs: seq<u64>) {
    params != [] && allArgs != [] && WritesMib(params[0]) && allArgs[0] != 0
  }

  /** Decoding one argument leaves MIB values only under its own list identity, and only from a non-null
      pointer. */
  lemma {:induction false} DecodeLeavesMib(p: Param, ctx: Context, caches: Caches)
    ensures Decode(p, ctx, caches).caches.mibs.Keys <= caches.mibs.Keys + {ctx.listId}
    ensures !WritesMib(p) || ctx.rawValue == 0 ==> Decode(p, ctx, caches).caches.mibs == caches.mibs
    decreases p
  {
    if !p.VariantParam? {
      PlainLeavesMib(p, ctx, caches);
    } else if p.discriminator < |ctx.allArgs| {
      var c := Choose(ctx.allArgs[p.discriminator], p.variants, p.otherwise, p.skipFor, p.skipWhenNotSet);
      if c.Chosen? {
        DecodeLeavesMib(c.param, ctx, caches);
      }
    }
  }

  lemma PlainLeavesMib(p: Param, ctx: Context, caches: Caches)
    requires !p.VariantParam?
    ensures Decode(p, ctx, caches).caches.mibs.Keys <= caches.mibs.Keys + {ctx.listId}
    ensures !WritesMib(p) || ctx.rawValue == 0 ==> Decode(p, ctx, caches).caches.mibs == caches.mibs
  {
  }

  lemma PassLeavesMib(params: seq<Param>, ctx: Context, n: nat, caches: Caches)
    requires Ordered(params) && n <= |params| && n <= |ctx.allArgs|
    ensures Pass(params, ctx, n, caches).caches.mibs.Keys <= caches.mibs.Keys + {ctx.listId}
    ensures n == 0 || !LeavesMib(params, ctx.allArgs) ==> Pass(params, ctx, n, caches).caches.mibs == caches.mibs
  {
    if n > 0 {
      PassCaches(params, ctx, n, caches);
      DecodeLeavesMib(params[0], ForArg(ctx, 0), caches);
    }
  }

  /** The cache protocol: whatever earlier calls left in the caches, and whatever list identities
      were reused, one pass decodes every argument from this call's own MIB or name. A call that names no
      MIB is safe too if the cache holds nothing under its identity. */
  lemma {:induction false} PassIsFresh(params: seq<Param>, ctx: Context, n: nat, caches: Caches)
    requires Ordered(params) && n <= |params| && n <= |ctx.allArgs|
    requires HasMib(params, ctx.allArgs) || ctx.listId !in caches.mibs
    ensures Pass(params, ctx, n, caches).args == FreshPass(params, ctx, n)
  {
    if n > 0 {
      var i := n - 1;
      PassIsFresh(params, ctx, i, caches);
      var before := Pass(params, ctx, i, caches).caches;
      if i > 0 {
        PassPrimes(params, ctx, i, caches);
      }
      if !HasMib(params, ctx.allArgs) {
        PassLeavesMib(params, ctx, i, caches);
      }
      DecodeMatchesFresh(params[i], ForArg(ctx, i), before);
    }
  }

  // ---------------------------------------------------------------------------------------------
  // Phases
  // ---------------------------------------------------------------------------------------------

  /** No bit is set in both. */
  ghost predicate NoCommonBit(a: nat, b: nat) {
    forall k: nat :: !(TestBit(a, k) && TestBit(b, k))
  }

  lemma NoCommonBitIsZero(a: nat, b: nat)
    ensures And(a, b) == 0 <==> NoCommonBit(a, b)
  {
    if NoCommonBit(a, b) {
      NoBits(And(a, b));
    } else {
      var k: nat :| TestBit(a, k) && TestBit(b, k);
      assert TestBit(And(a, b), k);
      ZeroBit(k);
    }
  }

  /** The discriminator says that the argument does not exist: it is a listed value, or it has none of the
      bits that the argument needs. */
  ghost predicate SaysAbsent(disc: u64, skipFor: set<u64>, skipWhenNotSet: Option<nat>) {
    disc in skipFor || (skipWhenNotSet.Some? && NoCommonBit(disc, skipWhenNotSet.value))
  }

  /** Exactly what a variant selects: nothing when the discriminator says so, else the variant listed for
      the discriminator, else the default. */
  lemma ChooseExactly(disc: u64, variants: map<u64, Param>, otherwise: Option<Param>,
                      skipFor: set<u64>, skipWhenNotSet: Option<nat>)
    ensures var c := Choose(disc, variants, otherwise, skipFor, skipWhenNotSet);
            && (c.Skipped? <==> SaysAbsent(disc, skipFor, skipWhenNotSet))
            && (!c.Skipped? && disc in variants ==> c == Chosen(variants[disc]))
            && (!c.Skipped? && disc !in variants && otherwise.Some? ==> c == Chosen(otherwise.value))
            && (!c.Skipped? && disc !in variants && otherwise.None? ==> c == Undecided)
  {
    if skipWhenNotSet.Some? {
      NoCommonBitIsZero(disc, skipWhenNotSet.value);
    }
  }

  /** Whether the discriminators among the raw arguments say that this argument does not exist. */
  ghost predicate Absent(p: Param, allArgs: seq<u64>)
    decreases p
  {
    match p
    case VariantParam(index, variants, otherwise, skipFor, unless) =>
      index < |allArgs| &&
      var disc := allArgs[index];
      || SaysAbsent(disc, skipFor, unless)
      || (disc in variants && Absent(variants[disc], allArgs))
      || (disc !in variants && otherwise.Some? && Absent(otherwise.value, allArgs))
    case _ => false
  }

  /** Skipping depends on the raw arguments alone, nested variants included: not on memory, return
      value, caches or phase. So an argument is skipped at exit exactly when it was at entry. */
  lemma {:induction false} SkipIsStable(p: Param, ctx: Context, caches: Caches)
    ensures Decode(p, ctx, caches).arg == Some(SkipArg) <==> Absent(p, ctx.allArgs)
    decreases p
  {
    if p.VariantParam? && p.discriminator < |ctx.allArgs| {
      var disc := ctx.allArgs[p.discriminator];
      var c := Choose(disc, p.variants, p.otherwise, p.skipFor, p.skipWhenNotSet);
      ChooseExactly(disc, p.variants, p.otherwise, p.skipFor, p.skipWhenNotSet);
      if c.Chosen? {
        SkipIsStable(c.param, ctx, caches);
      }
    }
  }

  lemma {:induction false} FreshSkipIsStable(p: Param, ctx: Context)
    ensures DecodeFresh(p, ctx) == Some(SkipArg) <==> Absent(p, ctx.allArgs)
    decreases p
  {
    if !p.VariantParam? {
      PlainIsShown(p, ctx);
    } else if p.discriminator < |ctx.allArgs| {
      var disc := ctx.allArgs[p.discriminator];
      var c := Choose(disc, p.variants, p.otherwise, p.skipFor, p.skipWhenNotSet);
      ChooseExactly(disc, p.variants, p.otherwise, p.skipFor, p.skipWhenNotSet);
      if c.Chosen? {
        FreshSkipIsStable(c.param, ctx);
      }
    }
  }

  lemma PlainIsShown(p: Param, ctx: Context)
    requires !p.VariantParam?
    ensures DecodeFresh(p, ctx) != Some(SkipArg)
  {
  }

  const O_CREAT := 0x200

  /** The parameter list of open. */
  const OPEN_PARAMS: seq<Param> :=
    [StringParam, OpenFlagsParam, VariantParam(1, map[], Some(OctalParam), {}, Some(O_CREAT))]

  /** The mode of `open` exists exactly when bit 9 of the flags, `O_CREAT`, is set. */
  lemma OpenModeIsAbsent(allArgs: seq<u64>)
    requires |allArgs| == 3
    ensures Absent(OPEN_PARAMS[2], allArgs) <==> !TestBit(allArgs[1], 9)
  {
    assert Pow2(9) == O_CREAT;
    forall k: nat ensures TestBit(O_CREAT, k) <==> k == 9 {
      BitOfPow2(9, k);
    }
    assert !Absent(OctalParam, allArgs);
  }

  /** The parameter lists of sysctl and sysctlbyname. */
  const SYSCTL_PARAMS: seq<Param> :=
    [SysctlMibParam, UnsignedParam, SysctlBufferParam, SysctlSizePointerParam, PointerParam, UnsignedParam]

  const SYSCTLBYNAME_PARAMS: seq<Param> :=
    [SysctlBynameNameParam, SysctlBynameBufferParam, SysctlSizePointerParam, PointerParam, UnsignedParam]

  lemma SysctlParamsAreOrdered()
    ensures Ordered(SYSCTL_PARAMS) && Ordered(SYSCTLBYNAME_PARAMS)
    ensures forall allArgs: seq<u64> :: HasMib(SYSCTLBYNAME_PARAMS, allArgs)
    ensures forall allArgs: seq<u64> | |allArgs| == 6 :: HasMib(SYSCTL_PARAMS, allArgs) <==> allArgs[0] != 0
  {
    assert ReadsMib(SYSCTL_PARAMS[2]);
  }
}
