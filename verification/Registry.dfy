/** `registry.py`: the three dictionaries of the syscall registry and what they agree on. */
module Registry {
  import opened Prelude
  import opened Params

  datatype Category =
    | File | Network | Process | MemoryManagement | Signal | Ipc | Thread | Time | SysInfo | Security | Debug | Misc

  /** The one custom return decoder of the definitions. */
  datatype ReturnDecoder = FcntlReturn

  datatype SyscallDef = SyscallDef(
    number: int,
    name: string,
    params: seq<Param>,
    returnDecoder: Option<ReturnDecoder>,
    variadicStart: Option<nat>)

  datatype Registration = Registration(def: SyscallDef, category: Category)

  // ---------------------------------------------------------------------------------------------
  // Dictionaries that remember insertion order
  // ---------------------------------------------------------------------------------------------

  datatype Dict<K(==), V> = Dict(keys: seq<K>, entries: map<K, V>)
  {
    predicate Valid() {
      && (forall i, j | 0 <= i < j < |keys| :: keys[i] != keys[j])
      && (set k | k in keys) == entries.Keys
    }

    /** `d[k] = v`: an existing key keeps its place. */
    function Set(k: K, v: V): (d: Dict<K, V>)
      requires Valid()
      ensures d.Valid()
      ensures d.entries == entries[k := v]
    {
      Dict(if k in entries then keys else keys + [k], entries[k := v])
    }

    /** `d.get(k)` */
    function Get(k: K): Option<V> {
      if k in entries then Some(entries[k]) else None
    }

    /** `list(d.values())` */
    function Values(): (values: seq<V>)
      requires Valid()
      ensures |values| == |keys|
      ensures forall i | 0 <= i < |keys| :: keys[i] in entries && values[i] == entries[keys[i]]
    {
      assert forall i | 0 <= i < |keys| :: keys[i] in keys;
      seq(|keys|, i requires 0 <= i < |keys| && keys[i] in entries => entries[keys[i]])
    }
  }

  // ---------------------------------------------------------------------------------------------
  // What a sequence of registrations means
  // ---------------------------------------------------------------------------------------------

  /** The last registration under a name. */
  function LastNamed(regs: seq<Registration>, name: string): (r: Option<Registration>)
    ensures r.Some? ==> r.value in regs && r.value.def.name == name
    ensures r.None? ==> forall x | x in regs :: x.def.name != name
  {
    if regs == [] then None
    else if regs[|regs| - 1].def.name == name then Some(regs[|regs| - 1])
    else LastNamed(regs[..|regs| - 1], name)
  }

  function LastNumbered(regs: seq<Registration>, number: int): (r: Option<Registration>)
    ensures r.Some? ==> r.value in regs && r.value.def.number == number
    ensures r.None? ==> forall x | x in regs :: x.def.number != number
  {
    if regs == [] then None
    else if regs[|regs| - 1].def.number == number then Some(regs[|regs| - 1])
    else LastNumbered(regs[..|regs| - 1], number)
  }

  ghost predicate NamesReflect(byName: Dict<string, SyscallDef>, regs: seq<Registration>) {
    && byName.Valid()
    && (forall n :: n in byName.entries <==> LastNamed(regs, n).Some?)
    && (forall n | n in byName.entries :: byName.entries[n] == LastNamed(regs, n).value.def)
  }

  ghost predicate CategoriesReflect(categories: Dict<string, Category>, regs: seq<Registration>) {
    && categories.Valid()
    && (forall n :: n in categories.entries <==> LastNamed(regs, n).Some?)
    && (forall n | n in categories.entries :: categories.entries[n] == LastNamed(regs, n).value.category)
  }

  ghost predicate NumbersReflect(byNumber: Dict<int, SyscallDef>, regs: seq<Registration>) {
    && byNumber.Valid()
    && (forall k :: k in byNumber.entries <==> LastNumbered(regs, k).Some?)
    && (forall k | k in byNumber.entries :: byNumber.entries[k] == LastNumbered(regs, k).value.def)
  }

  /** The dictionaries hold, under every key, the last registration for it. */
  ghost predicate Reflects(byNumber: Dict<int, SyscallDef>, byName: Dict<string, SyscallDef>,
                           categories: Dict<string, Category>, regs: seq<Registration>)
  {
    && NumbersReflect(byNumber, regs) && NamesReflect(byName, regs) && CategoriesReflect(categories, regs)
    && byName.keys == categories.keys
  }

  /** The definitions of these names, in order. */
  predicate Defines(byName: Dict<string, SyscallDef>, names: seq<string>, defs: seq<SyscallDef>) {
    |defs| == |names| && forall i | 0 <= i < |names| :: byName.Get(names[i]) == Some(defs[i])
  }

  lemma DefinesSnoc(byName: Dict<string, SyscallDef>, names: seq<string>, defs: seq<SyscallDef>, name: string)
    requires Defines(byName, names, defs) && name in byName.entries
    ensures Defines(byName, names + [name], defs + [byName.entries[name]])
  {
  }

  function NamesIn(categories: Dict<string, Category>, category: Category): seq<string> {
    Filter(n => categories.Get(n) == Some(category), categories.keys)
  }

  /** The comprehension of `get_syscalls_by_category`. */
  method DefinitionsIn(byName: Dict<string, SyscallDef>, categories: Dict<string, Category>, category: Category)
    returns (defs: seq<SyscallDef>)
    requires forall n | n in categories.keys :: n in byName.entries
    ensures Defines(byName, NamesIn(categories, category), defs)
  {
    defs := [];
    var keys := categories.keys;
    ghost var p := n => categories.Get(n) == Some(category);
    for i := 0 to |keys|
      invariant Defines(byName, Filter(p, keys[..i]), defs)
    {
      var name := keys[i];
      FilterSnoc(p, keys, i);
      if categories.Get(name) == Some(category) {
        DefinesSnoc(byName, Filter(p, keys[..i]), defs, name);
        defs := defs + [byName.entries[name]];
      }
    }
    assert keys[..|keys|] == keys;
  }

  class SyscallRegistry {
    var byNumber: Dict<int, SyscallDef>
    var byName: Dict<string, SyscallDef>
    var categories: Dict<string, Category>
    ghost var registered: seq<Registration>

    ghost predicate Valid()
      reads this
    {
      Reflects(byNumber, byName, categories, registered)
    }

    constructor (definitions: seq<Registration>)
      ensures Valid() && registered == definitions
    {
      byNumber, byName, categories := Dict([], map[]), Dict([], map[]), Dict([], map[]);
      registered := [];
      new;
      for i := 0 to |definitions|
        invariant Valid() && registered == definitions[..i]
      {
        Register(definitions[i].def, definitions[i].category);
        assert definitions[..i + 1] == definitions[..i] + [definitions[i]];
      }
    }

    /** `_register` */
    method Register(def: SyscallDef, category: Category)
      requires Valid()
      modifies this
      ensures Valid() && registered == old(registered) + [Registration(def, category)]
    {
      RegisterReflects(byNumber, byName, categories, registered, Registration(def, category));
      byNumber := byNumber.Set(def.number, def);
      byName := byName.Set(def.name, def);
      categories := categories.Set(def.name, category);
      registered := registered + [Registration(def, category)];
    }

    function LookupByName(name: string): (def: Option<SyscallDef>)
      requires Valid()
      reads this
      ensures def == if LastNamed(registered, name).Some? then Some(LastNamed(registered, name).value.def) else None
    {
      byName.Get(name)
    }

    function GetCategory(name: string): (category: Option<Category>)
      requires Valid()
      reads this
      ensures category ==
              if LastNamed(registered, name).Some? then Some(LastNamed(registered, name).value.category) else None
    {
      categories.Get(name)
    }

    /** `get_syscalls_by_category` */
    method GetSyscallsByCategory(category: Category) returns (defs: seq<SyscallDef>)
      requires Valid()
      ensures Defines(byName, NamesIn(categories, category), defs)
    {
      defs := DefinitionsIn(byName, categories, category);
    }

    /** `get_all_syscalls` */
    function GetAllSyscalls(): (all: seq<SyscallDef>)
      requires Valid()
      reads this
      ensures OneToOne(registered) ==> ListsEachOnce(all, byName)
    {
      assert OneToOne(registered) ==> ListsEachOnce(byNumber.Values(), byName) by {
        if OneToOne(registered) {
          AllSyscallsListedOnce(byNumber, byName, categories, registered);
        }
      }
      byNumber.Values()
    }
  }

  /** Setting all three dictionaries for one more registration keeps them in agreement. */
  lemma RegisterReflects(byNumber: Dict<int, SyscallDef>, byName: Dict<string, SyscallDef>,
                         categories: Dict<string, Category>, regs: seq<Registration>, r: Registration)
    requires Reflects(byNumber, byName, categories, regs)
    ensures Reflects(byNumber.Set(r.def.number, r.def), byName.Set(r.def.name, r.def),
                     categories.Set(r.def.name, r.category), regs + [r])
  {
    SetName(byName, regs, r);
    SetCategory(categories, regs, r);
    SetNumber(byNumber, regs, r);
  }

  lemma SetName(byName: Dict<string, SyscallDef>, regs: seq<Registration>, r: Registration)
    requires NamesReflect(byName, regs)
    ensures NamesReflect(byName.Set(r.def.name, r.def), regs + [r])
  {
    LastAfter(regs, r);
  }

  lemma SetCategory(categories: Dict<string, Category>, regs: seq<Registration>, r: Registration)
    requires CategoriesReflect(categories, regs)
    ensures CategoriesReflect(categories.Set(r.def.name, r.category), regs + [r])
  {
    LastAfter(regs, r);
  }

  lemma SetNumber(byNumber: Dict<int, SyscallDef>, regs: seq<Registration>, r: Registration)
    requires NumbersReflect(byNumber, regs)
    ensures NumbersReflect(byNumber.Set(r.def.number, r.def), regs + [r])
  {
    LastAfter(regs, r);
  }

  lemma LastAfter(regs: seq<Registration>, r: Registration)
    ensures forall n :: LastNamed(regs + [r], n) == if n == r.def.name then Some(r) else LastNamed(regs, n)
    ensures forall k :: LastNumbered(regs + [r], k) == if k == r.def.number then Some(r) else LastNumbered(regs, k)
  {
    assert (regs + [r])[..|regs|] == regs;
  }

  predicate NoDuplicates(names: seq<string>) {
    forall i, j | 0 <= i < j < |names| :: names[i] != names[j]
  }

  lemma {:induction false} FilterHasNoDuplicates(p: string -> bool, names: seq<string>)
    requires NoDuplicates(names)
    ensures NoDuplicates(Filter(p, names))
  {
    if names != [] {
      FilterHasNoDuplicates(p, names[1..]);
      assert names[0] !in names[1..];
    }
  }

  /** The category lists partition the registered names: each name is listed once, in the category of
      its last registration and in no other, with the definition of that registration. */
  lemma CategoriesPartition(byNumber: Dict<int, SyscallDef>, byName: Dict<string, SyscallDef>,
                            categories: Dict<string, Category>, regs: seq<Registration>,
                            category: Category, defs: seq<SyscallDef>)
    requires Reflects(byNumber, byName, categories, regs)
    requires Defines(byName, NamesIn(categories, category), defs)
    ensures NoDuplicates(NamesIn(categories, category))
    ensures forall n :: n in NamesIn(categories, category) <==>
                        LastNamed(regs, n).Some? && LastNamed(regs, n).value.category == category
    ensures forall i | 0 <= i < |defs| ::
              defs[i].name == NamesIn(categories, category)[i]
              && LastNamed(regs, defs[i].name) == Some(Registration(defs[i], category))
  {
    var p := n => categories.Get(n) == Some(category);
    FilterHasNoDuplicates(p, categories.keys);
    forall n | LastNamed(regs, n).Some? && LastNamed(regs, n).value.category == category
      ensures n in NamesIn(categories, category)
    {
      assert n in byName.entries && n in byName.keys;
      FilterKeeps(p, categories.keys, n);
    }
    forall i | 0 <= i < |defs|
      ensures defs[i].name == NamesIn(categories, category)[i]
      ensures LastNamed(regs, defs[i].name) == Some(Registration(defs[i], category))
    {
      var n := NamesIn(categories, category)[i];
      assert n in NamesIn(categories, category);
      assert byName.Get(n) == Some(defs[i]);
    }
  }

  /** Numbers and names correspond one to one. */
  predicate OneToOne(regs: seq<Registration>) {
    forall a, b | a in regs && b in regs :: a.def.number == b.def.number <==> a.def.name == b.def.name
  }

  /** Every registered name once, with the definition a lookup finds. */
  ghost predicate ListsEachOnce(all: seq<SyscallDef>, byName: Dict<string, SyscallDef>) {
    && (forall i, j | 0 <= i < j < |all| :: all[i].name != all[j].name)
    && (forall i | 0 <= i < |all| :: byName.Get(all[i].name) == Some(all[i]))
    && (forall n :: n in byName.entries ==> exists i :: 0 <= i < |all| && all[i].name == n)
  }

  /** When numbers and names correspond one to one, the list by number (the one breakpoints are set
      from) holds every registered name exactly once, with the definition a lookup finds. */
  lemma AllSyscallsListedOnce(byNumber: Dict<int, SyscallDef>, byName: Dict<string, SyscallDef>,
                              categories: Dict<string, Category>, regs: seq<Registration>)
    requires Reflects(byNumber, byName, categories, regs) && OneToOne(regs)
    ensures ListsEachOnce(byNumber.Values(), byName)
  {
    var all := byNumber.Values();
    forall i | 0 <= i < |all|
      ensures all[i].number == byNumber.keys[i]
      ensures byName.Get(all[i].name) == Some(all[i])
    {
      var k := byNumber.keys[i];
      LastOfBoth(regs, all[i].name, k);
      assert byName.Get(all[i].name) == Some(all[i]);
    }
    forall n | n in byName.entries ensures exists i :: 0 <= i < |all| && all[i].name == n {
      var k := byName.entries[n].number;
      LastOfBoth(regs, n, k);
      assert k in byNumber.keys;
      var i :| 0 <= i < |byNumber.keys| && byNumber.keys[i] == k;
      assert all[i].name == n;
    }
  }

  /** Under the correspondence, the last registration of a name is the last one of its number. */
  lemma {:induction false} LastOfBoth(regs: seq<Registration>, name: string, number: int)
    requires OneToOne(regs)
    requires (LastNumbered(regs, number).Some? && LastNumbered(regs, number).value.def.name == name)
             || (LastNamed(regs, name).Some? && LastNamed(regs, name).value.def.number == number)
    ensures LastNamed(regs, name) == LastNumbered(regs, number)
  {
    if regs != [] {
      var front, last := regs[..|regs| - 1], regs[|regs| - 1];
      assert last in regs && forall x | x in front :: x in regs;
      if last.def.name != name && last.def.number != number {
        LastOfBoth(front, name, number);
      }
    }
  }
}
