/** `struct_decoders/sysctl.py`: reading a MIB and finding the type of its value. */
module Sysctl {
  import opened Prelude
  import opened Text

  datatype SysctlType = StringType | IntType | Int64Type

  /** The tables of the module: symbolic names, and value types by MIB and by name. */
  datatype Tables = Tables(
    topNames: map<int, string>,
    kernNames: map<int, string>,
    hwNames: map<int, string>,
    mibTypes: map<(int, int), SysctlType>,
    nameTypes: map<string, SysctlType>)

  const CTL_KERN := 1
  const CTL_HW := 6
  const CTL_MAXNAME := 12

  datatype MibRead = MibRead(text: string, values: seq<int>)

  function IntAt(mem: Memory, addr: int): Option<int> {
    var data := ReadMemory(mem, addr, 4);
    if data.Some? then Some(FromLittleEndianSigned(data.value)) else None
  }

  /** The `n` ints at `ptr`, or as many as can be read. */
  function ReadInts(mem: Memory, ptr: int, n: nat): (values: seq<int>)
    ensures |values| <= n
  {
    if n == 0 then []
    else
      var before := ReadInts(mem, ptr, n - 1);
      var last := IntAt(mem, ptr + (n - 1) * 4);
      if |before| == n - 1 && last.Some? then before + [last.value] else before
  }

  function NameOr(names: map<int, string>, v: int): string {
    if v in names then names[v] else Decimal(v)
  }

  /** The text of element `i`: only the first two elements have symbolic names. */
  function ElementText(tables: Tables, values: seq<int>, i: nat): string
    requires i < |values|
  {
    if i == 0 then NameOr(tables.topNames, values[0])
    else if i == 1 && values[0] == CTL_KERN then NameOr(tables.kernNames, values[1])
    else if i == 1 && values[0] == CTL_HW then NameOr(tables.hwNames, values[1])
    else Decimal(values[i])
  }

  function MibText(tables: Tables, values: seq<int>): string {
    "[" + Join(seq(|values|, i requires 0 <= i < |values| => ElementText(tables, values, i)), ", ") + "]"
  }

  function ReadMib(tables: Tables, mem: Memory, ptr: int, count: nat): MibRead {
    if ptr == 0 || count == 0 then MibRead("NULL", [])
    else if count > CTL_MAXNAME then MibRead("<invalid namelen=" + Decimal(count) + ">", [])
    else
      var values := ReadInts(mem, ptr, count);
      if |values| < count then
        MibRead("[<unreadable " + Decimal(|values|) + "/" + Decimal(count) + ">]", [])
      else
        MibRead(MibText(tables, values), values)
  }

  /** Reading stops for good at the first unreadable int. */
  lemma {:induction false} ReadIntsStops(mem: Memory, ptr: int, i: nat, n: nat)
    requires i < n && |ReadInts(mem, ptr, i)| == i && IntAt(mem, ptr + i * 4).None?
    ensures ReadInts(mem, ptr, n) == ReadInts(mem, ptr, i)
    decreases n
  {
    if n > i + 1 {
      ReadIntsStops(mem, ptr, i, n - 1);
    }
  }

  /** The two loops of `decode_sysctl_mib`. */
  method DecodeSysctlMib(tables: Tables, mem: Memory, ptr: int, count: nat) returns (r: MibRead)
    ensures r == ReadMib(tables, mem, ptr, count)
  {
    if ptr == 0 || count == 0 {
      return MibRead("NULL", []);
    }
    if count > CTL_MAXNAME {
      return MibRead("<invalid namelen=" + Decimal(count) + ">", []);
    }
    var values: seq<int> := [];
    for i := 0 to count
      invariant values == ReadInts(mem, ptr, i) && |values| == i
    {
      var value := IntAt(mem, ptr + i * 4);
      if value.None? {
        ReadIntsStops(mem, ptr, i, count);
        return MibRead("[<unreadable " + Decimal(i) + "/" + Decimal(count) + ">]", []);
      }
      values := values + [value.value];
    }
    var decoded := DecodeElements(tables, values);
    r := MibRead("[" + Join(decoded, ", ") + "]", values);
  }

  /** The second loop: the text of every element. */
  method DecodeElements(tables: Tables, values: seq<int>) returns (decoded: seq<string>)
    ensures decoded == seq(|values|, i requires 0 <= i < |values| => ElementText(tables, values, i))
  {
    decoded := [];
    for i := 0 to |values|
      invariant |decoded| == i
      invariant forall j | 0 <= j < i :: decoded[j] == ElementText(tables, values, j)
    {
      if i == 0 {
        decoded := decoded + [NameOr(tables.topNames, values[i])];
      } else if i == 1 {
        if values[0] == CTL_KERN {
          decoded := decoded + [NameOr(tables.kernNames, values[i])];
        } else if values[0] == CTL_HW {
          decoded := decoded + [NameOr(tables.hwNames, values[i])];
        } else {
          decoded := decoded + [Decimal(values[i])];
        }
      } else {
        decoded := decoded + [Decimal(values[i])];
      }
    }
  }

  function TypeOfMib(tables: Tables, values: seq<int>): Option<SysctlType> {
    if |values| >= 2 && (values[0], values[1]) in tables.mibTypes then Some(tables.mibTypes[(values[0], values[1])])
    else None
  }

  function TypeOfName(tables: Tables, name: string): Option<SysctlType> {
    if name in tables.nameTypes then Some(tables.nameTypes[name]) else None
  }
}
