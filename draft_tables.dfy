/** The draft's symbol table and memory map (main.cpp). Unlike the final
    linker's, the symbol table refuses a second definition outright and a
    lookup of an undefined name stops the draft; the memory map holds plain
    words and refuses to grow past 256 of them. */
module DraftTables {
  import opened Wrappers
  import Symbols
  import opened DraftSyntax

  /** The most words the draft's memory map holds. */
  const MemoryCap := 256

  /** The names in definition order and their values. */
  datatype Names = Names(syms: seq<string>, vals: map<string, int>)

  /** The names and the map agree, and no name is listed twice. */
  ghost predicate Agrees(st: Names)
  {
    (forall s :: s in st.vals <==> s in st.syms) && Symbols.NoDup(st.syms)
  }

  /** The table after the first definition of `sym`. */
  function Enter(st: Names, sym: string, val: int): Names
  {
    Names(st.syms + [sym], st.vals[sym := val])
  }

  /** createSymbol on a pure table: a duplicate stops the draft. */
  function Define(st: Names, sym: string, val: int): Result<Names, Fault>
  {
    if sym in st.vals then Err(DuplicateDefinition) else Ok(Enter(st, sym, val))
  }

  /** getVal on a pure table: an undefined name stops the draft. */
  function Lookup(vals: map<string, int>, sym: string): Result<int, Fault>
  {
    if sym in vals then Ok(vals[sym]) else Err(WrongSym)
  }

  /** A definition that goes through keeps the table consistent, appends its
      name last and leaves every earlier value as it was. */
  lemma DefineKeeps(st: Names, sym: string, val: int)
    requires Agrees(st)
    ensures Define(st, sym, val).Ok? <==> sym !in st.syms
    ensures Define(st, sym, val).Ok? ==>
              var st' := Define(st, sym, val).value;
              && Agrees(st') && st'.syms == st.syms + [sym] && Lookup(st'.vals, sym) == Ok(val)
              && forall s :: s in st.vals ==> s in st'.vals && st'.vals[s] == st.vals[s]
  {
    if sym !in st.syms {
      var st' := Enter(st, sym, val);
      forall i, j | 0 <= i < j < |st'.syms|
        ensures st'.syms[i] != st'.syms[j]
      {
        if j == |st.syms| {
          assert st'.syms[i] == st.syms[i];
        }
      }
    }
  }

  /** allocateMem on a pure map: a full map stops the draft. */
  function Allocate(mem: seq<int>, val: int): Result<seq<int>, Fault>
  {
    if |mem| == MemoryCap then Err(ExceedMemory) else Ok(mem + [val])
  }

  /** An allocation on a map within the cap either appends the word, keeping
      the map within the cap, or refuses exactly because the map is full. */
  lemma AllocateWithinCap(mem: seq<int>, val: int)
    requires |mem| <= MemoryCap
    ensures Allocate(mem, val).Err? <==> |mem| == MemoryCap
    ensures Allocate(mem, val).Ok? ==>
              |Allocate(mem, val).value| <= MemoryCap && Allocate(mem, val).value[..|mem|] == mem
  {
  }

  /** One printed symbol-table line. */
  datatype SymbolEntry = SymbolEntry(sym: string, val: int)

  /** One printed memory-map line: an address and the word stored there. */
  datatype MemEntry = MemEntry(addr: nat, val: int)

  class SymTab {
    var syms: seq<string>
    var vals: map<string, int>

    ghost predicate Valid()
      reads this
    {
      Agrees(State())
    }

    function State(): Names
      reads this
    {
      Names(syms, vals)
    }

    constructor ()
      ensures Valid() && State() == Names([], map[])
    {
      syms, vals := [], map[];
    }

    /** Enters the first definition of `sym`; refuses a duplicate, which
        stops the draft. */
    method CreateSymbol(sym: string, val: int) returns (r: Option<Fault>)
      requires Valid()
      modifies this
      ensures Valid()
      ensures match Define(old(State()), sym, val)
              case Ok(st) => r == None && State() == st
              case Err(f) => r == Some(f) && State() == old(State())
    {
      if sym in vals {
        return Some(DuplicateDefinition);
      }
      DefineKeeps(State(), sym, val);
      syms := syms + [sym];
      vals := vals[sym := val];
      return None;
    }

    /** The value of `sym`, or the stop for an undefined name. */
    method GetVal(sym: string) returns (r: Result<int, Fault>)
      ensures r == Lookup(vals, sym)
    {
      if sym !in vals {
        return Err(WrongSym);
      }
      return Ok(vals[sym]);
    }

    /** The symbol-table listing: every name once, in definition order,
        with its value. */
    method Print() returns (lines: seq<SymbolEntry>)
      requires Valid()
      ensures |lines| == |syms|
      ensures forall i :: 0 <= i < |lines| ==> lines[i] == SymbolEntry(syms[i], vals[syms[i]])
    {
      lines := [];
      for i := 0 to |syms|
        invariant |lines| == i
        invariant forall k :: 0 <= k < i ==> lines[k] == SymbolEntry(syms[k], vals[syms[k]])
      {
        lines := lines + [SymbolEntry(syms[i], vals[syms[i]])];
      }
    }
  }

  class MemMap {
    var memMap: seq<int>

    ghost predicate Valid()
      reads this
    {
      |memMap| <= MemoryCap
    }

    constructor ()
      ensures Valid() && memMap == []
    {
      memMap := [];
    }

    /** Appends one word; refuses once the map holds 256 words, which
        stops the draft. */
    method AllocateMem(val: int) returns (r: Option<Fault>)
      requires Valid()
      modifies this
      ensures Valid()
      ensures match Allocate(old(memMap), val)
              case Ok(mem) => r == None && memMap == mem
              case Err(f) => r == Some(f) && memMap == old(memMap)
    {
      if |memMap| == MemoryCap {
        return Some(ExceedMemory);
      }
      memMap := memMap + [val];
      return None;
    }

    /** The memory-map listing: each word at the address equal to its index. */
    method Print() returns (lines: seq<MemEntry>)
      ensures |lines| == |memMap|
      ensures forall i :: 0 <= i < |lines| ==> lines[i] == MemEntry(i, memMap[i])
    {
      lines := [];
      for i := 0 to |memMap|
        invariant |lines| == i
        invariant forall k :: 0 <= k < i ==> lines[k] == MemEntry(k, memMap[k])
      {
        lines := lines + [MemEntry(i, memMap[i])];
      }
    }
  }
}
