/** The draft's readers, its instruction reader and its two passes
    (main.cpp), on the same tokenizer as the final linker's. Every exit()
    of the draft is an Err or Some result that the caller passes straight
    up; each method is proved against the pure functions of DraftSyntax and
    DraftLink. */
module DraftPasses {
  import opened Wrappers
  import opened Text
  import opened Lexer
  import opened Syntax
  import opened Scanner
  import opened DraftSyntax
  import opened DraftTables
  import opened DraftLink

  /** The tokens after one read: one fewer, unless none were left. */
  function After(toks: seq<Token>): seq<Token>
  {
    if toks == [] then [] else toks[1..]
  }

  /** readInt: a token of decimal digits, converted as stoi does. */
  method ReadInt(tz: Tokenizer) returns (r: Result<nat, Fault>)
    requires tz.Valid()
    modifies tz
    ensures tz.Valid() && tz.Remaining() == After(old(tz.Remaining()))
    ensures r == IntOf(old(tz.Remaining()))
  {
    if tz.IsEnd() {
      return Err(Aborted);
    }
    var token := tz.GetToken();
    for i := 0 to |token.text|
      invariant forall k :: 0 <= k < i ==> IsDigit(token.text[k])
    {
      if !IsDigit(token.text[i]) {
        return Err(WrongIntToken);
      }
    }
    if Value(token.text) > IntMax {
      return Err(Aborted);
    }
    return Ok(Value(token.text));
  }

  /** readSym: at most 16 characters, all alphanumeric. */
  method ReadSym(tz: Tokenizer) returns (r: Result<string, Fault>)
    requires tz.Valid()
    modifies tz
    ensures tz.Valid() && tz.Remaining() == After(old(tz.Remaining()))
    ensures r == SymOf(old(tz.Remaining()))
  {
    if tz.IsEnd() {
      return Err(Aborted);
    }
    var token := tz.GetToken();
    if |token.text| > MaxSymbolLength {
      return Err(WrongSymbolToken);
    }
    for i := 0 to |token.text|
      invariant forall k :: 0 <= k < i ==> IsAlnum(token.text[k])
    {
      if !IsAlnum(token.text[i]) {
        return Err(WrongSymbolToken);
      }
    }
    return Ok(token.text);
  }

  /** readIAER: a one-character token, one of I, A, E and R. */
  method ReadIAER(tz: Tokenizer) returns (r: Result<char, Fault>)
    requires tz.Valid()
    modifies tz
    ensures tz.Valid() && tz.Remaining() == After(old(tz.Remaining()))
    ensures r == ModeOf(old(tz.Remaining()))
  {
    if tz.IsEnd() {
      return Err(Aborted);
    }
    var token := tz.GetToken();
    if |token.text| != 1 {
      return Err(UnexpectedToken);
    }
    var mode := token.text[0];
    if !(token.text == "I" || token.text == "A" || token.text == "E" || token.text == "R") {
      return Err(UnexpectedToken);
    }
    return Ok(mode);
  }

  /** readInstr: reads a word and resolves it under `mode`. */
  method ReadInstr(tz: Tokenizer, mode: char, moduleBase: int, uselist: seq<string>, symTab: SymTab)
      returns (r: Result<int, Fault>)
    requires tz.Valid() && IsMode(mode)
    modifies tz
    ensures tz.Valid() && tz.Remaining() == After(old(tz.Remaining()))
    ensures r == WordOf(old(tz.Remaining()), mode, moduleBase, uselist, symTab.vals)
  {
    var read := ReadInt(tz);
    if read.Err? {
      return Err(read.error);
    }
    var instr: int := read.value;
    var opcode, operand := read.value / 1000, read.value % 1000;
    if opcode >= 10 {
      return Err(WrongOpcode);
    }
    match mode {
      case 'R' =>
        instr := instr + moduleBase;
      case 'E' =>
        if operand >= |uselist| {
          return Err(WrongOperand);
        }
        var val := symTab.GetVal(uselist[operand]);
        if val.Err? {
          return Err(val.error);
        }
        instr := opcode * 1000 + val.value;
      case 'A' =>
        if operand >= MachineSize {
          return Err(LargerThanMachine);
        }
      case 'I' =>
    }
    return Ok(instr);
  }

  /** Pass 1 on one definition: the name and the value read, the name
      entered at the value plus the module base. */
  method EnterDef(tz: Tokenizer, symTab: SymTab, moduleBase: int) returns (r: Option<Fault>)
    requires tz.Valid() && symTab.Valid()
    modifies tz, symTab
    ensures tz.Valid() && symTab.Valid()
    ensures DefStep(old(tz.Remaining()), moduleBase, old(symTab.State()))
            == Settled(r, symTab.State(), tz.Remaining())
  {
    var sym := ReadSym(tz);
    if sym.Err? {
      return Some(sym.error);
    }
    var val := ReadInt(tz);
    if val.Err? {
      return Some(val.error);
    }
    r := symTab.CreateSymbol(sym.value, val.value + moduleBase);
  }

  /** Pass 1's definition loop. */
  method EnterDefs(tz: Tokenizer, symTab: SymTab, n: nat, moduleBase: int) returns (r: Option<Fault>)
    requires tz.Valid() && symTab.Valid()
    modifies tz, symTab
    ensures tz.Valid() && symTab.Valid()
    ensures DefsThen(old(tz.Remaining()), n, moduleBase, old(symTab.State()))
            == Settled(r, symTab.State(), tz.Remaining())
  {
    for i := 0 to n
      invariant tz.Valid() && symTab.Valid()
      invariant DefsThen(tz.Remaining(), n - i, moduleBase, symTab.State())
                == DefsThen(old(tz.Remaining()), n, moduleBase, old(symTab.State()))
    {
      r := EnterDef(tz, symTab, moduleBase);
      if r.Some? {
        return;
      }
    }
    return None;
  }

  /** The use-list loop of either pass: the names in order. */
  method ReadUseList(tz: Tokenizer, n: nat) returns (r: Result<seq<string>, Fault>)
    requires tz.Valid()
    modifies tz
    ensures tz.Valid()
    ensures UsesThen(old(tz.Remaining()), n, []) == Outcome(r, tz.Remaining())
  {
    var uselist: seq<string> := [];
    for i := 0 to n
      invariant tz.Valid()
      invariant UsesThen(tz.Remaining(), n - i, uselist) == UsesThen(old(tz.Remaining()), n, [])
    {
      var sym := ReadSym(tz);
      if sym.Err? {
        return Err(sym.error);
      }
      uselist := uselist + [sym.value];
    }
    return Ok(uselist);
  }

  /** Pass 1's instruction loop: each mode and word read and dropped. */
  method SkipCode(tz: Tokenizer, n: nat) returns (r: Option<Fault>)
    requires tz.Valid()
    modifies tz
    ensures tz.Valid()
    ensures SkipInstrs(old(tz.Remaining()), n) == Stopped(r, tz.Remaining())
  {
    for i := 0 to n
      invariant tz.Valid()
      invariant SkipInstrs(tz.Remaining(), n - i) == SkipInstrs(old(tz.Remaining()), n)
    {
      var mode := ReadIAER(tz);
      if mode.Err? {
        return Some(mode.error);
      }
      var word := ReadInt(tz);
      if word.Err? {
        return Some(word.error);
      }
    }
    return None;
  }

  /** Pass 2's definition loop: each name and value read and dropped. */
  method SkipDefList(tz: Tokenizer, n: nat) returns (r: Option<Fault>)
    requires tz.Valid()
    modifies tz
    ensures tz.Valid()
    ensures SkipDefs(old(tz.Remaining()), n) == Stopped(r, tz.Remaining())
  {
    for i := 0 to n
      invariant tz.Valid()
      invariant SkipDefs(tz.Remaining(), n - i) == SkipDefs(old(tz.Remaining()), n)
    {
      var sym := ReadSym(tz);
      if sym.Err? {
        return Some(sym.error);
      }
      var val := ReadInt(tz);
      if val.Err? {
        return Some(val.error);
      }
    }
    return None;
  }

  /** Pass 2's instruction loop: each word resolved and appended to the
      memory map. */
  method ResolveCode(tz: Tokenizer, symTab: SymTab, memMap: MemMap, n: nat, moduleBase: int, uselist: seq<string>)
      returns (r: Option<Fault>)
    requires tz.Valid() && memMap.Valid()
    modifies tz, memMap
    ensures tz.Valid() && memMap.Valid()
    ensures InstrsThen(old(tz.Remaining()), n, moduleBase, uselist, symTab.vals, old(memMap.memMap))
            == Settled(r, memMap.memMap, tz.Remaining())
  {
    for i := 0 to n
      invariant tz.Valid() && memMap.Valid()
      invariant InstrsThen(tz.Remaining(), n - i, moduleBase, uselist, symTab.vals, memMap.memMap)
                == InstrsThen(old(tz.Remaining()), n, moduleBase, uselist, symTab.vals, old(memMap.memMap))
    {
      var mode := ReadIAER(tz);
      if mode.Err? {
        return Some(mode.error);
      }
      var addr := ReadInstr(tz, mode.value, moduleBase, uselist, symTab);
      if addr.Err? {
        return Some(addr.error);
      }
      r := memMap.AllocateMem(addr.value);
      if r.Some? {
        return;
      }
    }
    return None;
  }

  /** Pass 1 on one module: the definition count, checked against 16, the
      definitions, the use list and the instructions; the instruction count
      is the result. */
  method Pass1Module(tz: Tokenizer, symTab: SymTab, moduleBase: int) returns (r: Result<nat, Fault>)
    requires tz.Valid() && symTab.Valid()
    modifies tz, symTab
    ensures tz.Valid() && symTab.Valid()
    ensures Module1(old(tz.Remaining()), moduleBase, old(symTab.State()))
            == if r.Ok? then Ok((symTab.State(), tz.Remaining(), r.value)) else Err(r.error)
  {
    var defcount := ReadInt(tz);
    if defcount.Err? {
      return Err(defcount.error);
    }
    if defcount.value > MaxListCount {
      return Err(DefcountExceeds);
    }
    var f := EnterDefs(tz, symTab, defcount.value, moduleBase);
    if f.Some? {
      return Err(f.value);
    }
    var usecount := ReadInt(tz);
    if usecount.Err? {
      return Err(usecount.error);
    }
    var uses := ReadUseList(tz, usecount.value);
    if uses.Err? {
      return Err(uses.error);
    }
    var instcount := ReadInt(tz);
    if instcount.Err? {
      return Err(instcount.error);
    }
    f := SkipCode(tz, instcount.value);
    if f.Some? {
      return Err(f.value);
    }
    return Ok(instcount.value);
  }

  /** Pass 2 on one module: the definitions skipped, the use count checked
      against 16, the use list read afresh and every instruction resolved
      into the memory map; the instruction count is the result. */
  method Pass2Module(tz: Tokenizer, symTab: SymTab, memMap: MemMap, moduleBase: int) returns (r: Result<nat, Fault>)
    requires tz.Valid() && memMap.Valid()
    modifies tz, memMap
    ensures tz.Valid() && memMap.Valid()
    ensures Module2(old(tz.Remaining()), moduleBase, symTab.vals, old(memMap.memMap))
            == if r.Ok? then Ok((memMap.memMap, tz.Remaining(), r.value)) else Err(r.error)
  {
    var defcount := ReadInt(tz);
    if defcount.Err? {
      return Err(defcount.error);
    }
    var f := SkipDefList(tz, defcount.value);
    if f.Some? {
      return Err(f.value);
    }
    var usecount := ReadInt(tz);
    if usecount.Err? {
      return Err(usecount.error);
    }
    if usecount.value > MaxListCount {
      return Err(UsecountExceeds);
    }
    var uselist := ReadUseList(tz, usecount.value);
    if uselist.Err? {
      return Err(uselist.error);
    }
    var instcount := ReadInt(tz);
    if instcount.Err? {
      return Err(instcount.error);
    }
    f := ResolveCode(tz, symTab, memMap, instcount.value, moduleBase, uselist.value);
    if f.Some? {
      return Err(f.value);
    }
    return Ok(instcount.value);
  }

  /** Pass 1: module after module until input runs out, the module base
      advancing by each instruction count; then the symbol-table listing. */
  method Pass1(tz: Tokenizer, symTab: SymTab) returns (r: Result<seq<SymbolEntry>, Fault>)
    requires tz.Valid() && symTab.Valid()
    modifies tz, symTab
    ensures tz.Valid() && symTab.Valid()
    ensures Pass1From(old(tz.Remaining()), 0, old(symTab.State()))
            == if r.Ok? then Ok(symTab.State()) else Err(r.error)
    ensures r.Ok? ==> tz.Remaining() == [] && |r.value| == |symTab.syms|
    ensures r.Ok? ==> forall i :: 0 <= i < |r.value| ==>
              r.value[i] == SymbolEntry(symTab.syms[i], symTab.vals[symTab.syms[i]])
  {
    var moduleBase := 0;
    while !tz.IsEnd()
      invariant tz.Valid() && symTab.Valid()
      invariant Pass1From(tz.Remaining(), moduleBase, symTab.State())
                == Pass1From(old(tz.Remaining()), 0, old(symTab.State()))
      decreases |tz.Remaining()|
    {
      ghost var t, st := tz.Remaining(), symTab.State();
      var instcount := Pass1Module(tz, symTab, moduleBase);
      Pass1Unfold(t, moduleBase, st);
      if instcount.Err? {
        return Err(instcount.error);
      }
      moduleBase := moduleBase + instcount.value;
    }
    var lines := symTab.Print();
    return Ok(lines);
  }

  /** Pass 2: module after module until input runs out, the module base
      advancing by each instruction count; then the memory-map listing. */
  method Pass2(tz: Tokenizer, symTab: SymTab, memMap: MemMap) returns (r: Result<seq<MemEntry>, Fault>)
    requires tz.Valid() && memMap.Valid()
    modifies tz, memMap
    ensures tz.Valid() && memMap.Valid()
    ensures Pass2From(old(tz.Remaining()), 0, symTab.vals, old(memMap.memMap))
            == if r.Ok? then Ok(memMap.memMap) else Err(r.error)
    ensures r.Ok? ==> |r.value| == |memMap.memMap|
    ensures r.Ok? ==> forall i :: 0 <= i < |r.value| ==> r.value[i] == MemEntry(i, memMap.memMap[i])
  {
    var moduleBase := 0;
    while !tz.IsEnd()
      invariant tz.Valid() && memMap.Valid()
      invariant Pass2From(tz.Remaining(), moduleBase, symTab.vals, memMap.memMap)
                == Pass2From(old(tz.Remaining()), 0, symTab.vals, old(memMap.memMap))
      decreases |tz.Remaining()|
    {
      ghost var t, mem := tz.Remaining(), memMap.memMap;
      var instcount := Pass2Module(tz, symTab, memMap, moduleBase);
      Pass2Unfold(t, moduleBase, symTab.vals, mem);
      if instcount.Err? {
        return Err(instcount.error);
      }
      moduleBase := moduleBase + instcount.value;
    }
    var lines := memMap.Print();
    return Ok(lines);
  }

  /** The draft's main: Pass 1, the rewind, Pass 2. A fault in Pass 1 ends
      the run before anything is listed; otherwise the symbol-table listing,
      which is printed before Pass 2 starts, together with Pass 2's outcome:
      the memory-map listing or the fault that stopped it. */
  method Run(input: seq<string>) returns (r: Result<(seq<SymbolEntry>, Result<seq<MemEntry>, Fault>), Fault>)
    ensures Link(input).Err? ==> r == Err(Link(input).error)
    ensures Link(input).Ok? ==>
              var (st, memory) := Link(input).value;
              && r.Ok? && |r.value.0| == |st.syms|
              && (forall i :: 0 <= i < |st.syms| ==> st.syms[i] in st.vals && r.value.0[i] == SymbolEntry(st.syms[i], st.vals[st.syms[i]]))
              && (memory.Err? ==> r.value.1 == Err(memory.error))
              && (memory.Ok? ==> && r.value.1.Ok? && |r.value.1.value| == |memory.value| <= MemoryCap
                                 && forall i :: 0 <= i < |memory.value| ==> r.value.1.value[i] == MemEntry(i, memory.value[i]))
  {
    var symTab := new SymTab();
    var memMap := new MemMap();
    var tz := new Tokenizer(input);
    var symbols := Pass1(tz, symTab);
    if symbols.Err? {
      return Err(symbols.error);
    }
    assert tz.IsEnd();
    var ok := tz.BackToBeginning();
    assert ok;
    var memory := Pass2(tz, symTab, memMap);
    return Ok((symbols.value, memory));
  }
}
