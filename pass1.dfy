/** Pass 1: reads every module with the validating readers, stopping at the
    first parse error, and builds the symbol table from the definitions.
    Proved against Syntax.ParseFrom (what is read) and
    Symbols.Pass1Symbols (what the table and the warnings become). */
module FirstPass {
  import opened Wrappers
  import opened Diagnostics
  import opened Lexer
  import opened Syntax
  import opened Symbols
  import opened Scanner

  /** The definition-list loop: `n` (symbol, value) pairs. */
  method ReadDefList(tz: Tokenizer, n: nat) returns (r: Result<seq<Def>, ParseError>)
    requires tz.Valid()
    modifies tz
    ensures tz.Valid()
    ensures r.Ok? ==> ReadDefs(old(tz.Remaining()), EndOf(tz.input), n, []) == Ok((r.value, tz.Remaining()))
    ensures r.Err? ==> ReadDefs(old(tz.Remaining()), EndOf(tz.input), n, []) == Err(r.error)
  {
    ghost var fin := EndOf(tz.input);
    ghost var target := ReadDefs(tz.Remaining(), fin, n, []);
    var deflist: seq<Def> := [];
    var left := n;
    while left > 0
      invariant tz.Valid()
      invariant ReadDefs(tz.Remaining(), fin, left, deflist) == target
    {
      ghost var t := tz.Remaining();
      var sym := tz.ReadSym(true);
      if sym.Err? {
        return Err(sym.error);
      }
      var val := tz.ReadInt(true, Plain);
      if val.Err? {
        return Err(val.error);
      }
      assert tz.Remaining() == t[2..];
      deflist := deflist + [Def(sym.value, val.value)];
      left := left - 1;
    }
    return Ok(deflist);
  }

  /** The use-list loop: `n` names, read and validated but not kept. */
  method SkipUseList(tz: Tokenizer, n: nat) returns (err: Option<ParseError>, ghost uses: seq<string>)
    requires tz.Valid()
    modifies tz
    ensures tz.Valid()
    ensures err.None? ==> ReadUses(old(tz.Remaining()), EndOf(tz.input), n, []) == Ok((uses, tz.Remaining()))
    ensures err.Some? ==> ReadUses(old(tz.Remaining()), EndOf(tz.input), n, []) == Err(err.value)
  {
    ghost var fin := EndOf(tz.input);
    uses := [];
    for i := 0 to n
      invariant tz.Valid()
      invariant ReadUses(tz.Remaining(), fin, n - i, uses) == ReadUses(old(tz.Remaining()), fin, n, [])
    {
      ghost var t := tz.Remaining();
      var sym := tz.ReadSym(true);
      if sym.Err? {
        return Some(sym.error), uses;
      }
      assert ReadUses(t, fin, n - i, uses) == ReadUses(t[1..], fin, n - (i + 1), uses + [sym.value]);
      uses := uses + [sym.value];
    }
    return None, uses;
  }

  /** The instruction loop: `n` (mode, word) pairs, read and validated but not kept. */
  method SkipCode(tz: Tokenizer, n: nat) returns (err: Option<ParseError>, ghost code: seq<Instr>)
    requires tz.Valid()
    modifies tz
    ensures tz.Valid()
    ensures err.None? ==> ReadCode(old(tz.Remaining()), EndOf(tz.input), n, []) == Ok((code, tz.Remaining()))
    ensures err.Some? ==> ReadCode(old(tz.Remaining()), EndOf(tz.input), n, []) == Err(err.value)
  {
    ghost var fin := EndOf(tz.input);
    code := [];
    for i := 0 to n
      invariant tz.Valid()
      invariant ReadCode(tz.Remaining(), fin, n - i, code) == ReadCode(old(tz.Remaining()), fin, n, [])
    {
      ghost var t := tz.Remaining();
      var mode := tz.ReadIAER(true);
      if mode.Err? {
        return Some(mode.error), code;
      }
      var operand := tz.ReadInt(true, Plain);
      if operand.Err? {
        return Some(operand.error), code;
      }
      assert t[1..][1..] == t[2..];
      assert ReadCode(t, fin, n - i, code) == ReadCode(t[2..], fin, n - (i + 1), code + [Instr(mode.value, operand.value)]);
      code := code + [Instr(mode.value, operand.value)];
    }
    return None, code;
  }

  /** Reads one module after `memUsed` instructions: on success its
      definitions and its instruction count, with the whole module as read. */
  method ReadModule(tz: Tokenizer, memUsed: nat) returns (r: Result<(seq<Def>, nat), ParseError>, ghost m: ModuleText)
    requires tz.Valid()
    modifies tz
    ensures tz.Valid()
    ensures r.Ok? ==> ParseModule(old(tz.Remaining()), EndOf(tz.input), memUsed) == Ok((m, tz.Remaining()))
                      && r.value == (m.defs, |m.code|)
    ensures r.Err? ==> ParseModule(old(tz.Remaining()), EndOf(tz.input), memUsed) == Err(r.error)
  {
    m := ModuleText([], [], []);
    var defcount := tz.ReadInt(true, DefCount);
    if defcount.Err? {
      return Err(defcount.error), m;
    }
    var deflist := ReadDefList(tz, defcount.value);
    if deflist.Err? {
      return Err(deflist.error), m;
    }
    var usecount := tz.ReadInt(true, UseCount);
    if usecount.Err? {
      return Err(usecount.error), m;
    }
    var useErr, uses := SkipUseList(tz, usecount.value);
    if useErr.Some? {
      return Err(useErr.value), m;
    }
    var instcount := tz.ReadInt(true, InstrCount(memUsed));
    if instcount.Err? {
      return Err(instcount.error), m;
    }
    var codeErr, code := SkipCode(tz, instcount.value);
    if codeErr.Some? {
      return Err(codeErr.value), m;
    }
    m := ModuleText(deflist.value, uses, code);
    return Ok((deflist.value, instcount.value)), m;
  }

  /** Enters the definitions of module `moduleCounter` into the table:
      a first definition relocated by `moduleBase` (or set to the base, with
      a warning, when its offset is not below `instcount`), a later one
      flagged as a redefinition. */
  method DefineModule(symTab: SymTab, deflist: seq<Def>, instcount: nat, moduleBase: nat, moduleCounter: nat,
                      warnings: seq<Warning>) returns (ws: seq<Warning>)
    requires symTab.Valid()
    modifies symTab
    ensures symTab.Valid()
    ensures (symTab.State(), ws) == DefineFrom(deflist, 0, instcount, moduleBase, moduleCounter, old(symTab.State()), warnings)
  {
    ws := warnings;
    for i := 0 to |deflist|
      invariant symTab.Valid()
      invariant DefineFrom(deflist, i, instcount, moduleBase, moduleCounter, symTab.State(), ws)
                == DefineFrom(deflist, 0, instcount, moduleBase, moduleCounter, old(symTab.State()), warnings)
    {
      ghost var st, ws0 := symTab.State(), ws;
      var sym, val := deflist[i].sym, deflist[i].val;
      if !symTab.SymExist(sym) {
        var v: int := val;
        if val < instcount {
          v := val + moduleBase;
        } else {
          ws := ws + [TooBig(moduleCounter, sym, val, instcount - 1)];
          v := moduleBase;
        }
        symTab.CreateSymbol(sym, v, moduleCounter);
      } else {
        var w := symTab.SetMulDefErr(sym, moduleCounter);
        ws := ws + [w];
      }
      ghost var step := Define(st, deflist[i], instcount, moduleBase, moduleCounter);
      assert symTab.State() == step.0 && ws == ws0 + step.1;
    }
  }

  /** One round of Pass 1's loop, on module `|mods| + 1` after the modules
      `mods` already read: reads the module and, when it parses, enters its
      definitions. On success it returns the module's instruction count and
      reading goes on after it; on a parse error reading stops there, with
      the table and the warnings untouched. */
  method Pass1Module(tz: Tokenizer, symTab: SymTab, moduleCounter: nat, moduleBase: nat, memUsed: nat,
                     warnings: seq<Warning>, ghost mods: seq<ModuleText>)
      returns (r: Result<nat, ParseError>, ws: seq<Warning>, ghost m: ModuleText)
    requires tz.Valid() && symTab.Valid() && tz.Remaining() != []
    requires moduleCounter == |mods| + 1 && moduleBase == memUsed == Size(mods)
    requires (symTab.State(), warnings) == Pass1Symbols(mods)
    modifies tz, symTab
    ensures tz.Valid() && symTab.Valid()
    ensures r.Err? ==> && ParseFrom(old(tz.Remaining()), EndOf(tz.input), memUsed, mods) == (mods, Some(r.error))
                       && (symTab.State(), ws) == Pass1Symbols(mods)
    ensures r.Ok? ==> && ParseFrom(old(tz.Remaining()), EndOf(tz.input), memUsed, mods)
                         == ParseFrom(tz.Remaining(), EndOf(tz.input), memUsed + r.value, mods + [m])
                      && |tz.Remaining()| < |old(tz.Remaining())|
                      && memUsed + r.value == Size(mods + [m])
                      && (symTab.State(), ws) == Pass1Symbols(mods + [m])
  {
    ghost var fin, t := EndOf(tz.input), tz.Remaining();
    var read;
    read, m := ReadModule(tz, memUsed);
    if read.Err? {
      ParseFromStops(t, fin, memUsed, mods);
      return Err(read.error), warnings, m;
    }
    ghost var rest := tz.Remaining();
    var (deflist, instcount) := read.value;
    ws := DefineModule(symTab, deflist, instcount, moduleBase, moduleCounter, warnings);
    Pass1Step(t, fin, memUsed, mods, m, rest);
    r := Ok(instcount);
  }

  /** A module that parses at the head of the tokens is the next one Pass 1
      reads, and the next one its symbols are defined from. */
  lemma Pass1Step(toks: seq<Token>, end: EndPos, memUsed: nat, mods: seq<ModuleText>, m: ModuleText, rest: seq<Token>)
    requires toks != [] && memUsed == Size(mods) && ParseModule(toks, end, memUsed) == Ok((m, rest))
    ensures ParseFrom(toks, end, memUsed, mods) == ParseFrom(rest, end, memUsed + |m.code|, mods + [m])
    ensures memUsed + |m.code| == Size(mods + [m])
    ensures Pass1Symbols(mods + [m])
            == DefineFrom(m.defs, 0, |m.code|, memUsed, |mods| + 1, Pass1Symbols(mods).0, Pass1Symbols(mods).1)
  {
    ParseFromGoesOn(toks, end, memUsed, mods, m, rest);
    SizeAppend(mods, m);
    Pass1SymbolsAppend(mods, m);
  }

  /** Pass 1 over the tokens that remain, with a fresh symbol table. It
      reads exactly the modules ParseFrom reads and leaves the table and the
      warnings Pass1Symbols gives for them; it ends with the listing when
      input ran out cleanly, or with the first parse error. */
  method Pass1(tz: Tokenizer, symTab: SymTab) returns (warnings: seq<Warning>, listing: Result<seq<SymbolLine>, ParseError>)
    requires tz.Valid() && symTab.Valid() && symTab.syms == [] && symTab.table == map[]
    modifies tz, symTab
    ensures tz.Valid() && symTab.Valid()
    ensures var (mods, err) := ParseFrom(old(tz.Remaining()), EndOf(tz.input), 0, []);
            && (symTab.State(), warnings) == Pass1Symbols(mods)
            && (err.Some? ==> listing == Err(err.value))
            && (err.None? ==> tz.Remaining() == [] && listing == Ok(Listing(symTab.State())))
  {
    var moduleBase: nat, moduleCounter: nat, memUsed: nat := 0, 0, 0;
    warnings := [];
    ghost var fin := EndOf(tz.input);
    ghost var mods: seq<ModuleText> := [];
    ghost var outcome := ParseFrom(tz.Remaining(), fin, 0, []);
    while !tz.IsEnd()
      invariant tz.Valid() && symTab.Valid()
      invariant ParseFrom(tz.Remaining(), fin, memUsed, mods) == outcome
      invariant moduleBase == memUsed == Size(mods) && moduleCounter == |mods|
      invariant (symTab.State(), warnings) == Pass1Symbols(mods)
      decreases |tz.Remaining()|
    {
      moduleCounter := moduleCounter + 1;
      var r;
      ghost var m;
      r, warnings, m := Pass1Module(tz, symTab, moduleCounter, moduleBase, memUsed, warnings, mods);
      if r.Err? {
        return warnings, Err(r.error);
      }
      memUsed := memUsed + r.value;
      moduleBase := moduleBase + r.value;
      mods := mods + [m];
    }
    var lines := symTab.Print();
    listing := Ok(lines);
  }
}
