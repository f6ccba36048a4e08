/** Pass 2: re-reads the modules Pass 1 accepted, without validating them
    again, resolves every instruction word into the memory map, prints each
    memory-map line as it is stored and warns about unused use-list names
    and unused symbols. Proved against Linking.LinkFrom. */
module SecondPass {
  import opened Wrappers
  import opened Text
  import opened Diagnostics
  import opened Lexer
  import opened Syntax
  import opened Symbols
  import opened Memory
  import opened Resolver
  import opened Scanner
  import opened Linking

  /** The definition-list loop of Pass 2: `n` (symbol, value) pairs, read
      without checks and dropped. */
  method SkipDefList(tz: Tokenizer, n: nat, ghost defs: seq<Def>, ghost rest: seq<Token>)
    requires tz.Valid() && ReadDefs(tz.Remaining(), EndOf(tz.input), n, []) == Ok((defs, rest))
    modifies tz
    ensures tz.Valid() && tz.Remaining() == rest
  {
    ReadDefsTokens(tz.Remaining(), EndOf(tz.input), n, [], defs, rest);
    for i := 0 to n
      invariant tz.Valid() && DefTokens(tz.Remaining(), defs[i..], rest)
    {
      assert defs[i..][1..] == defs[i + 1..];
      ghost var t := tz.Remaining();
      var sym := tz.ReadSym(false);
      var val := tz.ReadInt(false, Plain);
      assert tz.Remaining() == t[2..];
    }
  }

  /** The use-list loop of Pass 2: the `n` names, each not yet used. */
  method ReadUseList(tz: Tokenizer, n: nat, ghost names: seq<string>, ghost rest: seq<Token>) returns (uselist: array<Use>)
    requires tz.Valid() && ReadUses(tz.Remaining(), EndOf(tz.input), n, []) == Ok((names, rest))
    modifies tz
    ensures tz.Valid() && tz.Remaining() == rest
    ensures fresh(uselist) && uselist[..] == FreshUses(names)
  {
    ReadUsesTokens(tz.Remaining(), EndOf(tz.input), n, [], names, rest);
    uselist := new Use[n](_ => Use("", false));
    for i := 0 to n
      invariant tz.Valid() && UseTokens(tz.Remaining(), names[i..], rest)
      invariant forall j :: 0 <= j < i ==> uselist[j] == Use(names[j], false)
    {
      assert names[i..][1..] == names[i + 1..];
      var sym := tz.ReadSym(false);
      uselist[i] := Use(sym.value, false);
    }
  }

  /** The tokens of a definition list as Pass 2 reads them, up to `rest`:
      each name, then a numeral its value is read from. */
  ghost predicate DefTokens(toks: seq<Token>, defs: seq<Def>, rest: seq<Token>)
    decreases defs
  {
    if defs == [] then toks == rest
    else
      && |toks| >= 2 && IsNumber(toks[1].text)
      && DefTokens(toks[2..], defs[1..], rest)
  }

  /** The tokens of a use list as Pass 2 reads them, up to `rest`: one
      name per token. */
  ghost predicate UseTokens(toks: seq<Token>, names: seq<string>, rest: seq<Token>)
    decreases names
  {
    if names == [] then toks == rest
    else |toks| >= 1 && toks[0].text == names[0] && UseTokens(toks[1..], names[1..], rest)
  }

  /** What ReadDefs accepted is laid out in the tokens as DefTokens says. */
  lemma {:induction false} ReadDefsTokens(toks: seq<Token>, end: EndPos, n: nat, acc: seq<Def>,
                                          defs: seq<Def>, rest: seq<Token>)
    requires ReadDefs(toks, end, n, acc) == Ok((defs, rest))
    ensures |acc| <= |defs| == |acc| + n && DefTokens(toks, defs[|acc|..], rest)
    decreases n
  {
    if n == 0 {
      assert defs[|acc|..] == [];
    } else {
      var sym := ReadSymbol(toks, end).value;
      var val := ReadNumber(toks[1..], end, Plain).value;
      var acc' := acc + [Def(sym, val)];
      ReadDefsTokens(toks[2..], end, n - 1, acc', defs, rest);
      assert defs[|acc|..][1..] == defs[|acc'|..];
    }
  }

  /** What ReadUses accepted is laid out in the tokens as UseTokens says. */
  lemma {:induction false} ReadUsesTokens(toks: seq<Token>, end: EndPos, n: nat, acc: seq<string>,
                                          names: seq<string>, rest: seq<Token>)
    requires ReadUses(toks, end, n, acc) == Ok((names, rest))
    ensures |acc| <= |names| == |acc| + n && UseTokens(toks, names[|acc|..], rest)
    decreases n
  {
    if n == 0 {
      assert names[|acc|..] == [];
    } else {
      var sym := ReadSymbol(toks, end).value;
      var acc' := acc + [sym];
      ReadUsesTokens(toks[1..], end, n - 1, acc', names, rest);
      assert names[..|acc'|] == acc';
      assert names[|acc|..][1..] == names[|acc'|..];
    }
  }

  /** The instruction loop of Pass 2 for a module of `instcount` words at
      base `moduleBase`: each word is resolved, stored in the memory map and
      its memory-map line printed, as ResolveFrom says. */
  method ResolveModule(tz: Tokenizer, symTab: SymTab, memMap: MemMap, uselist: array<Use>,
                       moduleBase: nat, instcount: nat, out: seq<Output>, ghost code: seq<Instr>, ghost rest: seq<Token>)
      returns (out': seq<Output>)
    requires tz.Valid() && symTab.Valid() && ModesValid(code)
    requires ReadCode(tz.Remaining(), EndOf(tz.input), instcount, []) == Ok((code, rest))
    modifies tz, symTab, memMap, uselist
    ensures tz.Valid() && symTab.Valid() && tz.Remaining() == rest
    ensures symTab.syms == old(symTab.syms)
    ensures ResolveFrom(code, 0, moduleBase, old(uselist[..]), old(symTab.table), old(memMap.memMap), out)
            == Run(uselist[..], symTab.table, memMap.memMap, out')
  {
    ghost var target := ResolveFrom(code, 0, moduleBase, uselist[..], symTab.table, memMap.memMap, out);
    ReadCodeTokens(tz.Remaining(), EndOf(tz.input), instcount, [], code, rest);
    out' := out;
    for i := 0 to instcount
      invariant tz.Valid() && symTab.Valid() && symTab.syms == old(symTab.syms)
      invariant i <= |code| == instcount && CodeTokens(tz.Remaining(), code[i..], rest)
      invariant ResolveFrom(code, i, moduleBase, uselist[..], symTab.table, memMap.memMap, out') == target
    {
      assert code[i..][1..] == code[i + 1..];
      out' := ResolveWord(tz, symTab, memMap, uselist, moduleBase, instcount, out', code, i);
    }
  }

  /** One pass of the instruction loop: the mode and the word of
      instruction `i` are read, the word resolved, appended to the memory map
      and its line printed: one step of ResolveFrom. */
  method ResolveWord(tz: Tokenizer, symTab: SymTab, memMap: MemMap, uselist: array<Use>, moduleBase: nat,
                     instcount: nat, out: seq<Output>, ghost code: seq<Instr>, ghost i: nat)
      returns (out': seq<Output>)
    requires tz.Valid() && symTab.Valid() && i < |code| == instcount && ModesValid(code)
    requires |tz.Remaining()| >= 2 && tz.Remaining()[0].text == [code[i].mode]
    requires IsNumber(tz.Remaining()[1].text) && Value(tz.Remaining()[1].text) == code[i].word
    modifies tz, symTab, memMap, uselist
    ensures tz.Valid() && symTab.Valid() && symTab.syms == old(symTab.syms)
    ensures tz.Remaining() == old(tz.Remaining())[2..]
    ensures ResolveFrom(code, i, moduleBase, old(uselist[..]), old(symTab.table), old(memMap.memMap), out)
            == ResolveFrom(code, i + 1, moduleBase, uselist[..], symTab.table, memMap.memMap, out')
  {
    ghost var t := tz.Remaining();
    var m := tz.ReadIAER(false);
    assert tz.Remaining() == t[1..];
    var info := tz.ReadInstr(m.value, moduleBase, instcount, uselist, symTab);
    memMap.AllocateMem(info.val, info.err, info.sym);
    var line := memMap.Print();
    out' := out + [Entry(line)];
  }

  /** The tokens of `code` as Pass 2 reads them, up to `rest`: each
      instruction's mode token, then its word. */
  ghost predicate CodeTokens(toks: seq<Token>, code: seq<Instr>, rest: seq<Token>)
    decreases code
  {
    if code == [] then toks == rest
    else
      && |toks| >= 2 && toks[0].text == [code[0].mode]
      && IsNumber(toks[1].text) && Value(toks[1].text) == code[0].word
      && CodeTokens(toks[2..], code[1..], rest)
  }

  /** What ReadCode accepted is laid out in the tokens as CodeTokens says. */
  lemma {:induction false} ReadCodeTokens(toks: seq<Token>, end: EndPos, n: nat, acc: seq<Instr>,
                                          code: seq<Instr>, rest: seq<Token>)
    requires ReadCode(toks, end, n, acc) == Ok((code, rest))
    ensures |acc| <= |code| && CodeTokens(toks, code[|acc|..], rest)
    decreases n
  {
    if n == 0 {
      assert code[|acc|..] == [];
    } else {
      var mode := ReadMode(toks, end).value;
      var word := ReadNumber(toks[1..], end, Plain).value;
      var acc' := acc + [Instr(mode, word)];
      ReadCodeTokens(toks[2..], end, n - 1, acc', code, rest);
      assert code[..|acc'|] == acc';
      assert code[|acc|..][1..] == code[|acc'|..];
    }
  }

  /** The unused-use warnings of Pass 2: one per use-list slot still unused,
      in slot order. */
  method WarnUnusedUses(uselist: array<Use>, moduleCounter: nat) returns (ws: seq<Output>)
    ensures ws == UnusedUseWarnings(uselist[..], moduleCounter)
  {
    ws := [];
    for i := 0 to uselist.Length
      invariant ws == UnusedUseWarnings(uselist[..i], moduleCounter)
    {
      assert uselist[..i + 1][..i] == uselist[..i];
      if !uselist[i].used {
        ws := ws + [Warn(UnusedUse(moduleCounter, uselist[i].sym))];
      }
    }
    assert uselist[..] == uselist[..uselist.Length];
  }

  /** One module of Pass 2, the one Pass 1 read at the head of the input
      when `moduleBase` instructions preceded it: its lists are re-read
      without checks (the instruction count is read with the plain check),
      its words resolved and its unused use-list names warned about, as
      LinkModule says. Returns the module's instruction count. */
  method LinkModuleAt(tz: Tokenizer, symTab: SymTab, memMap: MemMap, moduleBase: nat, moduleCounter: nat,
                      out: seq<Output>, ghost m: ModuleText, ghost rest: seq<Token>)
      returns (instcount: nat, out': seq<Output>)
    requires tz.Valid() && symTab.Valid()
    requires ParseModule(tz.Remaining(), EndOf(tz.input), moduleBase) == Ok((m, rest))
    modifies tz, symTab, memMap
    ensures tz.Valid() && symTab.Valid() && symTab.syms == old(symTab.syms) && tz.Remaining() == rest
    ensures instcount == |m.code| && ModesValid(m.code)
    ensures LinkModule(m, moduleBase, moduleCounter, old(symTab.table), old(memMap.memMap), out)
            == Image(symTab.table, memMap.memMap, out')
  {
    ghost var fin := EndOf(tz.input);
    ghost var t := tz.Remaining();
    ghost var t1, t2 := ParseModuleStages(t, fin, moduleBase);
    var defcount := tz.ReadInt(false, Plain);
    SkipDefList(tz, defcount.value, m.defs, t1);
    var usecount := tz.ReadInt(false, Plain);
    assert tz.Remaining() == t1[1..];
    var uselist := ReadUseList(tz, usecount.value, m.uses, t2);
    var r := tz.ReadInt(true, Plain);
    assert r == Ok(|m.code|);
    instcount := r.value;
    out' := ResolveModule(tz, symTab, memMap, uselist, moduleBase, instcount, out, m.code, rest);
    var ws := WarnUnusedUses(uselist, moduleCounter);
    out' := out' + ws;
  }

  /** One turn of Pass 2's module loop, with `moduleCounter` modules behind
      it: the next module Pass 1 read is linked, one step of LinkFrom. */
  method Pass2Module(tz: Tokenizer, symTab: SymTab, memMap: MemMap, moduleBase: nat, moduleCounter: nat,
                     out: seq<Output>, ghost mods: seq<ModuleText>)
      returns (instcount: nat, out': seq<Output>)
    requires tz.Valid() && symTab.Valid() && tz.Remaining() != [] && moduleCounter <= |mods| && AllValid(mods)
    requires ParseFrom(tz.Remaining(), EndOf(tz.input), moduleBase, mods[..moduleCounter]) == (mods, None)
    modifies tz, symTab, memMap
    ensures tz.Valid() && symTab.Valid() && symTab.syms == old(symTab.syms)
    ensures moduleCounter < |mods| && instcount == |mods[moduleCounter].code|
    ensures |tz.Remaining()| < |old(tz.Remaining())|
    ensures ParseFrom(tz.Remaining(), EndOf(tz.input), moduleBase + instcount, mods[..moduleCounter + 1]) == (mods, None)
    ensures LinkFrom(mods, moduleCounter, moduleBase, old(symTab.table), old(memMap.memMap), out)
            == LinkFrom(mods, moduleCounter + 1, moduleBase + instcount, symTab.table, memMap.memMap, out')
  {
    ghost var m, rest := Pass2Next(tz.Remaining(), EndOf(tz.input), moduleBase, mods, moduleCounter);
    ghost var table, mem := symTab.table, memMap.memMap;
    instcount, out' := LinkModuleAt(tz, symTab, memMap, moduleBase, moduleCounter + 1, out, m, rest);
    LinkFromNext(mods, moduleCounter, moduleBase, table, mem, out, Image(symTab.table, memMap.memMap, out'));
  }

  /** Pass 2 over the input Pass 1 read in full without a fatal error: every
      module is linked in turn, the first at base 0, numbered from 1, and
      then the defined-but-never-used symbols are warned about. The result
      is LinkFrom over the modules Pass 1 read. */
  method Pass2(tz: Tokenizer, symTab: SymTab, memMap: MemMap, ghost mods: seq<ModuleText>)
      returns (out: seq<Output>, unused: seq<Warning>)
    requires tz.Valid() && symTab.Valid()
    requires ParseFrom(tz.Remaining(), EndOf(tz.input), 0, []) == (mods, None)
    modifies tz, symTab, memMap
    ensures AllValid(mods)
    ensures tz.Valid() && tz.Remaining() == [] && symTab.Valid() && symTab.syms == old(symTab.syms)
    ensures LinkFrom(mods, 0, 0, old(symTab.table), old(memMap.memMap), []) == Image(symTab.table, memMap.memMap, out)
    ensures unused == UnusedDefs(symTab.syms, symTab.table)
  {
    ghost var fin := EndOf(tz.input);
    ParsedModesValid(tz.Remaining(), fin, mods);
    assert mods[..0] == [];
    ghost var target := LinkFrom(mods, 0, 0, symTab.table, memMap.memMap, []);
    var moduleBase: nat, moduleCounter: nat := 0, 0;
    out := [];
    while !tz.IsEnd()
      invariant tz.Valid() && symTab.Valid() && symTab.syms == old(symTab.syms)
      invariant moduleCounter <= |mods|
      invariant ParseFrom(tz.Remaining(), fin, moduleBase, mods[..moduleCounter]) == (mods, None)
      invariant LinkFrom(mods, moduleCounter, moduleBase, symTab.table, memMap.memMap, out) == target
      decreases |tz.Remaining()|
    {
      var instcount;
      instcount, out := Pass2Module(tz, symTab, memMap, moduleBase, moduleCounter, out, mods);
      moduleBase := moduleBase + instcount;
      moduleCounter := moduleCounter + 1;
    }
    assert mods[..moduleCounter] == mods;
    unused := symTab.PrintWarning();
  }

  /** Pass 1 read every module of `mods` from these tokens: the modes of their
      words are all valid. */
  lemma ParsedModesValid(toks: seq<Token>, end: EndPos, mods: seq<ModuleText>)
    requires ParseFrom(toks, end, 0, []) == (mods, None)
    ensures AllValid(mods)
  {
    ParseFromValid(toks, end, 0, []);
    forall k, j | 0 <= k < |mods| && 0 <= j < |mods[k].code| ensures IsMode(mods[k].code[j].mode) {
      assert ValidModule(mods[k]);
    }
  }

  /** Where Pass 1 read modules `mods` without a fatal error and the first
      `k` of them are behind, tokens that remain begin with module `k`. */
  lemma Pass2Next(toks: seq<Token>, end: EndPos, base: nat, mods: seq<ModuleText>, k: nat)
      returns (m: ModuleText, rest: seq<Token>)
    requires toks != [] && k <= |mods| && ParseFrom(toks, end, base, mods[..k]) == (mods, None)
    ensures k < |mods| && m == mods[k] && |rest| < |toks|
    ensures ParseModule(toks, end, base) == Ok((m, rest))
    ensures ParseFrom(rest, end, base + |m.code|, mods[..k + 1]) == (mods, None)
  {
    if ParseModule(toks, end, base).Err? {
      ParseFromStops(toks, end, base, mods[..k]);
      assert false;
    }
    m, rest := ParseModule(toks, end, base).value.0, ParseModule(toks, end, base).value.1;
    ParseFromGoesOn(toks, end, base, mods[..k], m, rest);
    ParseFromExtends(rest, end, base + |m.code|, mods[..k] + [m]);
    assert mods[..k + 1] == mods[..k] + [m];
  }
}
