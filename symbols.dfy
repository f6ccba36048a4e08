/** The symbol table: the names in first-definition order plus a map from
    each name to its entry. Pass 1 fills it; Pass 2 only marks entries used.
    The pure functions below say what Pass 1 leaves in it. */
module Symbols {
  import opened Wrappers
  import opened Diagnostics
  import opened Syntax

  /** A symbol's entry: its absolute value, the (1-based) module that first
      defined it, whether an E-mode operand has resolved to it, and whether
      it was defined more than once. */
  datatype SymInfo = SymInfo(val: int, loc: nat, used: bool, multiDefined: bool)

  /** The table as a value: names in first-definition order, and the entries. */
  datatype SymState = SymState(syms: seq<string>, table: map<string, SymInfo>)

  /** One line of the symbol-table listing. */
  datatype SymbolLine = SymbolLine(sym: string, val: int, err: Option<LinkError>)

  predicate NoDup(s: seq<string>)
  {
    forall i, j :: 0 <= i < j < |s| ==> s[i] != s[j]
  }

  /** The names and the map agree, and no name is listed twice. */
  ghost predicate Consistent(st: SymState)
  {
    (forall s :: s in st.table <==> s in st.syms) && NoDup(st.syms)
  }

  class SymTab {
    var syms: seq<string>
    var table: map<string, SymInfo>

    ghost predicate Valid()
      reads this
    {
      Consistent(State())
    }

    function State(): SymState
      reads this
    {
      SymState(syms, table)
    }

    constructor ()
      ensures Valid() && syms == [] && table == map[]
    {
      syms, table := [], map[];
    }

    /** Records the first definition of `sym`. */
    method CreateSymbol(sym: string, val: int, loc: nat)
      requires Valid() && sym !in table
      modifies this
      ensures Valid()
      ensures syms == old(syms) + [sym]
      ensures table == old(table)[sym := SymInfo(val, loc, false, false)]
    {
      syms := syms + [sym];
      table := table[sym := SymInfo(val, loc, false, false)];
    }

    /** Marks `sym` multiply defined and reports the redefinition by module `moduleCounter`. */
    method SetMulDefErr(sym: string, moduleCounter: nat) returns (w: Warning)
      requires Valid() && sym in table
      modifies this
      ensures Valid() && syms == old(syms)
      ensures table == old(table)[sym := old(table)[sym].(multiDefined := true)]
      ensures w == Redefined(moduleCounter, sym)
    {
      table := table[sym := table[sym].(multiDefined := true)];
      w := Redefined(moduleCounter, sym);
    }

    predicate SymExist(sym: string)
      reads this
    {
      sym in table
    }

    /** Marks `sym` as referenced, which suppresses its unused-definition warning. */
    method SetUsedWarn(sym: string)
      requires Valid() && sym in table
      modifies this
      ensures Valid() && syms == old(syms)
      ensures table == old(table)[sym := old(table)[sym].(used := true)]
    {
      table := table[sym := table[sym].(used := true)];
    }

    function GetVal(sym: string): int
      reads this
      requires sym in table
    {
      table[sym].val
    }

    /** The symbol-table listing, built line by line. */
    method Print() returns (lines: seq<SymbolLine>)
      requires Valid()
      ensures lines == Listing(State())
    {
      lines := [];
      for i := 0 to |syms|
        invariant lines == Listing(SymState(syms[..i], table))
      {
        assert syms[..i + 1][..i] == syms[..i];
        var info := table[syms[i]];
        lines := lines + [SymbolLine(syms[i], info.val, if info.multiDefined then Some(MultiplyDefined) else None)];
      }
      assert syms[..|syms|] == syms;
    }

    /** The unused-definition warnings, in first-definition order. */
    method PrintWarning() returns (ws: seq<Warning>)
      requires Valid()
      ensures ws == UnusedDefs(syms, table)
    {
      ws := [];
      for i := 0 to |syms|
        invariant ws == UnusedDefs(syms[..i], table)
      {
        assert syms[..i + 1][..i] == syms[..i];
        if !table[syms[i]].used {
          ws := ws + [UnusedDef(table[syms[i]].loc, syms[i])];
        }
      }
      assert syms[..|syms|] == syms;
    }
  }

  /** The symbol-table listing: one line per name in first-definition
      order, with its value, flagged when the name was defined more than once. */
  function Listing(st: SymState): seq<SymbolLine>
    requires forall s :: s in st.syms ==> s in st.table
    decreases |st.syms|
  {
    if st.syms == [] then []
    else
      var n := |st.syms| - 1;
      var info := st.table[st.syms[n]];
      Listing(SymState(st.syms[..n], st.table))
        + [SymbolLine(st.syms[n], info.val, if info.multiDefined then Some(MultiplyDefined) else None)]
  }

  lemma {:induction false} ListingLines(st: SymState)
    requires forall s :: s in st.syms ==> s in st.table
    ensures |Listing(st)| == |st.syms|
    ensures forall i :: 0 <= i < |st.syms| ==>
              var info := st.table[st.syms[i]];
              Listing(st)[i] == SymbolLine(st.syms[i], info.val, if info.multiDefined then Some(MultiplyDefined) else None)
    decreases |st.syms|
  {
    if st.syms != [] {
      ListingLines(SymState(st.syms[..|st.syms| - 1], st.table));
    }
  }

  /** The listing Pass 1 prints names every defined name once, in order of
      first definition, with the value its first definition gave it, and
      flags exactly the names defined more than once. */
  lemma Pass1Listing(mods: seq<ModuleText>)
    ensures Consistent(Pass1Symbols(mods).0)
    ensures var st := Pass1Symbols(mods).0;
            && |Listing(st)| == |Dedup(DefNames(mods))|
            && forall i :: 0 <= i < |Listing(st)| ==>
                 && Listing(st)[i].sym == Dedup(DefNames(mods))[i]
                 && (Listing(st)[i].err == Some(MultiplyDefined) <==> Count(DefNames(mods), Listing(st)[i].sym) >= 2)
                 && (Listing(st)[i].err.None? <==> Count(DefNames(mods), Listing(st)[i].sym) == 1)
  {
    Pass1Tracks(mods);
    SymbolsInFirstDefinitionOrder(mods);
    var st := Pass1Symbols(mods).0;
    ListingLines(st);
    forall i | 0 <= i < |st.syms|
      ensures Count(DefNames(mods), st.syms[i]) >= 1
    {
      CountPositive(DefNames(mods), st.syms[i]);
    }
  }

  /** One warning per name never marked used, naming the module that defined it. */
  function UnusedDefs(syms: seq<string>, table: map<string, SymInfo>): seq<Warning>
    requires forall s :: s in syms ==> s in table
  {
    if syms == [] then []
    else
      var last := syms[|syms| - 1];
      UnusedDefs(syms[..|syms| - 1], table)
        + (if table[last].used then [] else [UnusedDef(table[last].loc, last)])
  }

  /** A name gets an unused-definition warning exactly when it was never
      marked used, and every such warning is of that kind. */
  lemma {:induction false} UnusedDefsExactly(syms: seq<string>, table: map<string, SymInfo>)
    requires forall s :: s in syms ==> s in table
    ensures forall w :: w in UnusedDefs(syms, table) ==>
              w.UnusedDef? && w.sym in syms && !table[w.sym].used && w.moduleNum == table[w.sym].loc
    ensures forall s :: s in syms && !table[s].used ==> UnusedDef(table[s].loc, s) in UnusedDefs(syms, table)
  {
    if syms != [] {
      var init := syms[..|syms| - 1];
      UnusedDefsExactly(init, table);
      assert syms == init + [syms[|syms| - 1]];
    }
  }

  /** The value Pass 1 gives a first definition: its offset relocated by the
      module base, or the base itself when the offset is outside the module. */
  function Relocate(val: nat, size: nat, base: nat): int
  {
    if val < size then val + base else base
  }

  /** Pass 1's handling of one definition of module `counter` (1-based),
      whose base is `base` and whose instruction count is `size`. */
  function Define(st: SymState, d: Def, size: nat, base: nat, counter: nat): (r: (SymState, seq<Warning>))
  {
    if d.sym !in st.table then
      var info := SymInfo(Relocate(d.val, size, base), counter, false, false);
      var ws := if d.val < size then [] else [TooBig(counter, d.sym, d.val, size - 1)];
      (SymState(st.syms + [d.sym], st.table[d.sym := info]), ws)
    else
      (SymState(st.syms, st.table[d.sym := st.table[d.sym].(multiDefined := true)]), [Redefined(counter, d.sym)])
  }

  /** Pass 1's handling of the definitions of one module from index `i` on. */
  function DefineFrom(defs: seq<Def>, i: nat, size: nat, base: nat, counter: nat,
                      st: SymState, ws: seq<Warning>): (SymState, seq<Warning>)
    requires i <= |defs|
    decreases |defs| - i
  {
    if i == |defs| then (st, ws)
    else
      var (st', w) := Define(st, defs[i], size, base, counter);
      DefineFrom(defs, i + 1, size, base, counter, st', ws + w)
  }

  /** The symbol table and the warnings Pass 1 produces from the modules it read. */
  function Pass1Symbols(mods: seq<ModuleText>): (SymState, seq<Warning>)
  {
    if mods == [] then (SymState([], map[]), [])
    else
      var n := |mods| - 1;
      var (st, ws) := Pass1Symbols(mods[..n]);
      DefineFrom(mods[n].defs, 0, |mods[n].code|, Size(mods[..n]), n + 1, st, ws)
  }

  /** Pass 1 enters the definitions of each further module in turn. */
  lemma Pass1SymbolsAppend(mods: seq<ModuleText>, m: ModuleText)
    ensures Pass1Symbols(mods + [m])
            == DefineFrom(m.defs, 0, |m.code|, Size(mods), |mods| + 1, Pass1Symbols(mods).0, Pass1Symbols(mods).1)
  {
    assert (mods + [m])[..|mods|] == mods;
  }

  /** The names a list of definitions defines, in order. */
  function Names(defs: seq<Def>): (r: seq<string>)
    ensures |r| == |defs| && forall i :: 0 <= i < |defs| ==> r[i] == defs[i].sym
  {
    seq(|defs|, i requires 0 <= i < |defs| => defs[i].sym)
  }

  lemma NamesFrom(defs: seq<Def>, i: nat)
    requires i < |defs|
    ensures Names(defs[i..]) == [defs[i].sym] + Names(defs[i + 1..])
  {
  }

  /** Every name defined by a sequence of modules, in definition order. */
  function DefNames(mods: seq<ModuleText>): seq<string>
  {
    if mods == [] then [] else DefNames(mods[..|mods| - 1]) + Names(mods[|mods| - 1].defs)
  }

  /** The first occurrence of each name, in order. */
  function Dedup(xs: seq<string>): seq<string>
  {
    if xs == [] then []
    else
      var d := Dedup(xs[..|xs| - 1]);
      if xs[|xs| - 1] in d then d else d + [xs[|xs| - 1]]
  }

  /** How often `x` occurs in `xs`. */
  function Count(xs: seq<string>, x: string): nat
  {
    if xs == [] then 0
    else Count(xs[..|xs| - 1], x) + (if xs[|xs| - 1] == x then 1 else 0)
  }

  lemma {:induction false} DedupProps(xs: seq<string>)
    ensures NoDup(Dedup(xs))
    ensures forall x :: x in Dedup(xs) <==> x in xs
  {
    if xs != [] {
      var init := xs[..|xs| - 1];
      DedupProps(init);
      assert xs == init + [xs[|xs| - 1]];
    }
  }

  lemma CountPositive(xs: seq<string>, x: string)
    ensures x in xs <==> Count(xs, x) > 0
  {
    if xs != [] {
      var init := xs[..|xs| - 1];
      CountPositive(init, x);
      assert xs == init + [xs[|xs| - 1]];
    }
  }

  /** `st` is what Pass 1 has built after seeing the definitions `names`:
      names listed once in first-definition order, an entry exactly for each
      defined name, flagged exactly when the name was defined again. */
  ghost predicate Tracks(st: SymState, names: seq<string>)
  {
    && st.syms == Dedup(names)
    && (forall s :: s in st.table <==> s in names)
    && (forall s :: s in st.table ==> (st.table[s].multiDefined <==> Count(names, s) >= 2))
  }

  lemma DefineTracks(st: SymState, d: Def, size: nat, base: nat, counter: nat, names: seq<string>)
    requires Tracks(st, names)
    ensures Tracks(Define(st, d, size, base, counter).0, names + [d.sym])
  {
    var names' := names + [d.sym];
    var st' := Define(st, d, size, base, counter).0;
    assert names'[..|names|] == names;
    DedupProps(names);
    CountPositive(names, d.sym);
    assert st'.syms == Dedup(names');
    forall s | s in st'.table
      ensures st'.table[s].multiDefined <==> Count(names', s) >= 2
    {
      assert Count(names', s) == Count(names, s) + (if d.sym == s then 1 else 0);
    }
  }

  lemma {:induction false} DefineFromTracks(defs: seq<Def>, i: nat, size: nat, base: nat, counter: nat,
                                            st: SymState, ws: seq<Warning>, names: seq<string>)
    requires i <= |defs| && Tracks(st, names)
    ensures Tracks(DefineFrom(defs, i, size, base, counter, st, ws).0, names + Names(defs[i..]))
    decreases |defs| - i
  {
    if i < |defs| {
      var r := Define(st, defs[i], size, base, counter);
      var names' := names + [defs[i].sym];
      DefineTracks(st, defs[i], size, base, counter, names);
      DefineFromTracks(defs, i + 1, size, base, counter, r.0, ws + r.1, names');
      NamesFrom(defs, i);
      AppendAssoc(names, [defs[i].sym], Names(defs[i + 1..]));
      assert DefineFrom(defs, i, size, base, counter, st, ws) == DefineFrom(defs, i + 1, size, base, counter, r.0, ws + r.1);
    } else {
      assert names + Names(defs[i..]) == names;
    }
  }

  lemma {:induction false} Pass1Tracks(mods: seq<ModuleText>)
    ensures Tracks(Pass1Symbols(mods).0, DefNames(mods))
  {
    if mods != [] {
      var n := |mods| - 1;
      Pass1Tracks(mods[..n]);
      var (st, ws) := Pass1Symbols(mods[..n]);
      DefineFromTracks(mods[n].defs, 0, |mods[n].code|, Size(mods[..n]), n + 1, st, ws, DefNames(mods[..n]));
      assert mods[n].defs[0..] == mods[n].defs;
    }
  }

  /** After Pass 1 the table lists each defined name exactly once, in the
      order of first definition, and holds an entry for exactly those names. */
  lemma SymbolsInFirstDefinitionOrder(mods: seq<ModuleText>)
    ensures Pass1Symbols(mods).0.syms == Dedup(DefNames(mods))
    ensures Consistent(Pass1Symbols(mods).0)
    ensures forall s :: s in Pass1Symbols(mods).0.table <==> s in DefNames(mods)
  {
    Pass1Tracks(mods);
    DedupProps(DefNames(mods));
  }

  /** A name is flagged multiply defined exactly when it is defined more than
      once, in one module or across modules. */
  lemma MultiplyDefinedIffRedefined(mods: seq<ModuleText>, s: string)
    requires s in Pass1Symbols(mods).0.table
    ensures Pass1Symbols(mods).0.table[s].multiDefined <==> Count(DefNames(mods), s) >= 2
  {
    Pass1Tracks(mods);
  }

  lemma {:induction false} DefineFromKeepsEntries(defs: seq<Def>, i: nat, size: nat, base: nat, counter: nat,
                                                  st: SymState, ws: seq<Warning>)
    requires i <= |defs|
    ensures var st' := DefineFrom(defs, i, size, base, counter, st, ws).0;
            forall s :: s in st.table ==> s in st'.table && st'.table[s].val == st.table[s].val
                                                        && st'.table[s].loc == st.table[s].loc
    decreases |defs| - i
  {
    if i < |defs| {
      var (st', w) := Define(st, defs[i], size, base, counter);
      DefineFromKeepsEntries(defs, i + 1, size, base, counter, st', ws + w);
    }
  }

  /** A redefinition, in the same module or a later one, never changes a
      name's value or the module it is attributed to. */
  lemma {:induction false} ValueFixedOnceDefined(mods: seq<ModuleText>, k: nat)
    requires k <= |mods|
    ensures var early, late := Pass1Symbols(mods[..k]).0, Pass1Symbols(mods).0;
            forall s :: s in early.table ==> s in late.table && late.table[s].val == early.table[s].val
                                                             && late.table[s].loc == early.table[s].loc
    decreases |mods|
  {
    if k == |mods| {
      assert mods[..k] == mods;
    } else {
      var n := |mods| - 1;
      ValueFixedOnceDefined(mods[..n], k);
      assert mods[..n][..k] == mods[..k];
      var (st, ws) := Pass1Symbols(mods[..n]);
      DefineFromKeepsEntries(mods[n].defs, 0, |mods[n].code|, Size(mods[..n]), n + 1, st, ws);
    }
  }

  lemma {:induction false} DefineFromFirst(defs: seq<Def>, i0: nat, i: nat, size: nat, base: nat, counter: nat,
                                           st: SymState, ws: seq<Warning>)
    requires i0 <= i < |defs|
    requires defs[i].sym !in st.table
    requires forall j :: i0 <= j < i ==> defs[j].sym != defs[i].sym
    ensures var st' := DefineFrom(defs, i0, size, base, counter, st, ws).0;
            defs[i].sym in st'.table
            && st'.table[defs[i].sym].val == Relocate(defs[i].val, size, base)
            && st'.table[defs[i].sym].loc == counter
    decreases i - i0
  {
    var (st', w) := Define(st, defs[i0], size, base, counter);
    if i0 == i {
      DefineFromKeepsEntries(defs, i0 + 1, size, base, counter, st', ws + w);
    } else {
      DefineFromFirst(defs, i0 + 1, i, size, base, counter, st', ws + w);
    }
  }

  /** The first definition of a name fixes its entry for good: its offset
      relocated by its module's base (or the base itself when the offset
      is outside the module), attributed to that module. */
  lemma FirstDefinitionFixesValue(mods: seq<ModuleText>, k: nat, i: nat)
    requires k < |mods| && i < |mods[k].defs|
    requires mods[k].defs[i].sym !in DefNames(mods[..k])
    requires forall j :: 0 <= j < i ==> mods[k].defs[j].sym != mods[k].defs[i].sym
    ensures var d, st := mods[k].defs[i], Pass1Symbols(mods).0;
            d.sym in st.table
            && st.table[d.sym].val == Relocate(d.val, |mods[k].code|, Base(mods, k))
            && st.table[d.sym].loc == k + 1
  {
    var pre := mods[..k + 1];
    assert pre[..k] == mods[..k];
    Pass1Tracks(mods[..k]);
    var (st, ws) := Pass1Symbols(mods[..k]);
    DefineFromFirst(mods[k].defs, 0, i, |mods[k].code|, Size(mods[..k]), k + 1, st, ws);
    ValueFixedOnceDefined(mods, k + 1);
  }

  lemma {:induction false} DefineFromBounded(defs: seq<Def>, i: nat, size: nat, base: nat, counter: nat,
                                             st: SymState, ws: seq<Warning>)
    requires i <= |defs|
    requires forall s :: s in st.table ==> 0 <= st.table[s].val <= base + size
    ensures forall s :: s in DefineFrom(defs, i, size, base, counter, st, ws).0.table ==>
              0 <= DefineFrom(defs, i, size, base, counter, st, ws).0.table[s].val <= base + size
    decreases |defs| - i
  {
    if i < |defs| {
      var (st', w) := Define(st, defs[i], size, base, counter);
      assert Relocate(defs[i].val, size, base) <= base + size;
      assert forall s :: s in st'.table ==> 0 <= st'.table[s].val <= base + size;
      DefineFromBounded(defs, i + 1, size, base, counter, st', ws + w);
    }
  }

  /** Every symbol Pass 1 defines has an address inside the memory the
      modules occupy (or just past it, for a module without instructions). */
  lemma {:induction false} SymbolValuesWithinMemory(mods: seq<ModuleText>)
    ensures forall s :: s in Pass1Symbols(mods).0.table ==> 0 <= Pass1Symbols(mods).0.table[s].val <= Size(mods)
  {
    if mods != [] {
      var n := |mods| - 1;
      SymbolValuesWithinMemory(mods[..n]);
      var st, ws := Pass1Symbols(mods[..n]).0, Pass1Symbols(mods[..n]).1;
      assert forall s :: s in st.table ==> 0 <= st.table[s].val <= Size(mods[..n]);
      assert Size(mods) == Size(mods[..n]) + |mods[n].code|;
      DefineFromBounded(mods[n].defs, 0, |mods[n].code|, Size(mods[..n]), n + 1, st, ws);
    }
  }

  lemma {:induction false} DefineFromUnused(defs: seq<Def>, i: nat, size: nat, base: nat, counter: nat,
                                            st: SymState, ws: seq<Warning>)
    requires i <= |defs|
    requires forall s :: s in st.table ==> !st.table[s].used
    ensures forall s :: s in DefineFrom(defs, i, size, base, counter, st, ws).0.table ==>
              !DefineFrom(defs, i, size, base, counter, st, ws).0.table[s].used
    decreases |defs| - i
  {
    if i < |defs| {
      var (st', w) := Define(st, defs[i], size, base, counter);
      DefineFromUnused(defs, i + 1, size, base, counter, st', ws + w);
    }
  }

  /** Pass 1 marks no symbol used; only Pass 2 does. */
  lemma {:induction false} Pass1Unused(mods: seq<ModuleText>)
    ensures forall s :: s in Pass1Symbols(mods).0.table ==> !Pass1Symbols(mods).0.table[s].used
  {
    if mods != [] {
      var n := |mods| - 1;
      Pass1Unused(mods[..n]);
      var st, ws := Pass1Symbols(mods[..n]).0, Pass1Symbols(mods[..n]).1;
      DefineFromUnused(mods[n].defs, 0, |mods[n].code|, Size(mods[..n]), n + 1, st, ws);
    }
  }

  /** The out-of-module warning for definition `d` of module `counter` (of
      `size` instructions): the module, the name, the offset, and the
      largest offset the module has. */
  function OutOfModule(d: Def, size: nat, counter: nat): Warning
  {
    TooBig(counter, d.sym, d.val, size - 1)
  }

  /** The warning owed to definition `d` of module `counter` (of `size`
      instructions), stated from the names defined before it rather than
      from the table: a name seen before is a redefinition; otherwise a
      value outside the module is reported with the largest valid offset. */
  function DefWarnings(d: Def, before: seq<string>, size: nat, counter: nat): seq<Warning>
  {
    if d.sym in before then [Redefined(counter, d.sym)]
    else if d.val >= size then [OutOfModule(d, size, counter)]
    else []
  }

  /** The warnings owed to the definitions of one module from index `i` on,
      `before` being the names defined ahead of index `i`. */
  function ModuleWarnings(defs: seq<Def>, i: nat, before: seq<string>, size: nat, counter: nat): seq<Warning>
    requires i <= |defs|
    decreases |defs| - i
  {
    if i == |defs| then []
    else DefWarnings(defs[i], before, size, counter) + ModuleWarnings(defs, i + 1, before + [defs[i].sym], size, counter)
  }

  /** The warnings owed to the definitions of a sequence of modules, module
      by module, in the order they are written. */
  function Pass1Warnings(mods: seq<ModuleText>): seq<Warning>
  {
    if mods == [] then []
    else
      var n := |mods| - 1;
      Pass1Warnings(mods[..n]) + ModuleWarnings(mods[n].defs, 0, DefNames(mods[..n]), |mods[n].code|, n + 1)
  }

  lemma {:induction false} DefineFromWarnings(defs: seq<Def>, i: nat, size: nat, base: nat, counter: nat,
                                              st: SymState, ws: seq<Warning>, names: seq<string>)
    requires i <= |defs| && Tracks(st, names)
    ensures DefineFrom(defs, i, size, base, counter, st, ws).1 == ws + ModuleWarnings(defs, i, names, size, counter)
    decreases |defs| - i
  {
    if i < |defs| {
      var r := Define(st, defs[i], size, base, counter);
      assert r.1 == DefWarnings(defs[i], names, size, counter);
      DefineTracks(st, defs[i], size, base, counter, names);
      DefineFromWarnings(defs, i + 1, size, base, counter, r.0, ws + r.1, names + [defs[i].sym]);
      AppendAssoc(ws, r.1, ModuleWarnings(defs, i + 1, names + [defs[i].sym], size, counter));
    }
  }

  /** The warnings Pass 1 prints are exactly those owed definition by
      definition: a redefinition warning for each definition of a name
      defined before it, and an out-of-module warning for each first
      definition whose value is not below its module's instruction count. */
  lemma {:induction false} Pass1WarningsExactly(mods: seq<ModuleText>)
    ensures Pass1Symbols(mods).1 == Pass1Warnings(mods)
  {
    if mods != [] {
      var n := |mods| - 1;
      Pass1WarningsExactly(mods[..n]);
      Pass1Tracks(mods[..n]);
      var (st, ws) := Pass1Symbols(mods[..n]);
      DefineFromWarnings(mods[n].defs, 0, |mods[n].code|, Size(mods[..n]), n + 1, st, ws, DefNames(mods[..n]));
    }
  }

  /** The names the redefinition warnings among `ws` are about, in order. */
  function Redefinitions(ws: seq<Warning>): seq<string>
  {
    if ws == [] then []
    else
      var w := ws[|ws| - 1];
      Redefinitions(ws[..|ws| - 1]) + (if w.Redefined? then [w.sym] else [])
  }

  lemma {:induction false} RedefinitionsAppend(a: seq<Warning>, b: seq<Warning>)
    ensures Redefinitions(a + b) == Redefinitions(a) + Redefinitions(b)
    decreases |b|
  {
    if b == [] {
      assert a + b == a;
    } else {
      var init := b[..|b| - 1];
      RedefinitionsAppend(a, init);
      assert (a + b)[..|a + b| - 1] == a + init;
      AppendAssoc(Redefinitions(a), Redefinitions(init), Redefinitions(b[|b| - 1..]));
    }
  }

  lemma {:induction false} CountIsMultiplicity(xs: seq<string>, x: string)
    ensures Count(xs, x) == multiset(xs)[x]
  {
    if xs != [] {
      var init := xs[..|xs| - 1];
      CountIsMultiplicity(init, x);
      assert xs == init + [xs[|xs| - 1]];
    }
  }

  /** 1 when `x` occurs in `xs`, else 0. */
  function Once(xs: seq<string>, x: string): nat
  {
    if x in xs then 1 else 0
  }

  lemma OnceAppend(xs: seq<string>, y: string, x: string)
    ensures Once(xs + [y], x) == if y == x then 1 else Once(xs, x)
  {
  }

  lemma DefRedefinitions(d: Def, before: seq<string>, size: nat, counter: nat)
    ensures Redefinitions(DefWarnings(d, before, size, counter)) == if d.sym in before then [d.sym] else []
  {
    var dw := DefWarnings(d, before, size, counter);
    if dw != [] {
      assert dw[..|dw| - 1] == [];
    }
  }

  lemma {:induction false} ModuleRedefinitions(defs: seq<Def>, i: nat, before: seq<string>, size: nat, counter: nat, x: string)
    requires i <= |defs|
    ensures multiset(Redefinitions(ModuleWarnings(defs, i, before, size, counter)))[x] + Once(before + Names(defs[i..]), x)
            == multiset(Names(defs[i..]))[x] + Once(before, x)
    decreases |defs| - i
  {
    if i == |defs| {
      assert before + Names(defs[i..]) == before;
    } else {
      var d := defs[i];
      var dw := DefWarnings(d, before, size, counter);
      var rest := ModuleWarnings(defs, i + 1, before + [d.sym], size, counter);
      ModuleRedefinitions(defs, i + 1, before + [d.sym], size, counter, x);
      RedefinitionsAppend(dw, rest);
      DefRedefinitions(d, before, size, counter);
      var names' := Names(defs[i + 1..]);
      NamesFrom(defs, i);
      AppendAssoc(before, [d.sym], names');
      OnceAppend(before, d.sym, x);
    }
  }

  lemma {:induction false} Pass1Redefinitions(mods: seq<ModuleText>, x: string)
    ensures multiset(Redefinitions(Pass1Warnings(mods)))[x] + Once(DefNames(mods), x) == multiset(DefNames(mods))[x]
  {
    if mods != [] {
      var n := |mods| - 1;
      var defs := mods[n].defs;
      Pass1Redefinitions(mods[..n], x);
      RedefinitionsAppend(Pass1Warnings(mods[..n]), ModuleWarnings(defs, 0, DefNames(mods[..n]), |mods[n].code|, n + 1));
      ModuleRedefinitions(defs, 0, DefNames(mods[..n]), |mods[n].code|, n + 1, x);
      assert defs[0..] == defs;
    }
  }

  /** Pass 1 warns once for every definition of a name after its first, in
      the same module or a later one, and never for a name defined once. */
  lemma RedefinedWarnings(mods: seq<ModuleText>, x: string)
    ensures Count(Redefinitions(Pass1Symbols(mods).1), x)
            == if x in DefNames(mods) then Count(DefNames(mods), x) - 1 else 0
  {
    Pass1WarningsExactly(mods);
    Pass1Redefinitions(mods, x);
    CountIsMultiplicity(Redefinitions(Pass1Warnings(mods)), x);
    CountIsMultiplicity(DefNames(mods), x);
  }

  /** Definition `j` of a module is the first definition of its name (none
      among `before`, none earlier in the module) and its value is not below
      the module's instruction count `size`. */
  ghost predicate FirstOutOfRange(defs: seq<Def>, j: int, before: seq<string>, size: nat)
  {
    0 <= j < |defs| && defs[j].sym !in before + Names(defs[..j]) && defs[j].val >= size
  }

  lemma BeforeNext(defs: seq<Def>, i: nat, before: seq<string>)
    requires i < |defs|
    ensures before + Names(defs[..i]) + [defs[i].sym] == before + Names(defs[..i + 1])
  {
    assert Names(defs[..i + 1]) == Names(defs[..i]) + [defs[i].sym];
    AppendAssoc(before, Names(defs[..i]), [defs[i].sym]);
  }

  /** Every out-of-module warning of a module comes from a first definition
      outside it. */
  lemma {:induction false} ModuleTooBigSource(defs: seq<Def>, i: nat, before: seq<string>, size: nat, counter: nat, w: Warning)
    returns (j: nat)
    requires i <= |defs|
    requires w in ModuleWarnings(defs, i, before + Names(defs[..i]), size, counter) && w.TooBig?
    ensures i <= j && FirstOutOfRange(defs, j, before, size) && w == OutOfModule(defs[j], size, counter)
    decreases |defs| - i
  {
    var here := before + Names(defs[..i]);
    BeforeNext(defs, i, before);
    if w in DefWarnings(defs[i], here, size, counter) {
      j := i;
    } else {
      j := ModuleTooBigSource(defs, i + 1, before, size, counter, w);
    }
  }

  /** Every first definition outside its module gets its warning. */
  lemma {:induction false} ModuleTooBigIssued(defs: seq<Def>, i: nat, before: seq<string>, size: nat, counter: nat, j: nat)
    requires i <= j && FirstOutOfRange(defs, j, before, size)
    ensures OutOfModule(defs[j], size, counter) in ModuleWarnings(defs, i, before + Names(defs[..i]), size, counter)
    decreases |defs| - i
  {
    BeforeNext(defs, i, before);
    if i < j {
      ModuleTooBigIssued(defs, i + 1, before, size, counter, j);
    }
  }

  /** Definition `i` of module `k` is its name's first definition, with a
      value outside the module. */
  ghost predicate FirstOutOfRangeIn(mods: seq<ModuleText>, k: int, i: int)
  {
    0 <= k < |mods| && FirstOutOfRange(mods[k].defs, i, DefNames(mods[..k]), |mods[k].code|)
  }

  lemma FirstOutOfRangeInPrefix(mods: seq<ModuleText>, n: nat, k: int, i: int)
    requires 0 <= k < n <= |mods|
    ensures FirstOutOfRangeIn(mods[..n], k, i) <==> FirstOutOfRangeIn(mods, k, i)
    ensures mods[..n][k] == mods[k]
  {
    assert mods[..n][..k] == mods[..k];
  }

  lemma {:induction false} Pass1TooBigSource(mods: seq<ModuleText>, w: Warning) returns (k: nat, i: nat)
    requires w in Pass1Warnings(mods) && w.TooBig?
    ensures FirstOutOfRangeIn(mods, k, i) && w == OutOfModule(mods[k].defs[i], |mods[k].code|, k + 1)
  {
    var n := |mods| - 1;
    if w in Pass1Warnings(mods[..n]) {
      k, i := Pass1TooBigSource(mods[..n], w);
      FirstOutOfRangeInPrefix(mods, n, k, i);
    } else {
      assert DefNames(mods[..n]) + Names(mods[n].defs[..0]) == DefNames(mods[..n]);
      k := n;
      i := ModuleTooBigSource(mods[n].defs, 0, DefNames(mods[..n]), |mods[n].code|, n + 1, w);
    }
  }

  lemma {:induction false} Pass1TooBigIssued(mods: seq<ModuleText>, k: nat, i: nat)
    requires FirstOutOfRangeIn(mods, k, i)
    ensures OutOfModule(mods[k].defs[i], |mods[k].code|, k + 1) in Pass1Warnings(mods)
  {
    var n := |mods| - 1;
    if k < n {
      FirstOutOfRangeInPrefix(mods, n, k, i);
      Pass1TooBigIssued(mods[..n], k, i);
    } else {
      assert DefNames(mods[..n]) + Names(mods[n].defs[..0]) == DefNames(mods[..n]);
      ModuleTooBigIssued(mods[n].defs, 0, DefNames(mods[..n]), |mods[n].code|, n + 1, i);
    }
  }

  /** Pass 1 warns that a definition lies outside its module exactly for a
      name's first definition whose value is not below the module's
      instruction count; the warning names the (1-based) module, the name,
      the value and the largest offset in the module. */
  lemma TooBigWarnings(mods: seq<ModuleText>, w: Warning)
    ensures (w in Pass1Symbols(mods).1 && w.TooBig?) <==>
            exists k, i :: FirstOutOfRangeIn(mods, k, i) && w == OutOfModule(mods[k].defs[i], |mods[k].code|, k + 1)
  {
    Pass1WarningsExactly(mods);
    if w in Pass1Warnings(mods) && w.TooBig? {
      var k, i := Pass1TooBigSource(mods, w);
    }
    if exists k, i :: FirstOutOfRangeIn(mods, k, i) && w == OutOfModule(mods[k].defs[i], |mods[k].code|, k + 1) {
      var k, i :| FirstOutOfRangeIn(mods, k, i) && w == OutOfModule(mods[k].defs[i], |mods[k].code|, k + 1);
      Pass1TooBigIssued(mods, k, i);
    }
  }
}
