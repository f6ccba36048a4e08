/** What Pass 2 computes, as pure functions over the modules Pass 1 read:
    each module's words resolved in order against its use list and the
    symbol table, a memory-map line printed per word, and after each module
    a warning per use-list name that no word referred to. */
module Linking {
  import opened Wrappers
  import opened Diagnostics
  import opened Syntax
  import opened Symbols
  import opened Memory
  import opened Resolver

  /** What Pass 2 prints, in order: memory-map lines and warnings. */
  datatype Output = Entry(line: MemLine) | Warn(w: Warning)

  /** The state one module's words are resolved in and leave behind. */
  datatype Run = Run(uses: seq<Use>, table: map<string, SymInfo>, mem: seq<MemInfo>, out: seq<Output>)

  /** The symbol table, memory map and output after some modules are linked. */
  datatype Image = Image(table: map<string, SymInfo>, mem: seq<MemInfo>, out: seq<Output>)

  /** A module's use list as Pass 2 builds it: every slot not yet referred to. */
  function FreshUses(names: seq<string>): (r: seq<Use>)
    ensures |r| == |names| && forall i :: 0 <= i < |names| ==> r[i] == Use(names[i], false)
  {
    seq(|names|, i requires 0 <= i < |names| => Use(names[i], false))
  }

  predicate ModesValid(code: seq<Instr>)
  {
    forall j :: 0 <= j < |code| ==> IsMode(code[j].mode)
  }

  /** Every word of every module has a valid addressing mode, as Pass 1 ensured. */
  predicate AllValid(mods: seq<ModuleText>)
  {
    forall k, j :: 0 <= k < |mods| && 0 <= j < |mods[k].code| ==> IsMode(mods[k].code[j].mode)
  }

  /** Resolves the words of a module of base `base` from index `i` on,
      appending each to the memory map and printing its line. */
  function ResolveFrom(code: seq<Instr>, i: nat, base: nat, uses: seq<Use>, table: map<string, SymInfo>,
                       mem: seq<MemInfo>, out: seq<Output>): Run
    requires i <= |code| && ModesValid(code)
    decreases |code| - i
  {
    if i == |code| then Run(uses, table, mem, out)
    else
      var r := Resolve(code[i].mode, code[i].word, base, |code|, uses, table);
      ResolveFrom(code, i + 1, base, r.uses, r.table, mem + [r.info], out + [Entry(MemLine(|mem|, r.info))])
  }

  /** One warning per use-list slot no word referred to, in slot order. */
  function UnusedUseWarnings(uses: seq<Use>, counter: nat): seq<Output>
  {
    if uses == [] then []
    else
      var last := uses[|uses| - 1];
      UnusedUseWarnings(uses[..|uses| - 1], counter)
        + (if last.used then [] else [Warn(UnusedUse(counter, last.sym))])
  }

  /** Pass 2 on module `counter` (1-based) at base `base`. */
  function LinkModule(m: ModuleText, base: nat, counter: nat, table: map<string, SymInfo>,
                      mem: seq<MemInfo>, out: seq<Output>): Image
    requires ModesValid(m.code)
  {
    var run := ResolveFrom(m.code, 0, base, FreshUses(m.uses), table, mem, out);
    Image(run.table, run.mem, run.out + UnusedUseWarnings(run.uses, counter))
  }

  /** Pass 2 on the modules from index `k` (0-based) on, the first of them at base `base`. */
  function LinkFrom(mods: seq<ModuleText>, k: nat, base: nat, table: map<string, SymInfo>,
                    mem: seq<MemInfo>, out: seq<Output>): Image
    requires k <= |mods| && AllValid(mods)
    decreases |mods| - k
  {
    if k == |mods| then Image(table, mem, out)
    else
      var img := LinkModule(mods[k], base, k + 1, table, mem, out);
      LinkFrom(mods, k + 1, base + |mods[k].code|, img.table, img.mem, img.out)
  }

  /** Linking from module `k` on is linking module `k`, then the rest. */
  lemma LinkFromNext(mods: seq<ModuleText>, k: nat, base: nat, table: map<string, SymInfo>,
                     mem: seq<MemInfo>, out: seq<Output>, img: Image)
    requires k < |mods| && AllValid(mods) && img == LinkModule(mods[k], base, k + 1, table, mem, out)
    ensures LinkFrom(mods, k, base, table, mem, out)
            == LinkFrom(mods, k + 1, base + |mods[k].code|, img.table, img.mem, img.out)
  {
  }

  // ---------------------------------------------------------------------------
  // Module bases

  lemma {:induction false} BaseStep(mods: seq<ModuleText>, k: nat)
    requires k < |mods|
    ensures Base(mods, k + 1) == Base(mods, k) + |mods[k].code|
  {
    assert mods[..k + 1] == mods[..k] + [mods[k]];
    SizeAppend(mods[..k], mods[k]);
  }

  /** Module `k` occupies addresses Base(k) up to Base(k) + its size, inside
      the whole program. */
  lemma {:induction false} BaseWithin(mods: seq<ModuleText>, k: nat)
    requires k < |mods|
    ensures Base(mods, k) + |mods[k].code| <= Size(mods)
    decreases |mods| - k
  {
    BaseStep(mods, k);
    if k + 1 == |mods| {
      assert mods[..k + 1] == mods;
    } else {
      BaseWithin(mods, k + 1);
    }
  }

  // ---------------------------------------------------------------------------
  // The memory image

  /** The words of `code` from index `i` on, each resolved on its own
      against the same use list and table. */
  function CodeWords(code: seq<Instr>, i: nat, base: nat, uses: seq<Use>, table: map<string, SymInfo>): (r: seq<MemInfo>)
    requires i <= |code| && ModesValid(code)
    ensures |r| == |code| - i
    decreases |code| - i
  {
    if i == |code| then []
    else [Resolve(code[i].mode, code[i].word, base, |code|, uses, table).info] + CodeWords(code, i + 1, base, uses, table)
  }

  /** Resolving words keeps the use-list names and the symbol values. */
  lemma {:induction false} ResolveFromKeeps(code: seq<Instr>, i: nat, base: nat, uses: seq<Use>,
                                            table: map<string, SymInfo>, mem: seq<MemInfo>, out: seq<Output>,
                                            uses0: seq<Use>, table0: map<string, SymInfo>)
    requires i <= |code| && ModesValid(code) && SameNames(uses0, uses) && SameValues(table0, table)
    ensures var run := ResolveFrom(code, i, base, uses, table, mem, out);
            SameNames(uses0, run.uses) && SameValues(table0, run.table)
    decreases |code| - i
  {
    if i < |code| {
      var r := Resolve(code[i].mode, code[i].word, base, |code|, uses, table);
      ResolveIgnoresFlags(code[i].mode, code[i].word, base, |code|, uses, table, uses, table);
      SameNamesTrans(uses0, uses, r.uses);
      SameValuesTrans(table0, table, r.table);
      ResolveFromKeeps(code, i + 1, base, r.uses, r.table, mem + [r.info], out + [Entry(MemLine(|mem|, r.info))], uses0, table0);
    }
  }

  /** Resolving a module's words appends exactly its CodeWords against the
      use list and table the module started with: the used flags set along
      the way change no word. */
  lemma {:induction false} ResolveFromLayout(code: seq<Instr>, i: nat, base: nat, uses: seq<Use>,
                                             table: map<string, SymInfo>, mem: seq<MemInfo>, out: seq<Output>,
                                             uses0: seq<Use>, table0: map<string, SymInfo>)
    requires i <= |code| && ModesValid(code) && SameNames(uses0, uses) && SameValues(table0, table)
    ensures ResolveFrom(code, i, base, uses, table, mem, out).mem == mem + CodeWords(code, i, base, uses0, table0)
    decreases |code| - i
  {
    if i < |code| {
      var r := Resolve(code[i].mode, code[i].word, base, |code|, uses, table);
      ResolveIgnoresFlags(code[i].mode, code[i].word, base, |code|, uses0, table0, uses, table);
      ResolveIgnoresFlags(code[i].mode, code[i].word, base, |code|, uses, table, uses, table);
      SameNamesTrans(uses0, uses, r.uses);
      SameValuesTrans(table0, table, r.table);
      ResolveFromLayout(code, i + 1, base, r.uses, r.table, mem + [r.info], out + [Entry(MemLine(|mem|, r.info))], uses0, table0);
      AppendAssoc(mem, [r.info], CodeWords(code, i + 1, base, uses0, table0));
    }
  }

  /** Linking never changes a symbol's value. */
  lemma {:induction false} LinkFromKeepsValues(mods: seq<ModuleText>, k: nat, base: nat, table: map<string, SymInfo>,
                                               mem: seq<MemInfo>, out: seq<Output>, table0: map<string, SymInfo>)
    requires k <= |mods| && AllValid(mods) && SameValues(table0, table)
    ensures SameValues(table0, LinkFrom(mods, k, base, table, mem, out).table)
    decreases |mods| - k
  {
    if k < |mods| {
      var m := mods[k];
      assert ModesValid(m.code);
      var uses := FreshUses(m.uses);
      ResolveFromKeeps(m.code, 0, base, uses, table, mem, out, uses, table0);
      var img := LinkModule(m, base, k + 1, table, mem, out);
      LinkFromKeepsValues(mods, k + 1, base + |m.code|, img.table, img.mem, img.out, table0);
    }
  }

  /** The words of the modules from `k` on, the first of them at base
      `base`, each module resolved against a fresh use list and `table`. */
  function WordsFrom(mods: seq<ModuleText>, k: nat, base: nat, table: map<string, SymInfo>): seq<MemInfo>
    requires k <= |mods| && AllValid(mods)
    decreases |mods| - k
  {
    if k == |mods| then []
    else
      assert ModesValid(mods[k].code);
      CodeWords(mods[k].code, 0, base, FreshUses(mods[k].uses), table)
        + WordsFrom(mods, k + 1, base + |mods[k].code|, table)
  }

  /** Linking the modules from `k` on appends their words resolved against
      the table as it stood before: the used flags set along the way change
      no word. */
  lemma {:induction false} LinkFromLayout(mods: seq<ModuleText>, k: nat, base: nat, table: map<string, SymInfo>,
                                          mem: seq<MemInfo>, out: seq<Output>, table0: map<string, SymInfo>)
    requires k <= |mods| && AllValid(mods) && SameValues(table0, table)
    ensures LinkFrom(mods, k, base, table, mem, out).mem == mem + WordsFrom(mods, k, base, table0)
    decreases |mods| - k
  {
    if k < |mods| {
      var m := mods[k];
      assert ModesValid(m.code);
      var uses := FreshUses(m.uses);
      ResolveFromLayout(m.code, 0, base, uses, table, mem, out, uses, table0);
      ResolveFromKeeps(m.code, 0, base, uses, table, mem, out, uses, table0);
      var img := LinkModule(m, base, k + 1, table, mem, out);
      LinkFromLayout(mods, k + 1, base + |m.code|, img.table, img.mem, img.out, table0);
      var words := CodeWords(m.code, 0, base, uses, table0);
      var rest := WordsFrom(mods, k + 1, base + |m.code|, table0);
      AppendAssoc(mem, words, rest);
    }
  }

  /** CodeWords has one word per remaining instruction, in instruction order. */
  lemma {:induction false} CodeWordsAt(code: seq<Instr>, i: nat, base: nat, uses: seq<Use>, table: map<string, SymInfo>)
    requires i <= |code| && ModesValid(code)
    ensures forall j :: i <= j < |code| ==>
              CodeWords(code, i, base, uses, table)[j - i] == Resolve(code[j].mode, code[j].word, base, |code|, uses, table).info
    decreases |code| - i
  {
    if i < |code| {
      CodeWordsAt(code, i + 1, base, uses, table);
    }
  }

  /** The words from module `k` on fill the addresses from Base(k) to the
      end of the program. */
  lemma {:induction false} WordsFromLength(mods: seq<ModuleText>, k: nat, base: nat, table: map<string, SymInfo>)
    requires k <= |mods| && AllValid(mods) && base == Base(mods, k)
    ensures base + |WordsFrom(mods, k, base, table)| == Size(mods)
    decreases |mods| - k
  {
    if k == |mods| {
      assert mods[..k] == mods;
    } else {
      BaseStep(mods, k);
      WordsFromLength(mods, k + 1, base + |mods[k].code|, table);
    }
  }

  /** Word `j` of module `k2` sits at offset Base(k2) + j - Base(k) of the
      words from module `k` on. */
  lemma {:induction false} WordsFromAt(mods: seq<ModuleText>, k: nat, base: nat, table: map<string, SymInfo>, k2: nat, j: nat)
    requires AllValid(mods) && k <= k2 < |mods| && j < |mods[k2].code| && base == Base(mods, k)
    ensures base <= Base(mods, k2)
    ensures Base(mods, k2) + j - base < |WordsFrom(mods, k, base, table)|
    ensures WordsFrom(mods, k, base, table)[Base(mods, k2) + j - base]
            == Resolve(mods[k2].code[j].mode, mods[k2].code[j].word, Base(mods, k2), |mods[k2].code|,
                       FreshUses(mods[k2].uses), table).info
    decreases k2 - k
  {
    var m := mods[k];
    assert ModesValid(m.code);
    var words := CodeWords(m.code, 0, base, FreshUses(m.uses), table);
    var rest := WordsFrom(mods, k + 1, base + |m.code|, table);
    assert WordsFrom(mods, k, base, table) == words + rest;
    if k2 == k {
      CodeWordsAt(m.code, 0, base, FreshUses(m.uses), table);
    } else {
      BaseStep(mods, k);
      WordsFromAt(mods, k + 1, base + |m.code|, table, k2, j);
      assert (words + rest)[Base(mods, k2) + j - base] == rest[Base(mods, k2) + j - (base + |m.code|)];
    }
  }

  /** Word `j` of module `k` is at address Base(k) + j of `mem`, resolved
      against a fresh use list and `table`. */
  predicate WordPlaced(mods: seq<ModuleText>, table: map<string, SymInfo>, mem: seq<MemInfo>, k: nat, j: nat)
    requires AllValid(mods) && k < |mods| && j < |mods[k].code|
  {
    Base(mods, k) + j < |mem| &&
    mem[Base(mods, k) + j]
    == Resolve(mods[k].code[j].mode, mods[k].code[j].word, Base(mods, k), |mods[k].code|,
               FreshUses(mods[k].uses), table).info
  }

  /** Every word of every module is placed as WordPlaced says. */
  predicate WordsPlaced(mods: seq<ModuleText>, table: map<string, SymInfo>, mem: seq<MemInfo>)
    requires AllValid(mods)
  {
    forall k: nat, j: nat :: k < |mods| && j < |mods[k].code| ==> WordPlaced(mods, table, mem, k, j)
  }

  /** The memory map Pass 2 builds from empty: one word per instruction of
      the program, word `j` of module `k` at address Base(k) + j, resolved
      against a fresh use list and the values Pass 1 gave the symbols. */
  lemma MemoryImage(mods: seq<ModuleText>, table: map<string, SymInfo>)
    requires AllValid(mods)
    ensures |LinkFrom(mods, 0, 0, table, [], []).mem| == Size(mods)
    ensures WordsPlaced(mods, table, LinkFrom(mods, 0, 0, table, [], []).mem)
  {
    LinkFromLayout(mods, 0, 0, table, [], [], table);
    assert LinkFrom(mods, 0, 0, table, [], []).mem == WordsFrom(mods, 0, 0, table);
    WordsFromPlaced(mods, table);
  }

  /** The words of all modules, resolved against `table`, laid end to end:
      one per instruction, word `j` of module `k` at address Base(k) + j. */
  lemma WordsFromPlaced(mods: seq<ModuleText>, table: map<string, SymInfo>)
    requires AllValid(mods)
    ensures |WordsFrom(mods, 0, 0, table)| == Size(mods)
    ensures WordsPlaced(mods, table, WordsFrom(mods, 0, 0, table))
  {
    assert Base(mods, 0) == 0 by { assert mods[..0] == []; }
    var mem := WordsFrom(mods, 0, 0, table);
    WordsFromLength(mods, 0, 0, table);
    forall k: nat, j: nat | k < |mods| && j < |mods[k].code|
      ensures WordPlaced(mods, table, mem, k, j)
    {
      WordsFromAt(mods, 0, 0, table, k, j);
    }
  }

  // ---------------------------------------------------------------------------
  // The printed memory map

  /** The memory-map lines among the outputs, in order. */
  function Entries(out: seq<Output>): seq<MemLine>
  {
    if out == [] then []
    else
      var last := out[|out| - 1];
      Entries(out[..|out| - 1]) + (if last.Entry? then [last.line] else [])
  }

  /** The lines that list a memory map: every address once, in order, with its word. */
  function Lines(mem: seq<MemInfo>): (r: seq<MemLine>)
    ensures |r| == |mem| && forall a :: 0 <= a < |mem| ==> r[a] == MemLine(a, mem[a])
  {
    seq(|mem|, a requires 0 <= a < |mem| => MemLine(a, mem[a]))
  }

  lemma {:induction false} EntriesAppend(a: seq<Output>, b: seq<Output>)
    ensures Entries(a + b) == Entries(a) + Entries(b)
    decreases |b|
  {
    if b == [] {
      assert a + b == a;
    } else {
      var n := |b| - 1;
      assert (a + b)[..|a + b| - 1] == a + b[..n];
      EntriesAppend(a, b[..n]);
    }
  }

  lemma {:induction false} NoEntries(ws: seq<Output>)
    requires forall i :: 0 <= i < |ws| ==> ws[i].Warn?
    ensures Entries(ws) == []
    decreases |ws|
  {
    if ws != [] {
      NoEntries(ws[..|ws| - 1]);
    }
  }

  lemma {:induction false} UnusedUseWarningsAreWarnings(uses: seq<Use>, counter: nat)
    ensures forall i :: 0 <= i < |UnusedUseWarnings(uses, counter)| ==> UnusedUseWarnings(uses, counter)[i].Warn?
    decreases |uses|
  {
    if uses != [] {
      UnusedUseWarningsAreWarnings(uses[..|uses| - 1], counter);
    }
  }

  /** Resolving words keeps the printed lines equal to the memory map. */
  lemma {:induction false} ResolveFromPrints(code: seq<Instr>, i: nat, base: nat, uses: seq<Use>,
                                             table: map<string, SymInfo>, mem: seq<MemInfo>, out: seq<Output>)
    requires i <= |code| && ModesValid(code) && Entries(out) == Lines(mem)
    ensures var run := ResolveFrom(code, i, base, uses, table, mem, out);
            Entries(run.out) == Lines(run.mem)
    decreases |code| - i
  {
    if i < |code| {
      var r := Resolve(code[i].mode, code[i].word, base, |code|, uses, table);
      var out' := out + [Entry(MemLine(|mem|, r.info))];
      assert out'[..|out'| - 1] == out;
      assert Lines(mem + [r.info]) == Lines(mem) + [MemLine(|mem|, r.info)];
      ResolveFromPrints(code, i + 1, base, r.uses, r.table, mem + [r.info], out');
    }
  }

  /** The memory-map lines Pass 2 prints are the memory map it builds, one
      line per address in address order, whatever warnings come between. */
  lemma {:induction false} LinkFromPrints(mods: seq<ModuleText>, k: nat, base: nat, table: map<string, SymInfo>,
                                          mem: seq<MemInfo>, out: seq<Output>)
    requires k <= |mods| && AllValid(mods) && Entries(out) == Lines(mem)
    ensures var img := LinkFrom(mods, k, base, table, mem, out);
            Entries(img.out) == Lines(img.mem)
    decreases |mods| - k
  {
    if k < |mods| {
      var m := mods[k];
      assert ModesValid(m.code);
      var run := ResolveFrom(m.code, 0, base, FreshUses(m.uses), table, mem, out);
      ResolveFromPrints(m.code, 0, base, FreshUses(m.uses), table, mem, out);
      var ws := UnusedUseWarnings(run.uses, k + 1);
      EntriesAppend(run.out, ws);
      UnusedUseWarningsAreWarnings(run.uses, k + 1);
      NoEntries(ws);
      var img := LinkModule(m, base, k + 1, table, mem, out);
      LinkFromPrints(mods, k + 1, base + |m.code|, img.table, img.mem, img.out);
    }
  }

  // ---------------------------------------------------------------------------
  // Use lists

  /** Some word of `code` refers to use-list slot `slot`. */
  predicate Referenced(code: seq<Instr>, slot: nat)
  {
    exists j :: 0 <= j < |code| && Refers(code[j], slot)
  }

  /** Resolving from index `i` on marks a slot used exactly when it was
      already, or a remaining word refers to it. */
  lemma {:induction false} ResolveFromMarks(code: seq<Instr>, i: nat, base: nat, uses: seq<Use>,
                                            table: map<string, SymInfo>, mem: seq<MemInfo>, out: seq<Output>)
    requires i <= |code| && ModesValid(code)
    ensures var run := ResolveFrom(code, i, base, uses, table, mem, out);
            && |run.uses| == |uses|
            && forall slot :: 0 <= slot < |uses| ==>
                 (run.uses[slot].used <==> uses[slot].used || exists j :: i <= j < |code| && Refers(code[j], slot))
    decreases |code| - i
  {
    if i < |code| {
      var r := Resolve(code[i].mode, code[i].word, base, |code|, uses, table);
      ResolveFromMarks(code, i + 1, base, r.uses, r.table, mem + [r.info], out + [Entry(MemLine(|mem|, r.info))]);
      forall slot | 0 <= slot < |uses|
        ensures r.uses[slot].used <==> uses[slot].used || Refers(code[i], slot)
      {
        ResolveMarksUse(code[i].mode, code[i].word, base, |code|, uses, table, slot);
      }
    }
  }

  /** A warning is issued for a slot exactly when the slot is not marked used. */
  lemma {:induction false} UnusedUseWarningsExactly(uses: seq<Use>, counter: nat)
    ensures forall w :: w in UnusedUseWarnings(uses, counter) <==>
              exists slot :: 0 <= slot < |uses| && !uses[slot].used && w == Warn(UnusedUse(counter, uses[slot].sym))
    decreases |uses|
  {
    if uses != [] {
      var n := |uses| - 1;
      UnusedUseWarningsExactly(uses[..n], counter);
      forall w | w in UnusedUseWarnings(uses, counter)
        ensures exists slot :: 0 <= slot < |uses| && !uses[slot].used && w == Warn(UnusedUse(counter, uses[slot].sym))
      {
        if w in UnusedUseWarnings(uses[..n], counter) {
          var slot :| 0 <= slot < n && !uses[..n][slot].used && w == Warn(UnusedUse(counter, uses[..n][slot].sym));
          assert uses[slot] == uses[..n][slot];
        }
      }
      forall slot | 0 <= slot < |uses| && !uses[slot].used
        ensures Warn(UnusedUse(counter, uses[slot].sym)) in UnusedUseWarnings(uses, counter)
      {
        if slot < n {
          assert uses[slot] == uses[..n][slot];
        }
      }
    }
  }

  /** After a module, Pass 2 warns of exactly the use-list names in slots
      that none of the module's words referred to. */
  lemma UnusedUsesExactly(m: ModuleText, base: nat, counter: nat, table: map<string, SymInfo>,
                          mem: seq<MemInfo>, out: seq<Output>)
    requires ModesValid(m.code)
    ensures var run := ResolveFrom(m.code, 0, base, FreshUses(m.uses), table, mem, out);
            && LinkModule(m, base, counter, table, mem, out).out == run.out + UnusedUseWarnings(run.uses, counter)
            && forall w :: w in UnusedUseWarnings(run.uses, counter) <==>
                 exists slot :: 0 <= slot < |m.uses| && !Referenced(m.code, slot) && w == Warn(UnusedUse(counter, m.uses[slot]))
  {
    assert ModesValid(m.code);
    var uses := FreshUses(m.uses);
    var run := ResolveFrom(m.code, 0, base, uses, table, mem, out);
    ResolveFromMarks(m.code, 0, base, uses, table, mem, out);
    ResolveFromKeeps(m.code, 0, base, uses, table, mem, out, uses, table);
    UnusedUseWarningsExactly(run.uses, counter);
    forall slot | 0 <= slot < |m.uses|
      ensures !run.uses[slot].used <==> !Referenced(m.code, slot)
      ensures run.uses[slot].sym == m.uses[slot]
    {
    }
  }

  // ---------------------------------------------------------------------------
  // Symbol use

  /** Some word of module `m` refers to a use-list slot naming `s`. */
  predicate UsesSymbol(m: ModuleText, s: string)
  {
    exists j :: 0 <= j < |m.code| && Refers(m.code[j], Operand(m.code[j].word))
                && Operand(m.code[j].word) < |m.uses| && m.uses[Operand(m.code[j].word)] == s
  }

  /** Resolving from index `i` on marks a defined symbol used exactly when it
      was already, or a remaining word refers to a slot naming it. */
  lemma {:induction false} ResolveFromMarksSymbol(code: seq<Instr>, i: nat, base: nat, uses: seq<Use>,
                                                  table: map<string, SymInfo>, mem: seq<MemInfo>, out: seq<Output>,
                                                  names: seq<string>, s: string)
    requires i <= |code| && ModesValid(code) && s in table
    requires |uses| == |names| && forall n :: 0 <= n < |uses| ==> uses[n].sym == names[n]
    ensures var run := ResolveFrom(code, i, base, uses, table, mem, out);
            && s in run.table
            && (run.table[s].used <==>
                  (table[s].used ||
                   exists j :: i <= j < |code| && Refers(code[j], Operand(code[j].word))
                               && Operand(code[j].word) < |names| && names[Operand(code[j].word)] == s))
    decreases |code| - i
  {
    if i < |code| {
      var r := Resolve(code[i].mode, code[i].word, base, |code|, uses, table);
      ResolveMarksSymbol(code[i].mode, code[i].word, base, |code|, uses, table, s);
      ResolveFromMarksSymbol(code, i + 1, base, r.uses, r.table, mem + [r.info], out + [Entry(MemLine(|mem|, r.info))], names, s);
    }
  }

  /** Linking the modules from `k` on marks a defined symbol used exactly
      when it was already, or some word of those modules refers to it. */
  lemma {:induction false} LinkFromMarksSymbol(mods: seq<ModuleText>, k: nat, base: nat, table: map<string, SymInfo>,
                                               mem: seq<MemInfo>, out: seq<Output>, s: string)
    requires k <= |mods| && AllValid(mods) && s in table
    ensures var img := LinkFrom(mods, k, base, table, mem, out);
            && s in img.table
            && (img.table[s].used <==> table[s].used || exists k' :: k <= k' < |mods| && UsesSymbol(mods[k'], s))
    decreases |mods| - k
  {
    if k < |mods| {
      var m := mods[k];
      assert ModesValid(m.code);
      ResolveFromMarksSymbol(m.code, 0, base, FreshUses(m.uses), table, mem, out, m.uses, s);
      var img := LinkModule(m, base, k + 1, table, mem, out);
      LinkFromMarksSymbol(mods, k + 1, base + |m.code|, img.table, img.mem, img.out, s);
    }
  }

  /** After Pass 2 from Pass 1's table, the defined-but-never-used warnings
      name exactly the defined symbols that no word of any module refers to,
      each with the module that defined it. */
  lemma NeverUsedExactly(mods: seq<ModuleText>, mem: seq<MemInfo>, out: seq<Output>)
    requires AllValid(mods)
    ensures var st := Pass1Symbols(mods).0;
            var img := LinkFrom(mods, 0, 0, st.table, mem, out);
            && (forall s :: s in st.syms ==> s in img.table)
            && forall w :: w in UnusedDefs(st.syms, img.table) <==>
                 exists s :: s in st.syms && s in st.table && (forall k :: 0 <= k < |mods| ==> !UsesSymbol(mods[k], s))
                             && w == UnusedDef(st.table[s].loc, s)
  {
    var st := Pass1Symbols(mods).0;
    var img := LinkFrom(mods, 0, 0, st.table, mem, out);
    SymbolsInFirstDefinitionOrder(mods);
    assert Consistent(st);
    Pass1Unused(mods);
    forall s | s in st.syms ensures s in img.table && img.table[s].loc == st.table[s].loc
      && (img.table[s].used <==> exists k :: 0 <= k < |mods| && UsesSymbol(mods[k], s))
    {
      LinkFromMarksSymbol(mods, 0, 0, st.table, mem, out, s);
      LinkFromKeepsLoc(mods, 0, 0, st.table, mem, out, s);
    }
    UnusedDefsExactly(st.syms, img.table);
  }

  /** Linking never changes the module a symbol is reported as defined in. */
  lemma {:induction false} LinkFromKeepsLoc(mods: seq<ModuleText>, k: nat, base: nat, table: map<string, SymInfo>,
                                            mem: seq<MemInfo>, out: seq<Output>, s: string)
    requires k <= |mods| && AllValid(mods) && s in table
    ensures var img := LinkFrom(mods, k, base, table, mem, out);
            s in img.table && img.table[s].loc == table[s].loc
    decreases |mods| - k
  {
    if k < |mods| {
      var m := mods[k];
      assert ModesValid(m.code);
      ResolveFromKeepsLoc(m.code, 0, base, FreshUses(m.uses), table, mem, out, s);
      var img := LinkModule(m, base, k + 1, table, mem, out);
      LinkFromKeepsLoc(mods, k + 1, base + |m.code|, img.table, img.mem, img.out, s);
    }
  }

  lemma {:induction false} ResolveFromKeepsLoc(code: seq<Instr>, i: nat, base: nat, uses: seq<Use>,
                                               table: map<string, SymInfo>, mem: seq<MemInfo>, out: seq<Output>, s: string)
    requires i <= |code| && ModesValid(code) && s in table
    ensures var run := ResolveFrom(code, i, base, uses, table, mem, out);
            s in run.table && run.table[s].loc == table[s].loc
    decreases |code| - i
  {
    if i < |code| {
      var r := Resolve(code[i].mode, code[i].word, base, |code|, uses, table);
      ResolveFromKeepsLoc(code, i + 1, base, r.uses, r.table, mem + [r.info], out + [Entry(MemLine(|mem|, r.info))], s);
    }
  }
}
