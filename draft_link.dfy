/** The draft's two passes (main.cpp) as pure functions over the token
    stream. Each pass reads module after module while tokens remain,
    advancing the module base by each module's instruction count, and stops
    at the first Fault. Pass 1 enters every definition at its value plus the
    module base; Pass 2 resolves every instruction word into the memory map. */
module DraftLink {
  import opened Wrappers
  import opened Lexer
  import opened Syntax
  import opened DraftSyntax
  import opened DraftTables

  /** A method's value result and the tokens it left, as one Result. */
  function Outcome<T>(r: Result<T, Fault>, rest: seq<Token>): Result<(T, seq<Token>), Fault>
  {
    if r.Ok? then Ok((r.value, rest)) else Err(r.error)
  }

  /** A method's state after it went through, and the tokens it left. */
  function Settled<S>(r: Option<Fault>, s: S, rest: seq<Token>): Result<(S, seq<Token>), Fault>
  {
    if r.None? then Ok((s, rest)) else Err(r.value)
  }

  /** The tokens a method left when it went through. */
  function Stopped(r: Option<Fault>, rest: seq<Token>): Result<seq<Token>, Fault>
  {
    if r.None? then Ok(rest) else Err(r.value)
  }

  /** Pass 1, one definition: the name, then its value, entered at value
      plus the module base. */
  function DefStep(toks: seq<Token>, base: int, st: Names): (r: Result<(Names, seq<Token>), Fault>)
    ensures r.Ok? ==> |toks| >= 2 && r.value.1 == toks[2..]
  {
    var sym :- SymOf(toks);
    var val :- IntOf(toks[1..]);
    var st' :- Define(st, sym, val + base);
    Ok((st', toks[2..]))
  }

  /** Pass 1, the next `n` definitions. */
  function DefsThen(toks: seq<Token>, n: nat, base: int, st: Names): (r: Result<(Names, seq<Token>), Fault>)
    ensures r.Ok? ==> |r.value.1| <= |toks|
    decreases n
  {
    if n == 0 then Ok((st, toks))
    else
      var p :- DefStep(toks, base, st);
      DefsThen(p.1, n - 1, base, p.0)
  }

  /** Pass 2 reads the definitions again, and skips them. */
  function SkipDefs(toks: seq<Token>, n: nat): (r: Result<seq<Token>, Fault>)
    ensures r.Ok? ==> |r.value| <= |toks|
    decreases n
  {
    if n == 0 then Ok(toks)
    else
      var sym :- SymOf(toks);
      var val :- IntOf(toks[1..]);
      SkipDefs(toks[2..], n - 1)
  }

  /** Both passes, the next `n` names of the use list, after those in `acc`. */
  function UsesThen(toks: seq<Token>, n: nat, acc: seq<string>): (r: Result<(seq<string>, seq<Token>), Fault>)
    ensures r.Ok? ==> |r.value.0| == |acc| + n && r.value.0[..|acc|] == acc
    ensures r.Ok? ==> |r.value.1| <= |toks|
    decreases n
  {
    if n == 0 then Ok((acc, toks))
    else
      var sym :- SymOf(toks);
      UsesThen(toks[1..], n - 1, acc + [sym])
  }

  /** Pass 1 reads the next `n` instructions, mode and word, and skips them. */
  function SkipInstrs(toks: seq<Token>, n: nat): (r: Result<seq<Token>, Fault>)
    ensures r.Ok? ==> |r.value| <= |toks|
    decreases n
  {
    if n == 0 then Ok(toks)
    else
      var mode :- ModeOf(toks);
      var word :- IntOf(toks[1..]);
      SkipInstrs(toks[2..], n - 1)
  }

  /** readInstr: the word at the head of `toks`, resolved under `mode`. */
  function WordOf(toks: seq<Token>, mode: char, base: int, uses: seq<string>, vals: map<string, int>): (r: Result<int, Fault>)
    requires IsMode(mode)
    ensures r.Ok? ==> toks != []
  {
    var word :- IntOf(toks);
    DraftResolve(mode, word, base, uses, vals)
  }

  /** Pass 2, one instruction: its mode, its word resolved, the result
      appended to the memory map. */
  function InstrStep(toks: seq<Token>, base: int, uses: seq<string>, vals: map<string, int>, mem: seq<int>)
    : (r: Result<(seq<int>, seq<Token>), Fault>)
    ensures r.Ok? ==> |toks| >= 2 && r.value.1 == toks[2..]
  {
    var mode :- ModeOf(toks);
    var w :- WordOf(toks[1..], mode, base, uses, vals);
    var mem' :- Allocate(mem, w);
    Ok((mem', toks[2..]))
  }

  /** Pass 2, the next `n` instructions. */
  function InstrsThen(toks: seq<Token>, n: nat, base: int, uses: seq<string>, vals: map<string, int>, mem: seq<int>)
    : (r: Result<(seq<int>, seq<Token>), Fault>)
    ensures r.Ok? ==> |r.value.1| <= |toks|
    ensures r.Ok? ==> |r.value.0| == |mem| + n && r.value.0[..|mem|] == mem
    decreases n
  {
    if n == 0 then Ok((mem, toks))
    else
      var p :- InstrStep(toks, base, uses, vals, mem);
      InstrsThen(p.1, n - 1, base, uses, vals, p.0)
  }

  /** Pass 1 on one module at base `base`: the table after its definitions,
      the tokens after it, and its instruction count. */
  function Module1(toks: seq<Token>, base: int, st: Names): (r: Result<(Names, seq<Token>, nat), Fault>)
    ensures r.Ok? ==> |r.value.1| < |toks|
  {
    var defcount :- IntOf(toks);
    if defcount > MaxListCount then Err(DefcountExceeds)
    else
      var d :- DefsThen(toks[1..], defcount, base, st);
      var usecount :- IntOf(d.1);
      var u :- UsesThen(d.1[1..], usecount, []);
      var instcount :- IntOf(u.1);
      var rest :- SkipInstrs(u.1[1..], instcount);
      Ok((d.0, rest, instcount))
  }

  /** Pass 1 on the modules in `toks`, the first at base `base`. */
  function Pass1From(toks: seq<Token>, base: int, st: Names): Result<Names, Fault>
    decreases |toks|, 2
  {
    if toks == [] then Ok(st) else Pass1Next(toks, base, st)
  }

  /** Pass 1 on a non-empty rest of the input.
      It adds no behaviour: it stands between the loop's function and the
      module step only so that the verifier unfolds one layer at a time. */
  function Pass1Next(toks: seq<Token>, base: int, st: Names): Result<Names, Fault>
    requires toks != []
    decreases |toks|, 1
  {
    Pass1Then(toks, base, st)
  }

  /** Pass 1 on the module at the head of `toks`, then on the modules after it. */
  function Pass1Then(toks: seq<Token>, base: int, st: Names): Result<Names, Fault>
    requires toks != []
    decreases |toks|, 0
  {
    var m := Module1(toks, base, st);
    if m.Ok? then Pass1From(m.value.1, base + m.value.2, m.value.0) else Err(m.error)
  }

  /** Pass 2 on one module at base `base`: the memory map after its
      instructions, the tokens after it, and its instruction count. */
  function Module2(toks: seq<Token>, base: int, vals: map<string, int>, mem: seq<int>)
    : (r: Result<(seq<int>, seq<Token>, nat), Fault>)
    ensures r.Ok? ==> |r.value.1| < |toks|
  {
    var defcount :- IntOf(toks);
    var r1 :- SkipDefs(toks[1..], defcount);
    var usecount :- IntOf(r1);
    if usecount > MaxListCount then Err(UsecountExceeds)
    else
      var u :- UsesThen(r1[1..], usecount, []);
      var instcount :- IntOf(u.1);
      var c :- InstrsThen(u.1[1..], instcount, base, u.0, vals, mem);
      Ok((c.0, c.1, instcount))
  }

  /** Pass 2 on the modules in `toks`, the first at base `base`. */
  function Pass2From(toks: seq<Token>, base: int, vals: map<string, int>, mem: seq<int>): Result<seq<int>, Fault>
    decreases |toks|, 2
  {
    if toks == [] then Ok(mem) else Pass2Next(toks, base, vals, mem)
  }

  /** Pass 2 on a non-empty rest of the input.
      It adds no behaviour: it stands between the loop's function and the
      module step only so that the verifier unfolds one layer at a time. */
  function Pass2Next(toks: seq<Token>, base: int, vals: map<string, int>, mem: seq<int>): Result<seq<int>, Fault>
    requires toks != []
    decreases |toks|, 1
  {
    Pass2Then(toks, base, vals, mem)
  }

  /** Pass 2 on the module at the head of `toks`, then on the modules after it. */
  function Pass2Then(toks: seq<Token>, base: int, vals: map<string, int>, mem: seq<int>): Result<seq<int>, Fault>
    requires toks != []
    decreases |toks|, 0
  {
    var m := Module2(toks, base, vals, mem);
    if m.Ok? then Pass2From(m.value.1, base + m.value.2, vals, m.value.0) else Err(m.error)
  }

  /** The whole draft on an input: Pass 1, then Pass 2 over the same tokens
      with the values Pass 1 entered. A fault in Pass 1 is the whole outcome;
      otherwise the symbol table Pass 1 built (listed before Pass 2 starts)
      together with Pass 2's outcome, the memory map or the fault that
      stopped it. */
  function Link(input: seq<string>): Result<(Names, Result<seq<int>, Fault>), Fault>
  {
    var st :- Pass1From(Tokens(input), 0, Names([], map[]));
    Ok((st, Pass2From(Tokens(input), 0, st.vals, [])))
  }

  /** `big` extends `small`: the same names first, the same values kept. */
  ghost predicate Extends(small: Names, big: Names)
  {
    && |small.syms| <= |big.syms| && big.syms[..|small.syms|] == small.syms
    && forall s :: s in small.vals ==> s in big.vals && big.vals[s] == small.vals[s]
  }

  lemma DefStepKeeps(toks: seq<Token>, base: int, st: Names)
    requires Agrees(st) && DefStep(toks, base, st).Ok?
    ensures Agrees(DefStep(toks, base, st).value.0) && Extends(st, DefStep(toks, base, st).value.0)
  {
    DefineKeeps(st, SymOf(toks).value, IntOf(toks[1..]).value + base);
  }

  lemma {:induction false} DefsThenKeeps(toks: seq<Token>, n: nat, base: int, st: Names)
    requires Agrees(st) && DefsThen(toks, n, base, st).Ok?
    ensures Agrees(DefsThen(toks, n, base, st).value.0) && Extends(st, DefsThen(toks, n, base, st).value.0)
    decreases n
  {
    if n > 0 {
      var p := DefStep(toks, base, st).value;
      DefStepKeeps(toks, base, st);
      DefsThenKeeps(p.1, n - 1, base, p.0);
      ExtendsTrans(st, p.0, DefsThen(toks, n, base, st).value.0);
    }
  }

  /** Pass 1 on a non-empty stream: the first module, then the rest. */
  lemma Pass1Unfold(toks: seq<Token>, base: int, st: Names)
    requires toks != []
    ensures var m := Module1(toks, base, st);
            Pass1From(toks, base, st) == if m.Ok? then Pass1From(m.value.1, base + m.value.2, m.value.0) else Err(m.error)
  {
    assert Pass1From(toks, base, st) == Pass1Next(toks, base, st) == Pass1Then(toks, base, st);
  }

  /** Pass 2 on a non-empty stream: the first module, then the rest. */
  lemma Pass2Unfold(toks: seq<Token>, base: int, vals: map<string, int>, mem: seq<int>)
    requires toks != []
    ensures var m := Module2(toks, base, vals, mem);
            Pass2From(toks, base, vals, mem)
            == if m.Ok? then Pass2From(m.value.1, base + m.value.2, vals, m.value.0) else Err(m.error)
  {
    assert Pass2From(toks, base, vals, mem) == Pass2Next(toks, base, vals, mem) == Pass2Then(toks, base, vals, mem);
  }

  lemma Module1Keeps(toks: seq<Token>, base: int, st: Names)
    requires Agrees(st) && Module1(toks, base, st).Ok?
    ensures Agrees(Module1(toks, base, st).value.0) && Extends(st, Module1(toks, base, st).value.0)
  {
    DefsThenKeeps(toks[1..], IntOf(toks).value, base, st);
  }

  /** One module of a Pass 1 that goes through: the table it leaves, which
      extends the one before it, the tokens after it and its instruction count. */
  lemma Pass1Step(toks: seq<Token>, base: int, st: Names) returns (st': Names, rest: seq<Token>, ic: nat)
    requires toks != [] && Pass1From(toks, base, st).Ok?
    ensures |rest| < |toks| && Pass1From(toks, base, st) == Pass1From(rest, base + ic, st')
    ensures Agrees(st) ==> Agrees(st') && Extends(st, st')
  {
    Pass1Unfold(toks, base, st);
    var m := Module1(toks, base, st).value;
    st', rest, ic := m.0, m.1, m.2;
    if Agrees(st) {
      Module1Keeps(toks, base, st);
    }
  }

  lemma ExtendsTrans(a: Names, b: Names, c: Names)
    requires Extends(a, b) && Extends(b, c)
    ensures Extends(a, c)
  {
    assert c.syms[..|a.syms|] == c.syms[..|b.syms|][..|a.syms|];
  }

  /** Pass 1 keeps the table consistent; a name, once entered, keeps its
      place in the definition order and its value, since a second
      definition stops the draft. */
  lemma {:induction false} Pass1Keeps(toks: seq<Token>, base: int, st: Names)
    requires Agrees(st) && Pass1From(toks, base, st).Ok?
    ensures Agrees(Pass1From(toks, base, st).value) && Extends(st, Pass1From(toks, base, st).value)
    decreases |toks|
  {
    if toks != [] {
      var st', rest, ic := Pass1Step(toks, base, st);
      Pass1Keeps(rest, base + ic, st');
      ExtendsTrans(st, st', Pass1From(toks, base, st).value);
    }
  }

  /** A definition goes through exactly when it is a symbol token, then an
      integer token, and the name is not yet defined; it is then entered last
      at its written value plus the module base, whatever that value is: the
      module's size, read only after the definitions, is never compared. */
  lemma DefinitionNotRangeChecked(toks: seq<Token>, base: int, st: Names)
    ensures DefStep(toks, base, st).Ok? <==>
              SymOf(toks).Ok? && IntOf(toks[1..]).Ok? && SymOf(toks).value !in st.vals
    ensures DefStep(toks, base, st).Ok? ==>
              var sym, st' := toks[0].text, DefStep(toks, base, st).value.0;
              && st'.syms == st.syms + [sym]
              && st'.vals == st.vals[sym := IntOf(toks[1..]).value + base]
  {
  }

  /** Pass 2 on one module appends one word per instruction. */
  lemma Module2Grows(toks: seq<Token>, base: int, vals: map<string, int>, mem: seq<int>)
    requires Module2(toks, base, vals, mem).Ok?
    ensures var m := Module2(toks, base, vals, mem).value;
            |m.0| == |mem| + m.2 && m.0[..|mem|] == mem
  {
  }

  /** One module of a Pass 2 that goes through: the memory map it leaves,
      one word longer per instruction and never past 256 words, the tokens
      after it and its instruction count. */
  lemma Pass2Step(toks: seq<Token>, base: int, vals: map<string, int>, mem: seq<int>)
      returns (mem': seq<int>, rest: seq<Token>, ic: nat)
    requires toks != [] && Pass2From(toks, base, vals, mem).Ok?
    ensures |rest| < |toks| && Pass2From(toks, base, vals, mem) == Pass2From(rest, base + ic, vals, mem')
    ensures |mem'| == |mem| + ic && mem'[..|mem|] == mem
    ensures |mem| <= MemoryCap ==> |mem'| <= MemoryCap
  {
    Pass2Unfold(toks, base, vals, mem);
    var m := Module2(toks, base, vals, mem).value;
    mem', rest, ic := m.0, m.1, m.2;
    Module2Grows(toks, base, vals, mem);
    if |mem| <= MemoryCap {
      ModuleWithinCap(toks, base, vals, mem);
    }
  }

  lemma PrefixTrans(a: seq<int>, b: seq<int>, c: seq<int>)
    requires |a| <= |b| <= |c| && b[..|a|] == a && c[..|b|] == b
    ensures c[..|a|] == a
  {
    assert c[..|a|] == c[..|b|][..|a|];
  }

  /** When every module's base is the memory map's size at its start, as
      the draft arranges from an empty map at base 0, Pass 2 never grows the
      map past 256 words and only ever appends to it. */
  lemma {:induction false} Pass2WithinCap(toks: seq<Token>, vals: map<string, int>, mem: seq<int>)
    requires |mem| <= MemoryCap && Pass2From(toks, |mem|, vals, mem).Ok?
    ensures var mem' := Pass2From(toks, |mem|, vals, mem).value;
            |mem| <= |mem'| <= MemoryCap && mem'[..|mem|] == mem
    decreases |toks|
  {
    if toks != [] {
      var mem', rest, ic := Pass2Step(toks, |mem|, vals, mem);
      Pass2WithinCap(rest, vals, mem');
      PrefixTrans(mem, mem', Pass2From(toks, |mem|, vals, mem).value);
    }
  }

  lemma ModuleWithinCap(toks: seq<Token>, base: int, vals: map<string, int>, mem: seq<int>)
    requires |mem| <= MemoryCap && Module2(toks, base, vals, mem).Ok?
    ensures |Module2(toks, base, vals, mem).value.0| <= MemoryCap
  {
    var defcount := IntOf(toks).value;
    var r1 := SkipDefs(toks[1..], defcount).value;
    var u := UsesThen(r1[1..], IntOf(r1).value, []).value;
    InstrsThenWithinCap(u.1[1..], IntOf(u.1).value, base, u.0, vals, mem);
  }

  lemma {:induction false} InstrsThenWithinCap(toks: seq<Token>, n: nat, base: int, uses: seq<string>,
                                               vals: map<string, int>, mem: seq<int>)
    requires |mem| <= MemoryCap && InstrsThen(toks, n, base, uses, vals, mem).Ok?
    ensures |InstrsThen(toks, n, base, uses, vals, mem).value.0| <= MemoryCap
    decreases n
  {
    if n > 0 {
      var p := InstrStep(toks, base, uses, vals, mem).value;
      InstrsThenWithinCap(p.1, n - 1, base, uses, vals, p.0);
    }
  }

  /** The faults that a well-formed input can still meet in Pass 2: those
      about what the words mean, not about how the input is written. */
  predicate IsSemantic(f: Fault)
  {
    f.UsecountExceeds? || f.WrongOpcode? || f.WrongOperand? || f.WrongSym? || f.LargerThanMachine? || f.ExceedMemory?
  }

  lemma {:induction false} SkipDefsAfterDefs(toks: seq<Token>, n: nat, base: int, st: Names)
    requires DefsThen(toks, n, base, st).Ok?
    ensures SkipDefs(toks, n) == Ok(DefsThen(toks, n, base, st).value.1)
    decreases n
  {
    if n > 0 {
      var p := DefStep(toks, base, st).value;
      SkipDefsAfterDefs(p.1, n - 1, base, p.0);
    }
  }

  lemma {:induction false} InstrsAfterSkip(toks: seq<Token>, n: nat, base: int, uses: seq<string>,
                                           vals: map<string, int>, mem: seq<int>)
    requires SkipInstrs(toks, n).Ok?
    ensures var r := InstrsThen(toks, n, base, uses, vals, mem);
            (r.Ok? && r.value.1 == SkipInstrs(toks, n).value) || (r.Err? && IsSemantic(r.error))
    decreases n
  {
    if n > 0 {
      var step := InstrStep(toks, base, uses, vals, mem);
      if step.Ok? {
        InstrsAfterSkip(toks[2..], n - 1, base, uses, vals, step.value.0);
      }
    }
  }

  /** A module Pass 1 went through, Pass 2 reads to the same end, with the
      same instruction count, or stops for a semantic fault. */
  lemma Module2AfterModule1(toks: seq<Token>, base1: int, st: Names, base2: int, vals: map<string, int>, mem: seq<int>)
    requires Module1(toks, base1, st).Ok?
    ensures var m1, r := Module1(toks, base1, st).value, Module2(toks, base2, vals, mem);
            (r.Ok? && r.value.1 == m1.1 && r.value.2 == m1.2) || (r.Err? && IsSemantic(r.error))
  {
    var defcount := IntOf(toks).value;
    SkipDefsAfterDefs(toks[1..], defcount, base1, st);
    var d := DefsThen(toks[1..], defcount, base1, st).value;
    var u := UsesThen(d.1[1..], IntOf(d.1).value, []).value;
    InstrsAfterSkip(u.1[1..], IntOf(u.1).value, base2, u.0, vals, mem);
  }

  /** Pass 2 on a module Pass 1 went through: it stops there for a
      semantic fault, or goes on after the same tokens with the same
      instruction count. */
  lemma Pass2Follows(toks: seq<Token>, base1: int, st: Names, base2: int, vals: map<string, int>, mem: seq<int>)
      returns (more: bool, mem': seq<int>)
    requires toks != [] && Module1(toks, base1, st).Ok?
    ensures var m1 := Module1(toks, base1, st).value;
            more ==> Pass2From(toks, base2, vals, mem) == Pass2From(m1.1, base2 + m1.2, vals, mem')
    ensures !more ==> Pass2From(toks, base2, vals, mem).Err? && IsSemantic(Pass2From(toks, base2, vals, mem).error)
  {
    Pass2Unfold(toks, base2, vals, mem);
    Module2AfterModule1(toks, base1, st, base2, vals, mem);
    var r := Module2(toks, base2, vals, mem);
    more := r.Ok?;
    mem' := if more then r.value.0 else mem;
  }

  /** One module of a Pass 1 that goes through, read by Pass 2: Pass 2
      either stops there for a semantic fault, or goes on after the same
      tokens with the same instruction count. */
  lemma PassesStep(toks: seq<Token>, base1: int, st: Names, base2: int, vals: map<string, int>, mem: seq<int>)
      returns (more: bool, st': Names, mem': seq<int>, rest: seq<Token>, ic: nat)
    requires toks != [] && Pass1From(toks, base1, st).Ok?
    ensures |rest| < |toks| && Pass1From(toks, base1, st) == Pass1From(rest, base1 + ic, st')
    ensures more ==> Pass2From(toks, base2, vals, mem) == Pass2From(rest, base2 + ic, vals, mem')
    ensures !more ==> Pass2From(toks, base2, vals, mem).Err? && IsSemantic(Pass2From(toks, base2, vals, mem).error)
  {
    Pass1Unfold(toks, base1, st);
    var m1 := Module1(toks, base1, st).value;
    st', rest, ic := m1.0, m1.1, m1.2;
    more, mem' := Pass2Follows(toks, base1, st, base2, vals, mem);
  }

  /** Pass 1 checks everything about how the input is written: once it went
      through, Pass 2 over the same tokens either goes through or stops for
      a semantic fault, whatever the bases, values and map it starts from. */
  lemma {:induction false} Pass2AfterPass1(toks: seq<Token>, base1: int, st: Names, base2: int,
                                           vals: map<string, int>, mem: seq<int>)
    requires Pass1From(toks, base1, st).Ok?
    ensures Pass2From(toks, base2, vals, mem).Ok? || IsSemantic(Pass2From(toks, base2, vals, mem).error)
    decreases |toks|
  {
    if toks != [] {
      var more, st', mem', rest, ic := PassesStep(toks, base1, st, base2, vals, mem);
      if more {
        Pass2AfterPass1(rest, base1 + ic, st', base2 + ic, vals, mem');
      }
    }
  }

  /** The draft's outcome: after a clean Pass 1, a consistent symbol table
      and either a memory map of at most 256 words or a semantic fault. */
  lemma LinkOutcome(input: seq<string>)
    ensures Link(input).Ok? ==> Agrees(Link(input).value.0)
    ensures Link(input).Ok? && Link(input).value.1.Ok? ==> |Link(input).value.1.value| <= MemoryCap
    ensures Link(input).Ok? && Link(input).value.1.Err? ==> IsSemantic(Link(input).value.1.error)
  {
    var st0 := Names([], map[]);
    var p1 := Pass1From(Tokens(input), 0, st0);
    if p1.Ok? {
      Pass1Keeps(Tokens(input), 0, st0);
      Pass2AfterPass1(Tokens(input), 0, st0, 0, p1.value.vals, []);
      if Pass2From(Tokens(input), 0, p1.value.vals, []).Ok? {
        Pass2WithinCap(Tokens(input), p1.value.vals, []);
      }
    }
  }
}
