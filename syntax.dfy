/** What the validating readers accept, and the module grammar that Pass 1
    checks, as pure functions over the token stream. A module is
      defcount (sym val)* usecount sym* instcount (mode word)*
    and the readers stop the linker with a ParseError at the offending token,
    or at the end-of-input coordinates when the stream runs out. */
module Syntax {
  import opened Wrappers
  import opened Text
  import opened Diagnostics
  import opened Lexer

  /** 2^30: the smallest digit string value that is not a number. */
  const MaxNumber := 1073741824
  /** The largest definition count and use count of a module. */
  const MaxListCount := 16
  /** The size of the target memory: the bound on the total instruction count. */
  const MachineSize := 512
  /** The longest symbol name. */
  const MaxSymbolLength := 16

  /** The coordinates at which an error is reported when input runs out. */
  datatype EndPos = EndPos(line: nat, offset: nat)

  function EndOf(lines: seq<string>): EndPos
  {
    EndPos(EndLine(lines), EndOffset(lines))
  }

  function ErrorAt(kind: ParseErrorKind, t: Token): ParseError
  {
    ParseError(kind, t.line, t.offset)
  }

  function ErrorAtEnd(kind: ParseErrorKind, end: EndPos): ParseError
  {
    ParseError(kind, end.line, end.offset)
  }

  /** A token that the validating number reader accepts. */
  predicate IsNumber(s: string)
  {
    IsNumeral(s) && Value(s) < MaxNumber
  }

  /** A well-formed symbol name, whatever its length. */
  predicate IsSymbolShape(s: string)
  {
    |s| > 0 && IsAlpha(s[0]) && forall i :: 1 <= i < |s| ==> IsAlnum(s[i])
  }

  /** The error the validating symbol reader reports for a token, if any. */
  function SymbolError(s: string): Option<ParseErrorKind>
  {
    if !IsSymbolShape(s) then Some(SymExpected)
    else if |s| > MaxSymbolLength then Some(SymTooLong)
    else None
  }

  predicate IsModeToken(s: string)
  {
    s == "I" || s == "A" || s == "E" || s == "R"
  }

  /** The count a number read stands for, and so the bound it is checked against. */
  datatype CountKind = Plain | DefCount | UseCount | InstrCount(memUsed: nat)

  /** The error a validated count of the given kind raises, if any. */
  function CountError(kind: CountKind, v: nat): Option<ParseErrorKind>
  {
    match kind
    case Plain => None
    case DefCount => if v > MaxListCount then Some(TooManyDefInModule) else None
    case UseCount => if v > MaxListCount then Some(TooManyUseInModule) else None
    case InstrCount(memUsed) => if v + memUsed > MachineSize then Some(TooManyInstr) else None
  }

  /** The validating number reader on the first token of `toks`. */
  function ReadNumber(toks: seq<Token>, end: EndPos, kind: CountKind): (r: Result<nat, ParseError>)
    ensures r.Ok? ==> toks != [] && IsNumber(toks[0].text) && r.value == Value(toks[0].text)
  {
    if toks == [] then Err(ErrorAtEnd(NumExpected, end))
    else if !IsNumber(toks[0].text) then Err(ErrorAt(NumExpected, toks[0]))
    else
      var v := Value(toks[0].text);
      match CountError(kind, v)
      case Some(k) => Err(ErrorAt(k, toks[0]))
      case None => Ok(v)
  }

  /** The validating symbol reader on the first token of `toks`. */
  function ReadSymbol(toks: seq<Token>, end: EndPos): (r: Result<string, ParseError>)
    ensures r.Ok? ==> toks != [] && r.value == toks[0].text
  {
    if toks == [] then Err(ErrorAtEnd(SymExpected, end))
    else
      match SymbolError(toks[0].text)
      case Some(k) => Err(ErrorAt(k, toks[0]))
      case None => Ok(toks[0].text)
  }

  /** The validating addressing-mode reader on the first token of `toks`. */
  function ReadMode(toks: seq<Token>, end: EndPos): (r: Result<char, ParseError>)
    ensures r.Ok? ==> toks != [] && IsModeToken(toks[0].text) && r.value == toks[0].text[0]
  {
    if toks == [] then Err(ErrorAtEnd(AddrExpected, end))
    else if !IsModeToken(toks[0].text) then Err(ErrorAt(AddrExpected, toks[0]))
    else Ok(toks[0].text[0])
  }

  /** One definition as written: a name and its module-relative value. */
  datatype Def = Def(sym: string, val: nat)

  /** One instruction as written: its addressing mode and its word. */
  datatype Instr = Instr(mode: char, word: nat)

  predicate IsMode(c: char)
  {
    c == 'I' || c == 'A' || c == 'E' || c == 'R'
  }

  /** One module as written. */
  datatype ModuleText = ModuleText(defs: seq<Def>, uses: seq<string>, code: seq<Instr>)

  /** A module that passed validation: counts in bounds, names well formed,
      modes valid and numbers below 2^30. */
  predicate ValidModule(m: ModuleText)
  {
    |m.defs| <= MaxListCount && ValidLists(m)
  }

  /** Everything ValidModule asks but the bound on the definition count. */
  predicate ValidLists(m: ModuleText)
  {
    && |m.uses| <= MaxListCount
    && (forall i :: 0 <= i < |m.defs| ==> SymbolError(m.defs[i].sym).None? && m.defs[i].val < MaxNumber)
    && (forall i :: 0 <= i < |m.uses| ==> SymbolError(m.uses[i]).None?)
    && (forall i :: 0 <= i < |m.code| ==> IsMode(m.code[i].mode) && m.code[i].word < MaxNumber)
  }

  /** Reads `n` more definitions after those in `acc`. */
  function ReadDefs(toks: seq<Token>, end: EndPos, n: nat, acc: seq<Def>): (r: Result<(seq<Def>, seq<Token>), ParseError>)
    ensures r.Ok? ==> |r.value.0| == |acc| + n && r.value.0[..|acc|] == acc && |r.value.1| <= |toks|
    ensures r.Ok? ==> forall i :: |acc| <= i < |r.value.0| ==>
              SymbolError(r.value.0[i].sym).None? && r.value.0[i].val < MaxNumber
    decreases n
  {
    if n == 0 then Ok((acc, toks))
    else
      var sym :- ReadSymbol(toks, end);
      var val :- ReadNumber(toks[1..], end, Plain);
      ReadDefs(toks[2..], end, n - 1, acc + [Def(sym, val)])
  }

  /** Reads `n` more use-list names after those in `acc`. */
  function ReadUses(toks: seq<Token>, end: EndPos, n: nat, acc: seq<string>): (r: Result<(seq<string>, seq<Token>), ParseError>)
    ensures r.Ok? ==> |r.value.0| == |acc| + n && r.value.0[..|acc|] == acc && |r.value.1| <= |toks|
    ensures r.Ok? ==> forall i :: |acc| <= i < |r.value.0| ==> SymbolError(r.value.0[i]).None?
    decreases n
  {
    if n == 0 then Ok((acc, toks))
    else
      var sym :- ReadSymbol(toks, end);
      ReadUses(toks[1..], end, n - 1, acc + [sym])
  }

  /** Reads `n` more instructions after those in `acc`. */
  function ReadCode(toks: seq<Token>, end: EndPos, n: nat, acc: seq<Instr>): (r: Result<(seq<Instr>, seq<Token>), ParseError>)
    ensures r.Ok? ==> |r.value.0| == |acc| + n && r.value.0[..|acc|] == acc && |r.value.1| <= |toks|
    ensures r.Ok? ==> forall i :: |acc| <= i < |r.value.0| ==>
              IsMode(r.value.0[i].mode) && r.value.0[i].word < MaxNumber
    decreases n
  {
    if n == 0 then Ok((acc, toks))
    else
      var mode :- ReadMode(toks, end);
      var word :- ReadNumber(toks[1..], end, Plain);
      ReadCode(toks[2..], end, n - 1, acc + [Instr(mode, word)])
  }

  /** Pass 1's reading of one module, when `memUsed` instructions precede it:
      its definition count, then the rest of it. */
  function ParseModule(toks: seq<Token>, end: EndPos, memUsed: nat): (r: Result<(ModuleText, seq<Token>), ParseError>)
    ensures r.Ok? ==> |r.value.1| < |toks|
    ensures r.Ok? ==> ValidModule(r.value.0) && memUsed + |r.value.0.code| <= MachineSize
  {
    var defcount :- ReadNumber(toks, end, DefCount);
    ParseModuleRest(toks[1..], end, memUsed, defcount)
  }

  /** The rest of a module after its definition count: the `defcount`
      definitions, the use list and the program text. */
  function ParseModuleRest(toks: seq<Token>, end: EndPos, memUsed: nat, defcount: nat)
    : (r: Result<(ModuleText, seq<Token>), ParseError>)
    ensures r.Ok? ==> |r.value.1| < |toks|
    ensures r.Ok? ==> |r.value.0.defs| == defcount && ValidLists(r.value.0) && memUsed + |r.value.0.code| <= MachineSize
  {
    var (defs, t1) :- ReadDefs(toks, end, defcount, []);
    var usecount :- ReadNumber(t1, end, UseCount);
    var (uses, t2) :- ReadUses(t1[1..], end, usecount, []);
    var instcount :- ReadNumber(t2, end, InstrCount(memUsed));
    var (code, t3) :- ReadCode(t2[1..], end, instcount, []);
    Ok((ModuleText(defs, uses, code), t3))
  }

  /** A module Pass 1 read, taken apart into the six reads that produced it:
      the three counts and the three lists, with the tokens left after each list. */
  lemma ParseModuleStages(toks: seq<Token>, end: EndPos, memUsed: nat) returns (t1: seq<Token>, t2: seq<Token>)
    requires ParseModule(toks, end, memUsed).Ok?
    ensures var (m, t3) := ParseModule(toks, end, memUsed).value;
            && toks != [] && ReadNumber(toks, end, DefCount) == Ok(|m.defs|)
            && ReadDefs(toks[1..], end, |m.defs|, []) == Ok((m.defs, t1))
            && t1 != [] && ReadNumber(t1, end, UseCount) == Ok(|m.uses|)
            && ReadUses(t1[1..], end, |m.uses|, []) == Ok((m.uses, t2))
            && t2 != [] && ReadNumber(t2, end, InstrCount(memUsed)) == Ok(|m.code|)
            && ReadCode(t2[1..], end, |m.code|, []) == Ok((m.code, t3))
  {
    var defcount := ReadNumber(toks, end, DefCount).value;
    t1 := ReadDefs(toks[1..], end, defcount, []).value.1;
    var usecount := ReadNumber(t1, end, UseCount).value;
    t2 := ReadUses(t1[1..], end, usecount, []).value.1;
  }

  /** Pass 1's reading of the modules that remain: those read before (`acc`)
      and the ones read now, up to the end of input or the first fatal error. */
  function ParseFrom(toks: seq<Token>, end: EndPos, memUsed: nat, acc: seq<ModuleText>): (seq<ModuleText>, Option<ParseError>)
    decreases |toks|, 3
  {
    if toks == [] then (acc, None) else ParseNext(toks, end, memUsed, acc)
  }

  /** Pass 1's reading of a non-empty rest of the input.
      It adds no behaviour: it stands between the loop's function and the
      module step only so that the verifier unfolds one layer at a time. */
  function ParseNext(toks: seq<Token>, end: EndPos, memUsed: nat, acc: seq<ModuleText>): (seq<ModuleText>, Option<ParseError>)
    decreases |toks|, 2
  {
    ParseModuleThen(toks, end, memUsed, acc)
  }

  /** Reads the definition count of the module at the head of `toks`, then
      the rest of that module and the modules after it. */
  function ParseModuleThen(toks: seq<Token>, end: EndPos, memUsed: nat, acc: seq<ModuleText>)
    : (seq<ModuleText>, Option<ParseError>)
    decreases |toks|, 1
  {
    match ReadNumber(toks, end, DefCount)
    case Err(e) => (acc, Some(e))
    case Ok(defcount) => ParseRestThen(toks[1..], end, memUsed, defcount, acc)
  }

  /** Reads the rest of a module after its definition count, then the
      modules after it. */
  function ParseRestThen(toks: seq<Token>, end: EndPos, memUsed: nat, defcount: nat, acc: seq<ModuleText>)
    : (seq<ModuleText>, Option<ParseError>)
    decreases |toks|, 0
  {
    match ParseModuleRest(toks, end, memUsed, defcount)
    case Err(e) => (acc, Some(e))
    case Ok((m, rest)) => ParseFrom(rest, end, memUsed + |m.code|, acc + [m])
  }

  /** Pass 1 on a non-empty input reads the definition count, then the rest
      of the module, then goes on after it. */
  lemma ParseFromUnfold(toks: seq<Token>, end: EndPos, memUsed: nat, acc: seq<ModuleText>)
    requires toks != []
    ensures ParseFrom(toks, end, memUsed, acc)
            == match ReadNumber(toks, end, DefCount)
               case Err(e) => (acc, Some(e))
               case Ok(defcount) =>
                 match ParseModuleRest(toks[1..], end, memUsed, defcount)
                 case Err(e) => (acc, Some(e))
                 case Ok((m, rest)) => ParseFrom(rest, end, memUsed + |m.code|, acc + [m])
  {
    assert ParseFrom(toks, end, memUsed, acc) == ParseNext(toks, end, memUsed, acc);
    assert ParseNext(toks, end, memUsed, acc) == ParseModuleThen(toks, end, memUsed, acc);
    var n := ReadNumber(toks, end, DefCount);
    if n.Ok? {
      assert ParseModuleThen(toks, end, memUsed, acc) == ParseRestThen(toks[1..], end, memUsed, n.value, acc);
    }
  }

  /** Pass 1 stops at a module that fails to parse, with that module's error. */
  lemma ParseFromStops(toks: seq<Token>, end: EndPos, memUsed: nat, acc: seq<ModuleText>)
    requires toks != [] && ParseModule(toks, end, memUsed).Err?
    ensures ParseFrom(toks, end, memUsed, acc) == (acc, Some(ParseModule(toks, end, memUsed).error))
  {
    ParseFromUnfold(toks, end, memUsed, acc);
  }

  /** After a module that parses, Pass 1 goes on with the tokens after it. */
  lemma ParseFromGoesOn(toks: seq<Token>, end: EndPos, memUsed: nat, acc: seq<ModuleText>, m: ModuleText, rest: seq<Token>)
    requires toks != [] && ParseModule(toks, end, memUsed) == Ok((m, rest))
    ensures ParseFrom(toks, end, memUsed, acc) == ParseFrom(rest, end, memUsed + |m.code|, acc + [m])
  {
    ParseFromUnfold(toks, end, memUsed, acc);
  }

  /** The modules of a whole input that Pass 1 reads, and its fatal error if any. */
  function Parse(lines: seq<string>): (seq<ModuleText>, Option<ParseError>)
  {
    ParseFrom(Tokens(lines), EndOf(lines), 0, [])
  }

  /** The number of instructions in a sequence of modules. */
  function Size(mods: seq<ModuleText>): nat
  {
    if mods == [] then 0 else Size(mods[..|mods| - 1]) + |mods[|mods| - 1].code|
  }

  lemma SizeAppend(mods: seq<ModuleText>, m: ModuleText)
    ensures Size(mods + [m]) == Size(mods) + |m.code|
  {
    assert (mods + [m])[..|mods|] == mods;
  }

  /** The relocation base of module `k` (0-based): the size of the modules before it. */
  function Base(mods: seq<ModuleText>, k: nat): nat
    requires k <= |mods|
  {
    Size(mods[..k])
  }

  /** Pass 1 extends the modules already read. */
  lemma {:induction false} ParseFromExtends(toks: seq<Token>, end: EndPos, memUsed: nat, acc: seq<ModuleText>)
    ensures |acc| <= |ParseFrom(toks, end, memUsed, acc).0|
    ensures forall i :: 0 <= i < |acc| ==> ParseFrom(toks, end, memUsed, acc).0[i] == acc[i]
    decreases |toks|
  {
    var next, m, rest := ParseFromStep(toks, end, memUsed, acc);
    if next {
      ParseFromExtends(rest, end, memUsed + |m.code|, acc + [m]);
    }
  }

  /** Everything Pass 1 reads fits the machine: the total instruction count
      stays at most 512. */
  lemma {:induction false} ParseFromFits(toks: seq<Token>, end: EndPos, memUsed: nat, acc: seq<ModuleText>)
    requires memUsed == Size(acc) <= MachineSize
    ensures Size(ParseFrom(toks, end, memUsed, acc).0) <= MachineSize
    decreases |toks|
  {
    var more, m, rest := ParseFromStep(toks, end, memUsed, acc);
    if more {
      SizeAppend(acc, m);
      ParseFromFits(rest, end, memUsed + |m.code|, acc + [m]);
    }
  }

  /** Every module Pass 1 reads passed validation. */
  lemma {:induction false} ParseFromValid(toks: seq<Token>, end: EndPos, memUsed: nat, acc: seq<ModuleText>)
    requires forall m :: m in acc ==> ValidModule(m)
    ensures forall m :: m in ParseFrom(toks, end, memUsed, acc).0 ==> ValidModule(m)
    decreases |toks|
  {
    var more, m, rest := ParseFromStep(toks, end, memUsed, acc);
    if more {
      ParseFromValid(rest, end, memUsed + |m.code|, acc + [m]);
    }
  }

  /** One step of Pass 1's module loop: either reading stops here, or one
      more valid module `m` is read and reading continues after it. */
  lemma ParseFromStep(toks: seq<Token>, end: EndPos, memUsed: nat, acc: seq<ModuleText>)
      returns (more: bool, m: ModuleText, rest: seq<Token>)
    ensures !more ==> ParseFrom(toks, end, memUsed, acc).0 == acc
    ensures more ==> && ParseFrom(toks, end, memUsed, acc) == ParseFrom(rest, end, memUsed + |m.code|, acc + [m])
                     && |rest| < |toks| && ValidModule(m) && memUsed + |m.code| <= MachineSize
  {
    more := toks != [] && ParseModule(toks, end, memUsed).Ok?;
    if more {
      m, rest := ParseModule(toks, end, memUsed).value.0, ParseModule(toks, end, memUsed).value.1;
      ParseFromGoesOn(toks, end, memUsed, acc, m, rest);
    } else {
      m, rest := ModuleText([], [], []), [];
      if toks != [] {
        ParseFromStops(toks, end, memUsed, acc);
      }
    }
  }

  /** Everything Pass 1 reads from an input is valid and fits the machine. */
  lemma ParsedModulesFit(lines: seq<string>)
    ensures Size(Parse(lines).0) <= MachineSize
    ensures forall m :: m in Parse(lines).0 ==> ValidModule(m)
  {
    ParseFromFits(Tokens(lines), EndOf(lines), 0, []);
    ParseFromValid(Tokens(lines), EndOf(lines), 0, []);
  }
}
