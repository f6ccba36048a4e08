/** The earlier, stricter draft of the linker (main.cpp): what its readers
    accept and how it resolves an instruction word, as pure functions over
    the same token stream as the final linker's. The draft stops at the
    first anomaly, so every reader and the resolver yield a Fault instead of
    a diagnostic with a fallback value. */
module DraftSyntax {
  import opened Wrappers
  import opened Text
  import opened Diagnostics
  import opened Lexer
  import opened Syntax
  import opened Resolver
  import opened Symbols
  import Scanner

  /** Why the draft stops. Aborted stands for an uncaught exception: a read
      past the end of input (a failed substr or stoi on an empty token) or a
      digit string beyond the range of a 32-bit int; each of the others is
      one exit() with its message. */
  datatype Fault =
    | Aborted
    | WrongIntToken
    | WrongSymbolToken
    | UnexpectedToken
    | WrongOpcode
    | WrongOperand
    | LargerThanMachine
    | WrongSym
    | DuplicateDefinition
    | ExceedMemory
    | DefcountExceeds
    | UsecountExceeds

  /** A symbol the draft accepts: at most 16 characters, all alphanumeric. */
  predicate IsDraftSymbol(s: string)
  {
    |s| <= MaxSymbolLength && forall i :: 0 <= i < |s| ==> IsAlnum(s[i])
  }

  /** The draft's number reader on the first token of `toks`. */
  function IntOf(toks: seq<Token>): (r: Result<nat, Fault>)
    ensures r.Ok? ==> toks != []
  {
    if toks == [] then Err(Aborted)
    else if !AllDigits(toks[0].text) then Err(WrongIntToken)
    else if toks[0].text == [] || Value(toks[0].text) > Scanner.IntMax then Err(Aborted)
    else Ok(Value(toks[0].text))
  }

  /** The draft's symbol reader on the first token of `toks`. */
  function SymOf(toks: seq<Token>): (r: Result<string, Fault>)
    ensures r.Ok? ==> toks != []
  {
    if toks == [] then Err(Aborted)
    else if !IsDraftSymbol(toks[0].text) then Err(WrongSymbolToken)
    else Ok(toks[0].text)
  }

  /** The draft's addressing-mode reader on the first token of `toks`. */
  function ModeOf(toks: seq<Token>): (r: Result<char, Fault>)
    ensures r.Ok? ==> toks != [] && IsMode(r.value)
  {
    if toks == [] then Err(Aborted)
    else if !IsModeToken(toks[0].text) then Err(UnexpectedToken)
    else Ok(toks[0].text[0])
  }

  /** Every number the final linker's validating reader accepts, the draft
      reads to the same value; the draft also accepts the digit strings from
      2^30 up to the 32-bit limit, which the linker rejects. */
  lemma NumbersReadAlike(toks: seq<Token>, end: EndPos)
    ensures ReadNumber(toks, end, Plain).Ok? ==> IntOf(toks) == Ok(ReadNumber(toks, end, Plain).value)
    ensures IntOf(toks).Ok? ==> (ReadNumber(toks, end, Plain).Ok? <==> IntOf(toks).value < MaxNumber)
  {
  }

  /** A non-empty token the draft reads as a symbol is one the final linker
      accepts exactly when it starts with a letter. */
  lemma SymbolsReadAlike(toks: seq<Token>, end: EndPos)
    requires toks != [] && toks[0].text != []
    ensures ReadSymbol(toks, end).Ok? ==> SymOf(toks) == Ok(ReadSymbol(toks, end).value)
    ensures SymOf(toks).Ok? ==> (ReadSymbol(toks, end).Ok? <==> IsAlpha(toks[0].text[0]))
  {
  }

  /** The draft accepts a name with a leading digit, which the final linker
      refuses. */
  lemma LeadingDigitAccepted()
    ensures SymOf([Token(1, 1, "9lives")]) == Ok("9lives")
    ensures ReadSymbol([Token(1, 1, "9lives")], EndPos(1, 7)) == Err(ParseError(SymExpected, 1, 1))
  {
    assert !IsAlpha("9lives"[0]);
  }

  /** Both linkers read the same addressing modes. */
  lemma ModesReadAlike(toks: seq<Token>, end: EndPos)
    ensures ModeOf(toks).Ok? <==> ReadMode(toks, end).Ok?
    ensures ModeOf(toks).Ok? ==> ModeOf(toks).value == ReadMode(toks, end).value
  {
  }

  /** The draft's resolution of word `instr` under `mode` at module base
      `base`, against the use list `uses` and the symbol values `vals`. */
  function DraftResolve(mode: char, instr: nat, base: int, uses: seq<string>, vals: map<string, int>): Result<int, Fault>
    requires IsMode(mode)
  {
    var opcode, operand := Opcode(instr), Operand(instr);
    if opcode >= 10 then Err(WrongOpcode)
    else if mode == 'R' then Ok(instr + base)
    else if mode == 'E' then
      if operand >= |uses| then Err(WrongOperand)
      else if uses[operand] !in vals then Err(WrongSym)
      else Ok(opcode * 1000 + vals[uses[operand]])
    else if mode == 'A' then
      if operand >= MachineSize then Err(LargerThanMachine) else Ok(instr)
    else Ok(instr)
  }

  /** The draft resolves a word exactly when the final linker resolves it
      without a semantic error, or with only the relative-range error, and
      then to the same word -- except that the draft relocates an
      out-of-range relative operand anyway. */
  lemma ResolveAlike(mode: char, instr: nat, base: nat, size: nat, uses: seq<Use>, table: map<string, SymInfo>,
                     names: seq<string>, vals: map<string, int>)
    requires IsMode(mode)
    requires |names| == |uses| && forall i :: 0 <= i < |uses| ==> names[i] == uses[i].sym
    requires forall s :: s in vals <==> s in table
    requires forall s :: s in vals ==> vals[s] == table[s].val
    ensures var info := Resolve(mode, instr, base, size, uses, table).info;
            && (DraftResolve(mode, instr, base, names, vals).Ok? <==> info.err.None? || info.err == Some(RelativeTooBig))
            && (info.err.None? ==> DraftResolve(mode, instr, base, names, vals) == Ok(info.val))
            && (info.err == Some(RelativeTooBig) ==> DraftResolve(mode, instr, base, names, vals) == Ok(instr + base))
  {
    if Opcode(instr) < 10 && mode == 'E' && Operand(instr) < |uses| {
      assert names[Operand(instr)] == uses[Operand(instr)].sym;
    }
  }
}
