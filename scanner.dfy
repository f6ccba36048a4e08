/** The tokenizer: a cursor over the input lines that hands out one token at
    a time, and the readers built on it. Each method is proved against the
    pure token stream of module Lexer and the reader functions of module
    Syntax: the tokens still to come are always `Remaining()`, and every read
    takes exactly the first of them. */
module Scanner {
  import opened Wrappers
  import opened Text
  import opened Diagnostics
  import opened Lexer
  import opened Syntax
  import opened Symbols
  import opened Resolver

  /** A digit string whose significant part (after `idx` leading zeros) has
      ten or more digits and does not start with 1 when it has exactly ten
      is at least 2^30. */
  lemma LongNumeralTooBig(s: string, idx: nat)
    requires IsNumeral(s) && idx < |s| && s[idx] != '0'
    requires forall i :: 0 <= i < idx ==> s[i] == '0'
    requires |s| - idx > 10 || (|s| - idx == 10 && s[idx] != '1')
    ensures Value(s) >= MaxNumber
  {
    SkipLeadingZeros(s, idx);
    var t := s[idx..];
    LeadingDigitBounds(t);
    var d, p := DigitValue(t[0]), Pow10(|t| - 1);
    Pow10Nine();
    if |t| > 10 {
      Pow10Monotone(9, |t| - 2);
      assert p == 10 * Pow10(|t| - 2);
      MulMonotone(1, d, p);
    } else {
      MulMonotone(2, d, p);
    }
  }

  /** A digit string with at most ten significant digits, starting with 1
      when there are ten, is below 2 * 10^9 and so fits a 32-bit int. */
  lemma ShortNumeralFits(s: string, idx: nat)
    requires IsNumeral(s) && idx < |s|
    requires forall i :: 0 <= i < idx ==> s[i] == '0'
    requires |s| - idx < 10 || (|s| - idx == 10 && s[idx] == '1')
    ensures Value(s) < 2000000000
  {
    SkipLeadingZeros(s, idx);
    var t := s[idx..];
    Pow10Nine();
    if |t| < 10 {
      ValueBelow(t);
      Pow10Monotone(|t|, 9);
    } else {
      LeadingDigitBounds(t);
    }
  }

  /** The digit check of the validating number reader: it skips leading
      zeros (keeping at least one digit), rejects more than ten significant
      digits or ten not starting with 1, then requires every remaining
      character to be a digit. What it accepts fits a 32-bit int, and it
      accepts every number below 2^30. */
  method ValidateNumber(s: string) returns (ok: bool)
    requires |s| > 0
    ensures ok ==> IsNumeral(s) && Value(s) < 2000000000
    ensures IsNumber(s) ==> ok
  {
    var idx, len := 0, |s|;
    while idx < len - 1 && s[idx] == '0'
      invariant 0 <= idx <= len - 1
      invariant forall i :: 0 <= i < idx ==> s[i] == '0'
    {
      idx := idx + 1;
    }
    if len - idx > 10 || (len - idx == 10 && s[idx] != '1') {
      if IsNumeral(s) {
        LongNumeralTooBig(s, idx);
      }
      return false;
    }
    var start := idx;
    while idx < len
      invariant start <= idx <= len
      invariant forall i :: start <= i < idx ==> IsDigit(s[i])
    {
      if !IsDigit(s[idx]) {
        return false;
      }
      idx := idx + 1;
    }
    ShortNumeralFits(s, start);
    ok := true;
  }

  /** The shape and length check of the validating symbol reader. */
  method ValidateSymbol(s: string) returns (err: Option<ParseErrorKind>)
    requires |s| > 0
    ensures err == SymbolError(s)
  {
    if !IsAlpha(s[0]) {
      return Some(SymExpected);
    }
    for i := 1 to |s|
      invariant forall k :: 1 <= k < i ==> IsAlnum(s[k])
    {
      if !IsAlnum(s[i]) {
        return Some(SymExpected);
      }
    }
    if |s| > MaxSymbolLength {
      return Some(SymTooLong);
    }
    return None;
  }

  class Tokenizer {
    /** The input file, line by line. */
    const input: seq<string>
    /** The line last read; erased when reading a line fails. */
    var line: string
    var startPos: nat
    /** The 0-based scanning column on `line`. */
    var currPos: nat
    /** The number of lines read so far. */
    var lineCounter: nat
    /** Where input ran out, once it has. */
    var finalLine: nat
    var finalOffset: nat
    /** The stream's end-of-file flag. */
    var eof: bool

    /** Between calls the cursor is either at the end of input, with the
        end coordinates recorded, or on the first character of a token. */
    ghost predicate Valid()
      reads this
    {
      && lineCounter <= |input|
      && (eof ==> lineCounter == |input| && finalLine == EndLine(input) && finalOffset == EndOffset(input))
      && (!eof ==> 1 <= lineCounter && line == input[lineCounter - 1]
                   && currPos < |line| && !IsBlank(line[currPos]))
    }

    /** Inside the search for the next token: not at the end, and at some
        column of the current line. */
    ghost predicate Between()
      reads this
    {
      && !eof && InRange(input, lineCounter, currPos)
      && line == (if lineCounter == 0 then "" else input[lineCounter - 1])
    }

    /** The tokens still to be read. */
    ghost function Remaining(): seq<Token>
      reads this
      requires Valid()
    {
      if eof then [] else Scan(input, lineCounter, currPos)
    }

    /** Opens the input and moves to its first token. */
    constructor (input: seq<string>)
      ensures this.input == input
      ensures Valid() && Remaining() == Tokens(input)
    {
      this.input := input;
      line, startPos, currPos, lineCounter := "", 0, 0, 0;
      finalLine, finalOffset, eof := 0, 0, false;
      new;
      ToNextToken();
    }

    /** Skips blanks and empty or exhausted lines up to the next token, or
        to the end of input, where it records the end coordinates. */
    method ToNextToken()
      requires Between()
      modifies this
      ensures Valid() && Remaining() == old(Scan(input, lineCounter, currPos))
    {
      ghost var rest := Scan(input, lineCounter, currPos);
      while true
        invariant Between() && Scan(input, lineCounter, currPos) == rest
        decreases |input| - lineCounter, |line| - currPos
      {
        FillLine();
        if eof {
          break;
        }
        SkipBlanks();
        if currPos != |line| {
          break;
        }
      }
    }

    /** The line-reading loop of ToNextToken: reads lines while the current
        one is empty or exhausted. When no line is left, the line is erased,
        the end-of-file flag is set and the end coordinates are recorded. */
    method FillLine()
      requires Between()
      modifies this
      ensures eof ==> Valid() && old(Scan(input, lineCounter, currPos)) == []
      ensures !eof ==> && Between() && line != "" && currPos < |line|
                       && Scan(input, lineCounter, currPos) == old(Scan(input, lineCounter, currPos))
      ensures !eof ==> lineCounter > old(lineCounter)
                       || (lineCounter == old(lineCounter) && line == old(line) && currPos == old(currPos))
    {
      while line == "" || currPos == |line|
        invariant Between() && Scan(input, lineCounter, currPos) == old(Scan(input, lineCounter, currPos))
        invariant lineCounter > old(lineCounter)
                  || (lineCounter == old(lineCounter) && line == old(line) && currPos == old(currPos))
        decreases |input| - lineCounter
      {
        if lineCounter == |input| {
          // reading a line fails: the line is erased and the stream is at its end
          ScanAtEnd(input, lineCounter, currPos);
          line := "";
          eof := true;
          finalLine := lineCounter;
          finalOffset := currPos + 1;
          return;
        }
        ScanNextLine(input, lineCounter, currPos);
        line := input[lineCounter];
        currPos := 0;
        startPos := 0;
        lineCounter := lineCounter + 1;
      }
    }

    /** The blank-skipping loop of ToNextToken: moves along the current line
        past blanks, which leaves the tokens to come unchanged. */
    method SkipBlanks()
      requires !eof && 0 < lineCounter <= |input| && line == input[lineCounter - 1] && currPos <= |line|
      modifies this
      ensures !eof && lineCounter == old(lineCounter) && line == old(line)
      ensures old(currPos) <= currPos <= |line| && (currPos == |line| || !IsBlank(line[currPos]))
      ensures Scan(input, lineCounter, currPos) == old(Scan(input, lineCounter, currPos))
    {
      while currPos < |line| && IsBlank(line[currPos])
        invariant !eof && lineCounter == old(lineCounter) && line == old(line)
        invariant old(currPos) <= currPos <= |line|
        invariant Scan(input, lineCounter, currPos) == old(Scan(input, lineCounter, currPos))
      {
        ScanBlank(input, lineCounter, currPos);
        currPos := currPos + 1;
      }
    }

    /** Takes the token under the cursor and moves to the next one. */
    method GetToken() returns (token: Token)
      requires Valid() && !eof
      modifies this
      ensures Valid()
      ensures old(Remaining()) != [] && token == old(Remaining())[0] && Remaining() == old(Remaining())[1..]
      ensures |token.text| > 0
    {
      startPos := currPos;
      while currPos < |line| && !IsBlank(line[currPos])
        invariant line == old(line) && lineCounter == old(lineCounter) && !eof
        invariant startPos == old(currPos) <= currPos <= |line|
        invariant RunEnd(line, currPos) == RunEnd(line, startPos)
      {
        currPos := currPos + 1;
      }
      token := Token(lineCounter, startPos + 1, line[startPos..currPos]);
      ScanToken(input, lineCounter, startPos);
      ToNextToken();
    }

    /** Whether input has run out. */
    function IsEnd(): (b: bool)
      reads this
      requires Valid()
      ensures b <==> Remaining() == []
    {
      if eof then true
      else
        ScanToken(input, lineCounter, currPos);
        false
    }

    /** The number reader. With `check` it validates the token and the count
        bound `kind` stands for; without it, the caller guarantees a digit
        string that fits a 32-bit int. */
    method ReadInt(check: bool, kind: CountKind) returns (r: Result<nat, ParseError>)
      requires Valid()
      requires !check ==> Remaining() != [] && IsNumeral(Remaining()[0].text)
                          && Value(Remaining()[0].text) <= IntMax
      modifies this
      ensures Valid()
      ensures check ==> r == ReadNumber(old(Remaining()), EndOf(input), kind)
      ensures !check ==> r == Ok(Value(old(Remaining())[0].text))
      ensures Remaining() == if old(Remaining()) == [] then [] else old(Remaining())[1..]
    {
      if check && IsEnd() {
        return Err(ParseError(NumExpected, finalLine, finalOffset));
      }
      var token := GetToken();
      if check {
        var ok := ValidateNumber(token.text);
        if !ok {
          return Err(ErrorAt(NumExpected, token));
        }
      }
      var val := Value(token.text);
      if check && val >= MaxNumber {
        return Err(ErrorAt(NumExpected, token));
      }
      if check && kind != Plain {
        if !kind.InstrCount? {
          if val > MaxListCount {
            return Err(ErrorAt(if kind == DefCount then TooManyDefInModule else TooManyUseInModule, token));
          }
        } else if val + kind.memUsed > MachineSize {
          return Err(ErrorAt(TooManyInstr, token));
        }
      }
      return Ok(val);
    }

    /** The symbol reader; with `check` it validates shape and length. */
    method ReadSym(check: bool) returns (r: Result<string, ParseError>)
      requires Valid()
      requires !check ==> Remaining() != []
      modifies this
      ensures Valid()
      ensures check ==> r == ReadSymbol(old(Remaining()), EndOf(input))
      ensures !check ==> r == Ok(old(Remaining())[0].text)
      ensures Remaining() == if old(Remaining()) == [] then [] else old(Remaining())[1..]
    {
      if check && IsEnd() {
        return Err(ParseError(SymExpected, finalLine, finalOffset));
      }
      var token := GetToken();
      if check {
        var err := ValidateSymbol(token.text);
        if err.Some? {
          return Err(ErrorAt(err.value, token));
        }
      }
      return Ok(token.text);
    }

    /** The addressing-mode reader: the token's first character, which with
        `check` must be the whole token and one of I, A, E, R. */
    method ReadIAER(check: bool) returns (r: Result<char, ParseError>)
      requires Valid()
      requires !check ==> Remaining() != []
      modifies this
      ensures Valid()
      ensures check ==> r == ReadMode(old(Remaining()), EndOf(input))
      ensures !check ==> old(Remaining())[0].text != [] && r == Ok(old(Remaining())[0].text[0])
      ensures Remaining() == if old(Remaining()) == [] then [] else old(Remaining())[1..]
    {
      if check && IsEnd() {
        return Err(ParseError(AddrExpected, finalLine, finalOffset));
      }
      var token := GetToken();
      var mode := token.text[0];
      if check {
        if |token.text| != 1 || !(token.text == "I" || token.text == "A" || token.text == "E" || token.text == "R") {
          return Err(ErrorAt(AddrExpected, token));
        }
      }
      return Ok(mode);
    }

    /** Reads one instruction word and resolves it under `mode`: the result,
        the use list and the symbol table are exactly as Resolve says. */
    method ReadInstr(mode: char, moduleBase: nat, moduleSize: nat, uselist: array<Use>, symTab: SymTab)
        returns (info: MemInfo)
      requires Valid() && symTab.Valid() && IsMode(mode)
      requires Remaining() != [] && IsNumeral(Remaining()[0].text) && Value(Remaining()[0].text) <= IntMax
      modifies this, uselist, symTab
      ensures Valid() && Remaining() == old(Remaining())[1..]
      ensures symTab.Valid() && symTab.syms == old(symTab.syms)
      ensures var res := Resolve(mode, Value(old(Remaining())[0].text), moduleBase, moduleSize,
                                 old(uselist[..]), old(symTab.table));
              info == res.info && uselist[..] == res.uses && symTab.table == res.table
    {
      var r := ReadInt(false, Plain);
      var instr: int := r.value;
      var opcode, operand := instr / 1000, instr % 1000;
      var sym := "";
      if opcode >= 10 {
        return MemInfo(9999, Some(if mode == 'I' then IllegalImmediate else IllegalOpcode), sym);
      }
      var err: Option<LinkError> := None;
      match mode {
        case 'R' =>
          if operand >= moduleSize {
            instr := opcode * 1000 + moduleBase;
            err := Some(RelativeTooBig);
          } else {
            instr := instr + moduleBase;
          }
        case 'E' =>
          if operand >= uselist.Length {
            err := Some(ExternalTooBig);
          } else {
            instr := opcode * 1000;
            sym := uselist[operand].sym;
            uselist[operand] := Use(sym, true);
            if symTab.SymExist(sym) {
              symTab.SetUsedWarn(sym);
              instr := instr + symTab.GetVal(sym);
            } else {
              err := Some(Undefined);
            }
          }
        case 'A' =>
          if operand >= MachineSize {
            instr := opcode * 1000;
            err := Some(AbsoluteTooBig);
          }
        case 'I' =>
      }
      return MemInfo(instr, err, sym);
    }

    /** Rewinds to the start of input for the second pass; refused (the
        linker stops) unless input has run out. */
    method BackToBeginning() returns (ok: bool)
      requires Valid()
      modifies this
      ensures ok == old(eof)
      ensures ok ==> Valid() && Remaining() == Tokens(input)
      ensures !ok ==> unchanged(this)
    {
      if !eof {
        return false;
      }
      line, startPos, currPos, lineCounter := "", 0, 0, 0;
      finalLine, finalOffset := 0, 0;
      eof := false;
      ToNextToken();
      return true;
    }
  }

  /** The largest value of a 32-bit int. */
  const IntMax := 2147483647
}
