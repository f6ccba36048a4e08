/** The token stream of the input text, as a pure function of its lines.
    A token is a maximal run of characters other than space and tab on one
    line; it records its 1-based line number and the 1-based column of its
    first character. The tokenizer class in module Scanner is proved to
    produce exactly this sequence. */
module Lexer {
  import opened Text

  datatype Token = Token(line: nat, offset: nat, text: string)

  /** Where scanning of line `i` stops a token that starts at `i`: the first
      blank at or after `i`, or the end of the line. */
  function RunEnd(s: string, i: nat): (e: nat)
    requires i <= |s|
    ensures i <= e <= |s|
    ensures forall k :: i <= k < e ==> !IsBlank(s[k])
    ensures e == |s| || IsBlank(s[e])
    decreases |s| - i
  {
    if i == |s| || IsBlank(s[i]) then i else RunEnd(s, i + 1)
  }

  /** A scanning position: `lc` lines have been read (so the current line is
      `lines[lc - 1]`), and `pos` is the 0-based column on it. */
  predicate InRange(lines: seq<string>, lc: nat, pos: nat)
  {
    lc <= |lines| && (lc == 0 ==> pos == 0) && (lc > 0 ==> pos <= |lines[lc - 1]|)
  }

  /** The tokens that remain from a scanning position. */
  function Scan(lines: seq<string>, lc: nat, pos: nat): seq<Token>
    requires InRange(lines, lc, pos)
    decreases |lines| - lc, if lc == 0 then 0 else |lines[lc - 1]| - pos, 1
  {
    ScanAt(lines, lc, pos)
  }

  /** One step of Scan: the line break, blank or token at the position, then
      the rest. */
  function ScanAt(lines: seq<string>, lc: nat, pos: nat): seq<Token>
    requires InRange(lines, lc, pos)
    decreases |lines| - lc, if lc == 0 then 0 else |lines[lc - 1]| - pos, 0
  {
    if lc == 0 || pos == |lines[lc - 1]| then
      if lc == |lines| then [] else Scan(lines, lc + 1, 0)
    else if IsBlank(lines[lc - 1][pos]) then
      Scan(lines, lc, pos + 1)
    else
      var e := RunEnd(lines[lc - 1], pos);
      [Token(lc, pos + 1, lines[lc - 1][pos..e])] + Scan(lines, lc, e)
  }

  /** Scan takes one step at a time. */
  lemma ScanStep(lines: seq<string>, lc: nat, pos: nat)
    requires InRange(lines, lc, pos)
    ensures Scan(lines, lc, pos) == ScanAt(lines, lc, pos)
  {
  }

  /** A token is a maximal run of non-blank characters. */
  lemma ScanToken(lines: seq<string>, lc: nat, pos: nat)
    requires InRange(lines, lc, pos) && lc > 0 && pos < |lines[lc - 1]| && !IsBlank(lines[lc - 1][pos])
    ensures var e := RunEnd(lines[lc - 1], pos);
            Scan(lines, lc, pos) == [Token(lc, pos + 1, lines[lc - 1][pos..e])] + Scan(lines, lc, e)
  {
  }

  /** At the end of a line (or before the first), scanning goes on with the next line. */
  lemma ScanNextLine(lines: seq<string>, lc: nat, pos: nat)
    requires InRange(lines, lc, pos) && lc < |lines| && (lc == 0 || pos == |lines[lc - 1]|)
    ensures Scan(lines, lc, pos) == Scan(lines, lc + 1, 0)
  {
  }

  /** Past the last line, nothing remains. */
  lemma ScanAtEnd(lines: seq<string>, lc: nat, pos: nat)
    requires InRange(lines, lc, pos) && lc == |lines| && (lc == 0 || pos == |lines[lc - 1]|)
    ensures Scan(lines, lc, pos) == []
  {
  }

  /** A blank is skipped. */
  lemma ScanBlank(lines: seq<string>, lc: nat, pos: nat)
    requires InRange(lines, lc, pos) && lc > 0 && pos < |lines[lc - 1]| && IsBlank(lines[lc - 1][pos])
    ensures Scan(lines, lc, pos) == Scan(lines, lc, pos + 1)
  {
  }

  /** The token stream of the whole input. */
  function Tokens(lines: seq<string>): seq<Token>
  {
    Scan(lines, 0, 0)
  }

  /** The coordinates reported when input runs out: the number of the last
      line read, and one past the last column of that line. */
  function EndLine(lines: seq<string>): nat
  {
    |lines|
  }

  function EndOffset(lines: seq<string>): nat
  {
    if lines == [] then 1 else |lines[|lines| - 1]| + 1
  }

  /** `t` is a maximal run of non-blank characters of its line, located
      where its coordinates say. */
  predicate IsMaximalRun(lines: seq<string>, t: Token)
  {
    && 1 <= t.line <= |lines|
    && 1 <= t.offset
    && |t.text| > 0
    && var s := lines[t.line - 1];
       var b := t.offset - 1;
       var e := b + |t.text|;
       && e <= |s|
       && s[b..e] == t.text
       && (forall k :: b <= k < e ==> !IsBlank(s[k]))
       && (b == 0 || IsBlank(s[b - 1]))
       && (e == |s| || IsBlank(s[e]))
  }

  /** `t` lies before `u`, with at least one separator between them. */
  predicate Precedes(t: Token, u: Token)
  {
    t.line < u.line || (t.line == u.line && t.offset + |t.text| < u.offset)
  }

  /** Every token of the input is a maximal run of non-blank characters of
      its line. */
  lemma TokensAreMaximalRuns(lines: seq<string>)
    ensures forall i :: 0 <= i < |Tokens(lines)| ==> IsMaximalRun(lines, Tokens(lines)[i])
  {
    ScanMaximalRuns(lines, 0, 0);
  }

  predicate AtBoundary(lines: seq<string>, lc: nat, pos: nat)
    requires InRange(lines, lc, pos)
  {
    lc == 0 || pos == 0 || pos == |lines[lc - 1]|
    || IsBlank(lines[lc - 1][pos - 1]) || IsBlank(lines[lc - 1][pos])
  }

  lemma {:induction false} ScanMaximalRuns(lines: seq<string>, lc: nat, pos: nat)
    requires InRange(lines, lc, pos) && AtBoundary(lines, lc, pos)
    ensures forall i :: 0 <= i < |Scan(lines, lc, pos)| ==> IsMaximalRun(lines, Scan(lines, lc, pos)[i])
    decreases |lines| - lc, if lc == 0 then 0 else |lines[lc - 1]| - pos
  {
    ScanStep(lines, lc, pos);
    if lc == 0 || pos == |lines[lc - 1]| {
      if lc < |lines| {
        ScanMaximalRuns(lines, lc + 1, 0);
      }
    } else if IsBlank(lines[lc - 1][pos]) {
      ScanMaximalRuns(lines, lc, pos + 1);
    } else {
      var e := RunEnd(lines[lc - 1], pos);
      ScanMaximalRuns(lines, lc, e);
      var t := Token(lc, pos + 1, lines[lc - 1][pos..e]);
      assert IsMaximalRun(lines, t);
    }
  }

  /** Tokens come in input order, pairwise separated: the stream is sorted
      by position and no two tokens overlap or touch. */
  lemma TokensInOrder(lines: seq<string>)
    ensures forall i, j :: 0 <= i < j < |Tokens(lines)| ==> Precedes(Tokens(lines)[i], Tokens(lines)[j])
  {
    ScanInOrder(lines, 0, 0);
  }

  /** Every token scanned from (lc, pos) starts at or after that position. */
  lemma {:induction false} ScanAfter(lines: seq<string>, lc: nat, pos: nat)
    requires InRange(lines, lc, pos)
    ensures forall t :: t in Scan(lines, lc, pos) ==> t.line > lc || (t.line == lc && t.offset > pos)
    decreases |lines| - lc, if lc == 0 then 0 else |lines[lc - 1]| - pos
  {
    ScanStep(lines, lc, pos);
    if lc == 0 || pos == |lines[lc - 1]| {
      if lc < |lines| {
        ScanAfter(lines, lc + 1, 0);
      }
    } else if IsBlank(lines[lc - 1][pos]) {
      ScanAfter(lines, lc, pos + 1);
    } else {
      ScanAfter(lines, lc, RunEnd(lines[lc - 1], pos));
    }
  }

  lemma {:induction false} ScanInOrder(lines: seq<string>, lc: nat, pos: nat)
    requires InRange(lines, lc, pos)
    ensures forall i, j :: 0 <= i < j < |Scan(lines, lc, pos)| ==> Precedes(Scan(lines, lc, pos)[i], Scan(lines, lc, pos)[j])
    decreases |lines| - lc, if lc == 0 then 0 else |lines[lc - 1]| - pos
  {
    ScanStep(lines, lc, pos);
    if lc == 0 || pos == |lines[lc - 1]| {
      if lc < |lines| {
        ScanInOrder(lines, lc + 1, 0);
      }
    } else if IsBlank(lines[lc - 1][pos]) {
      ScanInOrder(lines, lc, pos + 1);
    } else {
      var s := lines[lc - 1];
      var e := RunEnd(s, pos);
      var rest := Scan(lines, lc, e);
      ScanInOrder(lines, lc, e);
      if e < |s| {
        // the run is followed by a blank, so nothing on this line starts at e + 1
        ScanAfter(lines, lc, e + 1);
        ScanBlank(lines, lc, e);
      } else if lc < |lines| {
        ScanAfter(lines, lc + 1, 0);
        ScanNextLine(lines, lc, e);
      } else {
        ScanAtEnd(lines, lc, e);
      }
      var t := Token(lc, pos + 1, s[pos..e]);
      assert forall u :: u in rest ==> Precedes(t, u);
      var ts := [t] + rest;
      forall i, j | 0 <= i < j < |ts| ensures Precedes(ts[i], ts[j]) {
        if i == 0 {
          assert ts[j] in rest;
        } else {
          assert ts[i] == rest[i - 1] && ts[j] == rest[j - 1];
        }
      }
    }
  }

  /** The non-blank characters of a string, in order. */
  function NonBlank(s: string): string
  {
    if s == [] then [] else (if IsBlank(s[0]) then [] else [s[0]]) + NonBlank(s[1..])
  }

  /** All lines of the input, end to end (line breaks are not characters of any line). */
  function Joined(lines: seq<string>): string
  {
    if lines == [] then [] else lines[0] + Joined(lines[1..])
  }

  /** The texts of a token sequence, end to end. */
  function Texts(ts: seq<Token>): string
  {
    if ts == [] then [] else ts[0].text + Texts(ts[1..])
  }

  lemma {:induction false} NonBlankAppend(a: string, b: string)
    ensures NonBlank(a + b) == NonBlank(a) + NonBlank(b)
  {
    if a != [] {
      assert (a + b)[1..] == a[1..] + b;
      NonBlankAppend(a[1..], b);
    } else {
      assert a + b == b;
    }
  }

  lemma {:induction false} NonBlankOfRun(s: string, i: nat, e: nat)
    requires i <= e <= |s|
    requires forall k :: i <= k < e ==> !IsBlank(s[k])
    ensures NonBlank(s[i..e]) == s[i..e]
    decreases e - i
  {
    if i < e {
      assert s[i..e][1..] == s[i + 1..e];
      NonBlankOfRun(s, i + 1, e);
    }
  }

  /** No character is lost or invented: the tokens, end to end, spell the
      non-blank characters of the input in order. */
  lemma TokensCoverInput(lines: seq<string>)
    ensures Texts(Tokens(lines)) == NonBlank(Joined(lines))
  {
    ScanCovers(lines, 0, 0);
    assert lines[0..] == lines;
    assert Rest(lines, 0, 0) == Joined(lines);
  }

  /** The remaining input from a scanning position, as one string. */
  function Rest(lines: seq<string>, lc: nat, pos: nat): string
    requires InRange(lines, lc, pos)
  {
    (if lc == 0 then [] else lines[lc - 1][pos..]) + Joined(lines[lc..])
  }

  lemma RestAtLineEnd(lines: seq<string>, lc: nat, pos: nat)
    requires InRange(lines, lc, pos) && lc < |lines|
    requires lc == 0 || pos == |lines[lc - 1]|
    ensures Rest(lines, lc, pos) == Rest(lines, lc + 1, 0)
  {
    assert lines[lc..][1..] == lines[lc + 1..];
    assert lines[lc][0..] == lines[lc];
    if lc > 0 {
      assert lines[lc - 1][pos..] == [];
    }
  }

  lemma RestAtEnd(lines: seq<string>, lc: nat, pos: nat)
    requires InRange(lines, lc, pos) && lc == |lines|
    requires lc == 0 || pos == |lines[lc - 1]|
    ensures Rest(lines, lc, pos) == []
  {
    if lc > 0 {
      assert lines[lc - 1][pos..] == [];
    }
    assert lines[lc..] == [];
  }

  lemma RestSplit(lines: seq<string>, lc: nat, pos: nat, e: nat)
    requires InRange(lines, lc, pos) && lc > 0 && pos <= e <= |lines[lc - 1]|
    ensures Rest(lines, lc, pos) == lines[lc - 1][pos..e] + Rest(lines, lc, e)
  {
    var s := lines[lc - 1];
    assert s[pos..] == s[pos..e] + s[e..];
  }

  lemma {:induction false} ScanCovers(lines: seq<string>, lc: nat, pos: nat)
    requires InRange(lines, lc, pos)
    ensures Texts(Scan(lines, lc, pos)) == NonBlank(Rest(lines, lc, pos))
    decreases |lines| - lc, if lc == 0 then 0 else |lines[lc - 1]| - pos
  {
    ScanStep(lines, lc, pos);
    if lc == 0 || pos == |lines[lc - 1]| {
      if lc < |lines| {
        ScanCovers(lines, lc + 1, 0);
        RestAtLineEnd(lines, lc, pos);
      } else {
        RestAtEnd(lines, lc, pos);
      }
    } else if IsBlank(lines[lc - 1][pos]) {
      ScanCovers(lines, lc, pos + 1);
      RestSplit(lines, lc, pos, pos + 1);
      var rest := Rest(lines, lc, pos + 1);
      NonBlankAppend(lines[lc - 1][pos..pos + 1], rest);
      assert NonBlank(lines[lc - 1][pos..pos + 1]) == [];
    } else {
      var s := lines[lc - 1];
      var e := RunEnd(s, pos);
      ScanCovers(lines, lc, e);
      RestSplit(lines, lc, pos, e);
      var rest := Rest(lines, lc, e);
      NonBlankAppend(s[pos..e], rest);
      NonBlankOfRun(s, pos, e);
      var t := Token(lc, pos + 1, s[pos..e]);
      var ts := Scan(lines, lc, e);
      assert Scan(lines, lc, pos) == [t] + ts;
      assert ([t] + ts)[1..] == ts;
    }
  }
}
