/** Character classes of the C locale (`isdigit`, `isalpha`, `isalnum`, and the
    space/tab separators of the tokenizer) and the decimal value of a digit
    string, which is what `stoi` computes for a token it accepts. */
module Text {

  predicate IsDigit(c: char) { '0' <= c <= '9' }

  predicate IsAlpha(c: char) { 'a' <= c <= 'z' || 'A' <= c <= 'Z' }

  predicate IsAlnum(c: char) { IsAlpha(c) || IsDigit(c) }

  /** The only characters that separate tokens on a line. */
  predicate IsBlank(c: char) { c == ' ' || c == '\t' }

  predicate AllDigits(s: string) { forall i :: 0 <= i < |s| ==> IsDigit(s[i]) }

  /** A non-empty run of decimal digits. */
  predicate IsNumeral(s: string) { |s| > 0 && AllDigits(s) }

  function DigitValue(c: char): nat
    requires IsDigit(c)
  {
    (c as int) - ('0' as int)
  }

  function Pow10(n: nat): nat
  {
    if n == 0 then 1 else 10 * Pow10(n - 1)
  }

  /** The value of a digit string, most significant digit first. */
  function Value(s: string): nat
    requires AllDigits(s)
  {
    if s == [] then 0 else DigitValue(s[0]) * Pow10(|s| - 1) + Value(s[1..])
  }

  /** A digit string of length n denotes a number below 10^n. */
  lemma {:induction false} ValueBelow(s: string)
    requires AllDigits(s)
    ensures Value(s) < Pow10(|s|)
  {
    if s != [] {
      ValueBelow(s[1..]);
      var d, p := DigitValue(s[0]), Pow10(|s| - 1);
      assert Value(s) == d * p + Value(s[1..]);
      MulAtMostNine(d, p);
    }
  }

  lemma MulAtMostNine(d: nat, p: nat)
    requires d <= 9
    ensures d * p <= 9 * p
  {
  }

  /** The leading digit d of a numeral of length n places its value in
      [d * 10^(n-1), (d+1) * 10^(n-1)). */
  lemma LeadingDigitBounds(s: string)
    requires IsNumeral(s)
    ensures DigitValue(s[0]) * Pow10(|s| - 1) <= Value(s)
    ensures Value(s) < (DigitValue(s[0]) + 1) * Pow10(|s| - 1)
  {
    ValueBelow(s[1..]);
  }

  /** Leading zeros do not change the value of a digit string. */
  lemma {:induction false} SkipLeadingZeros(s: string, k: nat)
    requires AllDigits(s) && k <= |s|
    requires forall i :: 0 <= i < k ==> s[i] == '0'
    ensures Value(s) == Value(s[k..])
  {
    if k > 0 {
      assert s[1..][k - 1..] == s[k..];
      SkipLeadingZeros(s[1..], k - 1);
    }
  }

  /** Powers of ten grow with the exponent. */
  lemma {:induction false} Pow10Monotone(a: nat, b: nat)
    requires a <= b
    ensures Pow10(a) <= Pow10(b)
    decreases b
  {
    if a < b {
      Pow10Monotone(a, b - 1);
    }
  }

  lemma Pow10Nine()
    ensures Pow10(9) == 1000000000
  {
  }

  lemma MulMonotone(a: nat, b: nat, p: nat)
    requires a <= b
    ensures a * p <= b * p
  {
  }
}
