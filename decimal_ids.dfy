/**
 * Record ids are natural numbers written as decimal text. `Text` is what
 * JavaScript's `String(n)` produces for a natural `n`; `Value` is what
 * `Number(s)` produces for a string of decimal digits.
 */
module DecimalIds {

  predicate IsDigit(c: char) {
    '0' <= c <= '9'
  }

  predicate AllDigits(s: string) {
    forall i | 0 <= i < |s| :: IsDigit(s[i])
  }

  function DigitChar(d: nat): (c: char)
    requires d < 10
    ensures IsDigit(c)
  {
    ('0' as int + d) as char
  }

  function DigitValue(c: char): (d: nat)
    requires IsDigit(c)
    ensures d < 10 && DigitChar(d) == c
  {
    c as int - '0' as int
  }

  /** Decimal text of `n`, most significant digit first, no leading zeros. */
  function Text(n: nat): (s: string)
    ensures |s| > 0 && AllDigits(s)
    ensures s[0] == '0' ==> n == 0
  {
    if n < 10 then [DigitChar(n)] else Text(n / 10) + [DigitChar(n % 10)]
  }

  /** Numeric value of a string of decimal digits (0 for the empty string, as `Number("")`). */
  function Value(s: string): (v: nat)
    requires AllDigits(s)
    ensures v == 0 <==> forall i | 0 <= i < |s| :: s[i] == '0'
  {
    if s == [] then 0 else Value(s[..|s| - 1]) * 10 + DigitValue(s[|s| - 1])
  }

  /** An id is well formed when it is exactly the text of its own value. */
  predicate IsCanonical(s: string) {
    AllDigits(s) && Text(Value(s)) == s
  }

  /** `Number(String(n)) == n`. */
  lemma {:induction false} ValueOfText(n: nat)
    ensures Value(Text(n)) == n
  {
    var s := Text(n);
    if n >= 10 {
      assert s[..|s| - 1] == Text(n / 10);
      ValueOfText(n / 10);
    } else {
      assert s[..|s| - 1] == [];
    }
  }

  /** Different numbers never share a text, and every text is canonical. */
  lemma TextInjective(m: nat, n: nat)
    ensures Text(m) == Text(n) <==> m == n
    ensures IsCanonical(Text(n))
  {
    ValueOfText(m);
    ValueOfText(n);
  }

  /** A single non-zero digit is a well-formed id (the seeded ids "1".."4"). */
  lemma SingleDigitCanonical(c: char)
    requires '1' <= c <= '9'
    ensures IsCanonical([c])
    ensures Value([c]) == c as int - '0' as int
  {
    assert [c][..0] == [];
    assert Value([c]) == DigitValue(c);
  }

  /** Two different well-formed ids have different values. */
  lemma CanonicalValuesDiffer(s: string, t: string)
    requires IsCanonical(s) && IsCanonical(t) && s != t
    ensures Value(s) != Value(t)
  {
  }
}
