/**
 * Decimal digit strings: zero-padded rendering of a natural number and the
 * value of an ASCII digit string (Python's `int(s)` on such a string).
 */
module Decimal {

  predicate IsDigit(c: char) {
    '0' <= c <= '9'
  }

  predicate AllDigits(s: string) {
    forall i :: 0 <= i < |s| ==> IsDigit(s[i])
  }

  function Digit(d: nat): (c: char)
    requires d < 10
    ensures IsDigit(c)
  {
    ('0' as int + d) as char
  }

  function DigitValue(c: char): (d: nat)
    requires IsDigit(c)
    ensures d < 10 && Digit(d) == c
  {
    c as int - '0' as int
  }

  function Pow10(w: nat): (p: nat)
    ensures p >= 1
  {
    if w == 0 then 1 else 10 * Pow10(w - 1)
  }

  /** The number a digit string denotes; leading zeros are allowed, as in `int("007")`. */
  function Value(s: string): (n: nat)
    requires AllDigits(s)
    ensures n < Pow10(|s|)
  {
    if |s| == 0 then 0 else 10 * Value(s[..|s| - 1]) + DigitValue(s[|s| - 1])
  }

  /** The last `w` decimal digits of `n`, zero-padded on the left (`"%0*d" % (w, n)` when n fits). */
  function Padded(n: nat, w: nat): (s: string)
    ensures |s| == w && AllDigits(s)
  {
    if w == 0 then "" else Padded(n / 10, w - 1) + [Digit(n % 10)]
  }

  /** Reading a padded rendering back gives the number, when it fits in the width. */
  lemma {:induction false} ValueOfPadded(n: nat, w: nat)
    requires n < Pow10(w)
    ensures Value(Padded(n, w)) == n
  {
    if w > 0 {
      var s := Padded(n, w);
      assert s[..w - 1] == Padded(n / 10, w - 1);
      assert s[w - 1] == Digit(n % 10);
      assert n / 10 < Pow10(w - 1);
      ValueOfPadded(n / 10, w - 1);
    }
  }

  /** Rendering the value of a digit string at its own width gives the string back. */
  lemma {:induction false} PaddedOfValue(s: string)
    requires AllDigits(s)
    ensures Padded(Value(s), |s|) == s
  {
    if |s| > 0 {
      var init := s[..|s| - 1];
      var d := DigitValue(s[|s| - 1]);
      assert Value(s) == 10 * Value(init) + d;
      assert Value(s) / 10 == Value(init);
      assert Value(s) % 10 == d;
      PaddedOfValue(init);
      assert s == init + [s[|s| - 1]];
    }
  }
}
