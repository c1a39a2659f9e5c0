/**
 * `String(n)` for a post id: its decimal digits, with no sign and no leading
 * zeros. The client stores it in `dataset.editingId` and splices it into the
 * request path; `DigitsValue` reads it back.
 */
module Decimal {

  predicate IsDigit(c: char)
  {
    '0' <= c <= '9'
  }

  function DigitChar(d: nat): (c: char)
    requires d < 10
    ensures IsDigit(c)
  {
    (48 + d) as char
  }

  /** The decimal text of `n`. */
  function Text(n: nat): (s: string)
    ensures |s| > 0
    ensures forall i :: 0 <= i < |s| ==> IsDigit(s[i])
    ensures |s| > 1 ==> s[0] != '0'
  {
    if n < 10 then [DigitChar(n)] else Text(n / 10) + [DigitChar(n % 10)]
  }

  function DigitValue(c: char): (d: nat)
    requires IsDigit(c)
    ensures d < 10
  {
    c as int - '0' as int
  }

  /** The number a string of decimal digits denotes. */
  function DigitsValue(s: string): nat
    requires forall i :: 0 <= i < |s| ==> IsDigit(s[i])
  {
    if s == [] then 0
    else DigitsValue(s[..|s| - 1]) * 10 + DigitValue(s[|s| - 1])
  }

  /** Reading the text back gives the number. */
  lemma {:induction false} TextValue(n: nat)
    ensures DigitsValue(Text(n)) == n
  {
    if n >= 10 {
      TextValue(n / 10);
      var s := Text(n);
      assert s[..|s| - 1] == Text(n / 10);
    }
  }

  /** Different ids give different texts, so a path names one post. */
  lemma TextInjective(m: nat, n: nat)
    requires Text(m) == Text(n)
    ensures m == n
  {
    TextValue(m);
    TextValue(n);
  }
}
