/**
 * Decimal rendering of non-negative integers, as Ruby's string interpolation
 * `"#{n}"` produces it for issue ids and for the duplicate counter: base 10,
 * no sign, no leading zeros.
 */
module Decimal {

  predicate IsDigit(c: char) {
    '0' <= c <= '9'
  }

  predicate AllDigits(s: string) {
    forall i :: 0 <= i < |s| ==> IsDigit(s[i])
  }

  function DigitChar(d: nat): (c: char)
    requires d < 10
    ensures IsDigit(c)
  {
    (48 + d) as char
  }

  function DigitValue(c: char): (d: nat)
    requires IsDigit(c)
    ensures d < 10
  {
    c as int - 48
  }

  /** `n.to_s`: the digits of n, most significant first. */
  function Show(n: nat): (s: string)
    ensures 1 <= |s|
    ensures AllDigits(s)
    ensures s[0] == '0' ==> n == 0
  {
    if n < 10 then [DigitChar(n)] else Show(n / 10) + [DigitChar(n % 10)]
  }

  /** The length of the run of digits in `s` starting at index `i`. */
  function DigitRun(s: string, i: nat): (n: nat)
    ensures i + n <= |s| || n == 0
    decreases |s| - i
  {
    if i < |s| && IsDigit(s[i]) then 1 + DigitRun(s, i + 1) else 0
  }

  /** A digit string followed in `s` by a non-digit is exactly the digit run found there. */
  lemma {:induction false} RunLength(s: string, i: nat, x: string)
    requires AllDigits(x)
    requires i + |x| < |s| && s[i..i + |x|] == x && !IsDigit(s[i + |x|])
    ensures DigitRun(s, i) == |x|
    decreases |x|
  {
    if x != [] {
      assert s[i] == x[0];
      assert s[i + 1..i + 1 + |x[1..]|] == x[1..];
      RunLength(s, i + 1, x[1..]);
    }
  }

  /** Reads a string of digits back as a number (the inverse of Show). */
  function Parse(s: string): nat
    requires AllDigits(s)
  {
    if s == [] then 0 else Parse(s[..|s| - 1]) * 10 + DigitValue(s[|s| - 1])
  }

  /** Show and Parse round-trip. */
  lemma {:induction false} ParseShow(n: nat)
    ensures Parse(Show(n)) == n
  {
    var s := Show(n);
    if n >= 10 {
      assert s[..|s| - 1] == Show(n / 10);
      ParseShow(n / 10);
    }
  }

  /** Distinct numbers render as distinct strings. */
  lemma ShowInjective(a: nat, b: nat)
    ensures Show(a) == Show(b) ==> a == b
  {
    ParseShow(a);
    ParseShow(b);
  }
}
