/** Decimal text of natural numbers, as `std::to_string` writes it. */
module Decimal {
  function Digit(d: nat): char
    requires d < 10
  {
    ['0', '1', '2', '3', '4', '5', '6', '7', '8', '9'][d]
  }

  predicate IsDigit(c: char) {
    '0' <= c <= '9'
  }

  function Text(n: nat): (s: string)
    ensures s != [] && forall i :: 0 <= i < |s| ==> IsDigit(s[i])
  {
    if n < 10 then [Digit(n)] else Text(n / 10) + [Digit(n % 10)]
  }

  /** Different numbers have different texts. */
  lemma {:induction false} TextInjective(m: nat, n: nat)
    requires Text(m) == Text(n)
    ensures m == n
    decreases m
  {
    var s, t := Text(m), Text(n);
    assert m >= 10 ==> s[..|s| - 1] == Text(m / 10) && s[|s| - 1] == Digit(m % 10);
    assert n >= 10 ==> t[..|t| - 1] == Text(n / 10) && t[|t| - 1] == Digit(n % 10);
    if m >= 10 && n >= 10 {
      TextInjective(m / 10, n / 10);
    }
  }

  /** The number a text of decimal digits stands for. */
  function Reading(s: string): int {
    if s == [] then 0 else 10 * Reading(s[..|s| - 1]) + (s[|s| - 1] as int - '0' as int)
  }

  /** Reading a text in base ten gives the number back, and only zero's text starts with a zero. */
  lemma {:induction false} TextReadsBack(n: nat)
    ensures Reading(Text(n)) == n
    ensures Text(n)[0] == '0' ==> n == 0
    decreases n
  {
    var s := Text(n);
    if n >= 10 {
      TextReadsBack(n / 10);
      assert s[..|s| - 1] == Text(n / 10) && s[|s| - 1] == Digit(n % 10);
    } else {
      assert Reading(s[..0]) == 0;
    }
    DigitReadsBack(n % 10);
  }

  lemma DigitReadsBack(d: nat)
    requires d < 10
    ensures Digit(d) as int - '0' as int == d
  {}
}
