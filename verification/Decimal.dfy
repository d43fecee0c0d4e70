/** Decimal integers as text, as `format!("{}", n)` writes them. */
module Decimal {

  const DIGITS: string := "0123456789"

  function NatText(n: nat): (s: string)
    ensures s != ""
  {
    if n < 10 then [DIGITS[n]] else NatText(n / 10) + [DIGITS[n % 10]]
  }

  function IntText(n: int): string {
    if n < 0 then "-" + NatText(-n) else NatText(n)
  }

  /** The number that a string of digits stands for. */
  function Value(s: string): int {
    if s == "" then 0 else 10 * Value(s[..|s| - 1]) + (s[|s| - 1] as int - '0' as int)
  }

  lemma {:induction false} ValueOfText(n: nat)
    ensures Value(NatText(n)) == n
  {
    if n < 10 {
      assert NatText(n)[..0] == "";
    } else {
      ValueOfText(n / 10);
      assert NatText(n)[..|NatText(n)| - 1] == NatText(n / 10);
    }
  }

  lemma {:induction false} NatTextDigits(n: nat)
    ensures forall c :: c in NatText(n) ==> c in DIGITS
  {
    if n >= 10 { NatTextDigits(n / 10); }
  }

  lemma NatTextInjective(m: nat, n: nat)
    requires NatText(m) == NatText(n)
    ensures m == n
  {
    ValueOfText(m);
    ValueOfText(n);
  }

  lemma MinusIsNoDigit(n: nat)
    ensures NatText(n)[0] != '-'
  {
    NatTextDigits(n);
    assert NatText(n)[0] in NatText(n);
    assert '-' !in DIGITS;
  }

  /** Different numbers are written differently. */
  lemma IntTextInjective(m: int, n: int)
    requires IntText(m) == IntText(n)
    ensures m == n
  {
    if m < 0 && n < 0 {
      assert IntText(m)[1..] == NatText(-m) && IntText(n)[1..] == NatText(-n);
      NatTextInjective(-m, -n);
    } else if m < 0 {
      MinusIsNoDigit(n);
    } else if n < 0 {
      MinusIsNoDigit(m);
    } else {
      NatTextInjective(m, n);
    }
  }

  lemma IntTextHasNoDot(n: int)
    ensures '.' !in IntText(n)
  {
    NatTextDigits(if n < 0 then -n else n);
  }
}
