/** Natural numbers in decimal, and how far a run of digits reaches. */
module Decimal {
  predicate IsDigit(c: char) {
    '0' <= c <= '9'
  }

  function Digit(d: nat): char
    requires d < 10
  {
    '0' + d as char
  }

  function DigitValue(c: char): nat
    requires IsDigit(c)
  {
    c as int - '0' as int
  }

  function NatText(n: nat): string {
    if n < 10 then [Digit(n)] else NatText(n / 10) + [Digit(n % 10)]
  }

  function NatValue(t: string): nat
    requires forall k | 0 <= k < |t| :: IsDigit(t[k])
  {
    if t == "" then 0 else NatValue(t[..|t| - 1]) * 10 + DigitValue(t[|t| - 1])
  }

  function DigitRun(s: string): (n: nat)
    ensures n <= |s| && forall k | 0 <= k < n :: IsDigit(s[k])
    ensures n < |s| ==> !IsDigit(s[n])
  {
    if s == "" || !IsDigit(s[0]) then 0 else 1 + DigitRun(s[1..])
  }

  lemma {:induction false} DigitsRun(t: string, a: string)
    requires (forall k | 0 <= k < |t| :: IsDigit(t[k])) && (a == "" || !IsDigit(a[0]))
    ensures DigitRun(t + a) == |t|
    decreases |t|
  {
    if t == "" {
      assert t + a == a;
    } else {
      assert (t + a)[1..] == t[1..] + a;
      DigitsRun(t[1..], a);
    }
  }

  /** Printing a number in decimal and reading it back. */
  lemma {:induction false} NatTextDigits(n: nat)
    ensures NatText(n) != "" && forall k | 0 <= k < |NatText(n)| :: IsDigit(NatText(n)[k])
    ensures NatValue(NatText(n)) == n
    decreases n
  {
    if n >= 10 {
      NatTextDigits(n / 10);
      var t := NatText(n);
      assert t[..|t| - 1] == NatText(n / 10);
    } else {
      assert [Digit(n)][..0] == "";
    }
  }
}
