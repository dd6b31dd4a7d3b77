/** Decimal numerals: how the source prints a number and reads one back. */
module Decimal {

  predicate IsDigit(c: char) { '0' <= c <= '9' }

  predicate IsNumeral(s: string) { s != "" && forall i | 0 <= i < |s| :: IsDigit(s[i]) }

  function Show(n: nat): string {
    if n < 10 then ['0' + n as char] else Show(n / 10) + ['0' + (n % 10) as char]
  }

  function Value(s: string): nat
    requires forall i | 0 <= i < |s| :: IsDigit(s[i])
  {
    if s == "" then 0
    else
      assert IsDigit(s[|s| - 1]);
      10 * Value(s[..|s| - 1]) + (s[|s| - 1] as nat - '0' as nat)
  }

  /** Printing gives a numeral without a leading zero, and reading it back gives the number. */
  lemma {:induction false} ShowReadsBack(n: nat)
    ensures IsNumeral(Show(n)) && Value(Show(n)) == n
    ensures n > 0 ==> Show(n)[0] != '0'
  {
    if n >= 10 {
      ShowReadsBack(n / 10);
      var s := Show(n);
      assert s[..|s| - 1] == Show(n / 10);
    } else {
      assert Show(n)[..0] == "";
    }
  }

  lemma ShowSnoc(front: nat, digit: nat)
    requires front > 0 && digit < 10
    ensures Show(10 * front + digit) == Show(front) + ['0' + digit as char]
  {
    var n := 10 * front + digit;
    assert n / 10 == front && n % 10 == digit;
  }

  /** A numeral without a leading zero is the printed form of its own value, which is positive. */
  lemma {:induction false} NumeralIsShown(s: string)
    requires IsNumeral(s) && s[0] != '0'
    ensures Value(s) > 0 && Show(Value(s)) == s
  {
    var front, last := s[..|s| - 1], s[|s| - 1];
    assert s == front + [last] && IsDigit(last);
    if front != "" {
      NumeralIsShown(front);
      ShowSnoc(Value(front), last as nat - '0' as nat);
    }
  }
}
