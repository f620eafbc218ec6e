/** Natural numbers in decimal, as the language prints and reads them. */
module Decimal {
  import opened Prelude

  predicate IsDigit(c: char) {
    '0' <= c <= '9'
  }

  predicate AllDigits(s: string) {
    forall i :: 0 <= i < |s| ==> IsDigit(s[i])
  }

  function DigitChar(d: nat): (c: char)
    requires d < 10
    ensures IsDigit(c) && DigitValue(c) == d
  {
    '0' + d as char
  }

  function DigitValue(c: char): (d: nat)
    requires IsDigit(c)
    ensures d < 10
  {
    (c - '0') as nat
  }

  function Print(n: nat): string {
    if n < 10 then [DigitChar(n)] else Print(n / 10) + [DigitChar(n % 10)]
  }

  function Value(s: string): nat
    requires AllDigits(s)
  {
    if s == [] then 0 else 10 * Value(Init(s)) + DigitValue(Last(s))
  }

  /** Digits without a leading zero, other than "0" itself. */
  predicate Canonical(s: string) {
    s != [] && AllDigits(s) && (s[0] == '0' ==> |s| == 1)
  }

  lemma {:induction false} PrintIsCanonical(n: nat)
    ensures Canonical(Print(n)) && Value(Print(n)) == n
    ensures n > 0 ==> Print(n)[0] != '0'
  {
    if n < 10 {
      assert Init([DigitChar(n)]) == [];
    } else {
      PrintIsCanonical(n / 10);
      assert Init(Print(n)) == Print(n / 10) && Last(Print(n)) == DigitChar(n % 10);
    }
  }

  /** Reading canonical digits and printing the value gives the digits back. */
  lemma {:induction false} PrintOfValue(s: string)
    requires Canonical(s)
    ensures Print(Value(s)) == s
    ensures |s| > 1 ==> Value(s) >= 10
  {
    assert s == Init(s) + [Last(s)];
    if |s| == 1 {
      assert Value(Init(s)) == 0;
    } else {
      PrintOfValue(Init(s));
      if |Init(s)| == 1 {
        assert Value(Init(s)) == 10 * Value([]) + DigitValue(s[0]);
      }
    }
  }

  lemma PrintInjective(n: nat, m: nat)
    requires Print(n) == Print(m)
    ensures n == m
  {
    PrintIsCanonical(n);
    PrintIsCanonical(m);
  }
}
