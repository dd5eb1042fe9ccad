/** Decimal numerals: printing and reading natural numbers. */
module Decimals {

  predicate IsDigit(c: char) {
    '0' <= c <= '9'
  }

  predicate AllDigits(s: string) {
    forall i :: 0 <= i < |s| ==> IsDigit(s[i])
  }

  function Show(n: nat): (s: string)
    ensures s != [] && AllDigits(s)
  {
    var d := ['0' + (n % 10) as char];
    if n < 10 then d else Show(n / 10) + d
  }

  function Value(s: string): nat
    requires AllDigits(s)
  {
    if s == [] then 0 else 10 * Value(s[..|s| - 1]) + (s[|s| - 1] - '0') as nat
  }

  lemma {:induction false} ValueShow(n: nat)
    ensures Value(Show(n)) == n
  {
    var s := Show(n);
    if n >= 10 {
      ValueShow(n / 10);
      assert s[..|s| - 1] == Show(n / 10);
    }
  }

  /** Different numbers print differently. */
  lemma ShowInjective(m: nat, n: nat)
    requires Show(m) == Show(n)
    ensures m == n
  {
    ValueShow(m);
    ValueShow(n);
  }

  /** The usual numeral of n: digits without a leading zero. */
  predicate IsNumeral(s: string, n: nat) {
    s != "" && AllDigits(s) && (|s| > 1 ==> s[0] != '0') && Value(s) == n
  }

  lemma {:induction false} ShowLeads(n: nat)
    ensures n > 0 ==> Show(n)[0] != '0'
  {
    if n >= 10 {
      ShowLeads(n / 10);
    }
  }

  lemma {:induction false} LeadingValue(s: string)
    requires s != "" && AllDigits(s) && s[0] != '0'
    ensures Value(s) > 0
  {
    if |s| > 1 {
      LeadingValue(s[..|s| - 1]);
    } else {
      assert s[..0] == "";
    }
  }

  lemma {:induction false} NumeralIsShow(s: string, n: nat)
    requires IsNumeral(s, n)
    ensures s == Show(n)
  {
    var init := s[..|s| - 1];
    if init == "" {
      assert Value(init) == 0;
    } else {
      LeadingValue(init);
      NumeralIsShow(init, n / 10);
    }
  }

  /** What is printed is the usual numeral, and nothing else is. */
  lemma NumeralIff(s: string, n: nat)
    ensures IsNumeral(s, n) <==> s == Show(n)
  {
    ValueShow(n);
    ShowLeads(n);
    if IsNumeral(s, n) {
      NumeralIsShow(s, n);
    }
  }
}
