/** Decimal rendering of identifiers, as `fmt.Sprintf("%d", id)` produces
    it for the names of embedded files. */
module Decimal {

  predicate IsDigit(c: char) {
    '0' <= c <= '9'
  }

  predicate AllDigits(s: string) {
    forall i :: 0 <= i < |s| ==> IsDigit(s[i])
  }

  /** The canonical shape of a `%d` rendering: non-empty, digits only, and
      no leading zero unless the number is zero itself. */
  predicate Canonical(s: string) {
    |s| >= 1 && AllDigits(s) && (s[0] == '0' ==> |s| == 1)
  }

  function DigitChar(d: nat): (c: char)
    requires d < 10
    ensures IsDigit(c) && c as int - '0' as int == d
  {
    ('0' as int + d) as char
  }

  /** The decimal digits of `n`, most significant first. */
  function FormatDecimal(n: nat): (s: string)
    ensures Canonical(s)
    ensures s[0] == '0' <==> n == 0
    decreases n
  {
    if n < 10 then [DigitChar(n)] else FormatDecimal(n / 10) + [DigitChar(n % 10)]
  }

  /** The number a string of decimal digits denotes. */
  function ParseDecimal(s: string): nat
    requires AllDigits(s)
  {
    if |s| == 0 then 0
    else 10 * ParseDecimal(s[..|s| - 1]) + (s[|s| - 1] as int - '0' as int)
  }

  lemma {:induction false} ParseFormat(n: nat)
    ensures ParseDecimal(FormatDecimal(n)) == n
    decreases n
  {
    if n >= 10 {
      var s := FormatDecimal(n);
      assert s[..|s| - 1] == FormatDecimal(n / 10);
      ParseFormat(n / 10);
    }
  }

  lemma {:induction false} ParseLeadingNonZero(s: string)
    requires Canonical(s) && s[0] != '0'
    ensures ParseDecimal(s) >= 1
    decreases |s|
  {
    if |s| > 1 {
      ParseLeadingNonZero(s[..|s| - 1]);
    }
  }

  lemma {:induction false} FormatParse(s: string)
    requires Canonical(s)
    ensures FormatDecimal(ParseDecimal(s)) == s
    decreases |s|
  {
    if |s| > 1 {
      var p := s[..|s| - 1];
      ParseLeadingNonZero(p);
      FormatParse(p);
      var d := s[|s| - 1] as int - '0' as int;
      assert ParseDecimal(s) == 10 * ParseDecimal(p) + d;
      assert s == p + [s[|s| - 1]];
    }
  }

  /** Distinct numbers render as distinct strings. */
  lemma FormatInjective(a: nat, b: nat)
    requires FormatDecimal(a) == FormatDecimal(b)
    ensures a == b
  {
    ParseFormat(a);
    ParseFormat(b);
  }
}
