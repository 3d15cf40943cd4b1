/** Decimal text of a count, as a template literal interpolates a non-negative integer. */
module Decimal {

  predicate IsDigit(c: char) {
    '0' <= c <= '9'
  }

  predicate IsNumeral(t: string) {
    forall i :: 0 <= i < |t| ==> IsDigit(t[i])
  }

  function DigitChar(d: nat): (c: char)
    requires d < 10
    ensures IsDigit(c) && c as int - '0' as int == d
  {
    ('0' as int + d) as char
  }

  /** The shortest decimal numeral of `n`: digits only, no leading zero except "0" itself. */
  function Show(n: nat): (r: string)
    ensures |r| >= 1 && IsNumeral(r)
    ensures r[0] == '0' ==> n == 0 && r == "0"
    decreases n
  {
    if n < 10 then [DigitChar(n)] else Show(n / 10) + [DigitChar(n % 10)]
  }

  /** The number a numeral denotes. */
  function Value(t: string): nat
    requires IsNumeral(t)
  {
    if t == [] then 0 else Value(t[..|t| - 1]) * 10 + (t[|t| - 1] as int - '0' as int)
  }

  /** Reading back the numeral of `n` gives `n`. */
  lemma {:induction false} ValueOfShow(n: nat)
    ensures Value(Show(n)) == n
    decreases n
  {
    if n >= 10 {
      ValueOfShow(n / 10);
      var t := Show(n);
      assert t[..|t| - 1] == Show(n / 10);
    }
  }

  /** A numeral without a superfluous leading zero is the one `Show` writes for its value. */
  lemma {:induction false} ShowOfValue(t: string)
    requires |t| >= 1 && IsNumeral(t) && (t[0] == '0' ==> |t| == 1)
    ensures Show(Value(t)) == t
    decreases |t|
  {
    if |t| > 1 {
      var p := t[..|t| - 1];
      var d := t[|t| - 1] as int - '0' as int;
      assert p[0] == t[0];
      ShowOfValue(p);
      PositiveValue(p);
      var n := Value(t);
      assert n == Value(p) * 10 + d;
      assert n / 10 == Value(p) && n % 10 == d;
      assert t == p + [DigitChar(d)];
    }
  }

  /** A numeral that does not start with '0' denotes a positive number. */
  lemma {:induction false} PositiveValue(t: string)
    requires |t| >= 1 && IsNumeral(t) && t[0] != '0'
    ensures Value(t) > 0
    decreases |t|
  {
    if |t| > 1 {
      var p := t[..|t| - 1];
      assert p[0] == t[0];
      PositiveValue(p);
    }
  }
}
