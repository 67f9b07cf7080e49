/**
 Decimal rendering of natural numbers, as Python's `str` renders a non-negative
 `int`: no sign, no leading zeros, "0" for zero. The team allow-list is built
 from these renderings.
 */
module Decimal {

  /** A sequence made of decimal digit characters only. */
  predicate IsDigits(s: string) {
    forall i :: 0 <= i < |s| ==> '0' <= s[i] <= '9'
  }

  /** The spelling Python's `str` gives a non-negative int: digits, and no leading zero except "0" itself. */
  predicate IsCanonical(s: string) {
    && |s| > 0
    && IsDigits(s)
    && (s[0] == '0' ==> |s| == 1)
  }

  function DigitChar(d: nat): (c: char)
    requires d < 10
    ensures '0' <= c <= '9'
    ensures c as int - '0' as int == d
  {
    (('0' as int) + d) as char
  }

  function DigitValue(c: char): (d: nat)
    requires '0' <= c <= '9'
    ensures d < 10
    ensures DigitChar(d) == c
  {
    c as int - '0' as int
  }

  /** The number a string of digits denotes, most significant digit first. */
  function Value(s: string): nat
    requires IsDigits(s)
  {
    if s == [] then 0 else Value(s[..|s| - 1]) * 10 + DigitValue(s[|s| - 1])
  }

  /** Python's `str(n)` for `n >= 0`. */
  function Show(n: nat): (s: string)
    ensures IsCanonical(s)
    ensures n < 10 <==> |s| == 1
  {
    if n < 10 then [DigitChar(n)] else Show(n / 10) + [DigitChar(n % 10)]
  }

  /** Reading back a rendering gives the number that was rendered. */
  lemma {:induction false} ValueOfShow(n: nat)
    ensures Value(Show(n)) == n
  {
    if n >= 10 {
      var s := Show(n);
      assert s[..|s| - 1] == Show(n / 10);
      ValueOfShow(n / 10);
    }
  }

  /** A canonical spelling of more than one digit denotes a number of at least 10. */
  lemma {:induction false} ValueOfLong(s: string)
    requires IsCanonical(s) && |s| > 1
    ensures Value(s) >= 10
  {
    var p := s[..|s| - 1];
    assert p[0] == s[0];
    ValuePositive(p);
  }

  lemma {:induction false} ValuePositive(s: string)
    requires IsDigits(s) && |s| > 0 && s[0] != '0'
    ensures Value(s) > 0
  {
    if |s| > 1 {
      var p := s[..|s| - 1];
      assert p[0] == s[0];
      ValuePositive(p);
    }
  }

  /** Rendering the value of a canonical spelling gives that spelling back. */
  lemma {:induction false} ShowOfValue(s: string)
    requires IsCanonical(s)
    ensures Show(Value(s)) == s
  {
    if |s| > 1 {
      var p := s[..|s| - 1];
      assert p[0] == s[0];
      ValueOfLong(s);
      var d := DigitValue(s[|s| - 1]);
      assert Value(s) / 10 == Value(p) && Value(s) % 10 == d;
      ShowOfValue(p);
      assert s == p + [s[|s| - 1]];
    }
  }

  /** Different numbers have different renderings. */
  lemma ShowInjective(m: nat, n: nat)
    ensures Show(m) == Show(n) <==> m == n
  {
    if Show(m) == Show(n) {
      ValueOfShow(m);
      ValueOfShow(n);
    }
  }
}
