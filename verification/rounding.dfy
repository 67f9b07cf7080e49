/**
 Python's built-in `round` on a quotient of naturals: the nearest integer, and
 on an exact half the even one ("banker's rounding"). The per-station bonus is
 `round(120 / n)`.
 */
module Rounding {

  function Dist(a: int, b: int): nat {
    if a >= b then a - b else b - a
  }

  /** k is a nearest integer to p / q, and on an exact tie the even one. */
  ghost predicate IsRoundHalfEven(p: nat, q: nat, k: int)
    requires q > 0
  {
    && 2 * Dist(k * q, p) <= q
    && (2 * Dist(k * q, p) == q ==> k % 2 == 0)
  }

  /** `round(p / q)` with ties to even. */
  function RoundHalfEven(p: nat, q: nat): (r: nat)
    requires q > 0
    ensures IsRoundHalfEven(p, q, r)
  {
    var f := p / q;
    var m := p % q;
    assert (f + 1) * q == f * q + q;
    if 2 * m < q then f
    else if 2 * m > q then f + 1
    else if f % 2 == 0 then f
    else f + 1
  }

  lemma MulMono(a: int, b: int, q: nat)
    requires a <= b
    ensures a * q <= b * q
  {
    assert b * q - a * q == (b - a) * q;
  }

  /** The multiples of q next to the floor f of p / q, as linear facts about k * q. */
  lemma {:induction false} NearMultiples(k: int, f: int, q: nat)
    ensures k <= f - 1 ==> k * q <= f * q - q
    ensures k >= f + 2 ==> k * q >= f * q + 2 * q
    ensures k == f + 1 ==> k * q == f * q + q
  {
    if k <= f - 1 {
      MulMono(k, f - 1, q);
      assert (f - 1) * q == f * q - q;
    }
    if k >= f + 2 {
      MulMono(f + 2, k, q);
      assert (f + 2) * q == f * q + 2 * q;
    }
    if k == f + 1 {
      assert (f + 1) * q == f * q + q;
    }
  }

  /** There is only one half-to-even rounding: any k with the defining property is the computed one. */
  lemma {:induction false} RoundHalfEvenUnique(p: nat, q: nat, k: int)
    requires q > 0
    requires IsRoundHalfEven(p, q, k)
    ensures k == RoundHalfEven(p, q)
  {
    var f := p / q;
    var m := p % q;
    var fq := f * q;
    var kq := k * q;
    assert p == fq + m && 0 <= m < q;
    NearMultiples(k, f, q);
    assert 2 * Dist(kq, p) <= q;
    assert f <= k <= f + 1;
  }

  /** Bonus points of a station visited by n teams: `round(120 / n)`. */
  function Bonus(n: nat): (b: nat)
    requires n > 0
    ensures IsRoundHalfEven(120, n, b)
    ensures b <= 120
  {
    RoundHalfEven(120, n)
  }

  /** The values of the bonus for a few station sizes, including the four exact ties n = 16, 48, 80, 240. */
  lemma BonusExamples()
    ensures Bonus(1) == 120 && Bonus(3) == 40 && Bonus(7) == 17
    ensures Bonus(16) == 8    // 7.5 rounds to the even 8
    ensures Bonus(48) == 2    // 2.5 rounds to the even 2
    ensures Bonus(80) == 2    // 1.5 rounds to the even 2
    ensures Bonus(240) == 0   // 0.5 rounds to the even 0
    ensures Bonus(241) == 0
  {
  }
}
