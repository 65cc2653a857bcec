/**
 * Go's `math.Round` over the reals: the nearest integer, halves rounded
 * away from zero.
 */
module Rounding {

  /** `n` is the nearest integer to `x`, a tie going to the one farther from zero. */
  ghost predicate IsHalfAwayRounding(x: real, n: int)
  {
    if x >= 0.0 then n as real - 0.5 <= x < n as real + 0.5
    else n as real - 0.5 < x <= n as real + 0.5
  }

  function Round(x: real): (n: int)
    ensures IsHalfAwayRounding(x, n)
  {
    if x >= 0.0 then (x + 0.5).Floor else -((-x + 0.5).Floor)
  }

  /** The rounding the predicate describes is unique, so `Round` is the only function meeting it. */
  lemma RoundingIsUnique(x: real, m: int)
    requires IsHalfAwayRounding(x, m)
    ensures m == Round(x)
  {
  }

  /** Rounding commutes with negation (a consequence of "away from zero"). */
  lemma RoundIsOdd(x: real)
    ensures Round(-x) == -Round(x)
  {
    RoundingIsUnique(-x, -Round(x));
  }

  /** Integers are fixed points. */
  lemma RoundOfInteger(k: int)
    ensures Round(k as real) == k
  {
    RoundingIsUnique(k as real, k);
  }

  /** `x` rounded to two decimal places (`math.Round(x*100) / 100`). */
  function Round2(x: real): (r: real)
    ensures IsHalfAwayRounding(x * 100.0, (r * 100.0).Floor)
    ensures r * 100.0 == (r * 100.0).Floor as real
    ensures -0.005 <= r - x <= 0.005
  {
    Round(x * 100.0) as real / 100.0
  }
}
