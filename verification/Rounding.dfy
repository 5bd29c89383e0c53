/**
 Rounding to two decimals: floor(100 x + 1/2) / 100, halves going up.
 */
module Rounding {

  function Round2(x: real): real {
    (x * 100.0 + 0.5).Floor as real / 100.0
  }

  lemma RoundNear(x: real)
    ensures -0.005 <= Round2(x) - x <= 0.005
  {
    var n := (x * 100.0 + 0.5).Floor as real;
    assert n <= x * 100.0 + 0.5 < n + 1.0;
  }

  lemma RoundMonotone(x: real, y: real)
    requires x <= y
    ensures Round2(x) <= Round2(y)
  {
    assert (x * 100.0 + 0.5).Floor <= (y * 100.0 + 0.5).Floor;
  }

  /** A number with at most two decimals is left alone. */
  lemma RoundHundredths(k: int)
    ensures Round2(k as real / 100.0) == k as real / 100.0
  {
    assert (k as real / 100.0) * 100.0 + 0.5 == k as real + 0.5;
    assert (k as real + 0.5).Floor == k;
  }

  /** Rounding to the nearest hundredth, halves going up. */
  lemma RoundHalfUp(x: real) returns (n: int)
    ensures Round2(x) == n as real / 100.0
    ensures n as real - 0.5 <= x * 100.0 < n as real + 0.5
  {
    n := (x * 100.0 + 0.5).Floor;
  }
}
