/** The random-number helper of util.js, with the value of `Math.random()`
    passed in instead of drawn. */
module Util {

  /** A value `Math.random()` can return: a real in the half-open interval [0, 1). */
  predicate IsUnit(u: real) {
    0.0 <= u < 1.0
  }

  /** Every element of `rolls` is a value `Math.random()` can return. */
  predicate AllUnits(rolls: seq<real>) {
    forall i :: 0 <= i < |rolls| ==> IsUnit(rolls[i])
  }

  /** `Math.floor(x)` for `x` in [0, bound): the largest integer below
      `bound` that does not exceed `x`. */
  function FloorBelow(x: real, bound: nat): (k: nat)
    requires 0.0 <= x < bound as real
    ensures k as real <= x < k as real + 1.0
  {
    if (bound - 1) as real <= x then bound - 1 else FloorBelow(x, bound - 1)
  }

  /** `generateRandomNumber(max)`: `Math.floor(u * max)` for the draw `u`.
      The result is the integer whose interval [n / max, (n + 1) / max)
      holds `u`, so each integer in [0, max) is equally likely. */
  function RandomNumber(u: real, max: nat): (n: nat)
    requires IsUnit(u)
    ensures max > 0 ==> n < max && n as real <= u * max as real < n as real + 1.0
    ensures max == 0 ==> n == 0
  {
    if max == 0 then 0
    else
      assert u * max as real < max as real by {
        assert u * max as real < 1.0 * max as real;
      }
      FloorBelow(u * max as real, max)
  }
}
