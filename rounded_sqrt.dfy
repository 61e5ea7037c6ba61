/**
  `Math.round(Math.sqrt(n))` for a natural number n, over the integers.

  `Math.round(s)` is the k with k - 1/2 <= s < k + 1/2. For s = sqrt(n) and k >= 1 this is
  (2k - 1)^2 <= 4n < (2k + 1)^2; for k = 0 only the upper bound remains. Since 4n is even
  and (2k + 1)^2 is odd, sqrt(n) never lies exactly halfway between two integers, so the
  way halves are rounded never matters.
 */
module RoundedSqrt {

  /** k is sqrt(n) rounded to the nearest integer. */
  predicate IsRoundSqrt(n: nat, k: nat) {
    && (k == 0 || (2 * k - 1) * (2 * k - 1) <= 4 * n)
    && 4 * n < (2 * k + 1) * (2 * k + 1)
  }

  lemma {:induction false} SquareMonotone(u: nat, w: nat)
    requires u <= w
    ensures u * u <= w * w
  {
    assert u * u <= u * w by { assert u * (w - u) >= 0; }
    assert u * w <= w * w by { assert (w - u) * w >= 0; }
  }

  lemma {:induction false} SquareAtLeast(m: nat)
    ensures m <= m * m
  {
    if m > 0 {
      assert m * m == m * (m - 1) + m;
      assert m * (m - 1) >= 0;
    }
  }

  /** Search upward from k, which is known not to be below the rounded root. */
  function RoundSqrtFrom(n: nat, k: nat): (r: nat)
    requires k == 0 || (2 * k - 1) * (2 * k - 1) <= 4 * n
    ensures IsRoundSqrt(n, r)
    ensures k <= r
    decreases 4 * n + 1 - k
  {
    if 4 * n < (2 * k + 1) * (2 * k + 1) then k
    else
      SquareAtLeast(2 * k + 1);
      RoundSqrtFrom(n, k + 1)
  }

  /** `Math.round(Math.sqrt(n))`. */
  function RoundSqrt(n: nat): (k: nat)
    ensures IsRoundSqrt(n, k)
  {
    RoundSqrtFrom(n, 0)
  }

  /** The rounded root is unique, so IsRoundSqrt pins down RoundSqrt completely. */
  lemma {:induction false} RoundSqrtUnique(n: nat, a: nat, b: nat)
    requires IsRoundSqrt(n, a) && IsRoundSqrt(n, b)
    ensures a == b
  {
    if a < b {
      SquareMonotone(2 * a + 1, 2 * b - 1);
    } else if b < a {
      SquareMonotone(2 * b + 1, 2 * a - 1);
    }
  }

  /** sqrt(n) is never exactly k + 1/2: rounding half up and half down agree on every n. */
  lemma {:induction false} NoHalfwayRoot(n: nat, k: nat)
    ensures 4 * n != (2 * k + 1) * (2 * k + 1)
  {
    assert (2 * k + 1) * (2 * k + 1) == 4 * (k * k + k) + 1;
  }

  /** Rounded roots grow with their argument. */
  lemma {:induction false} RoundSqrtMonotone(m: nat, n: nat)
    requires m <= n
    ensures RoundSqrt(m) <= RoundSqrt(n)
  {
    var a, b := RoundSqrt(m), RoundSqrt(n);
    if b < a {
      SquareMonotone(2 * b + 1, 2 * a - 1);
    }
  }
}
