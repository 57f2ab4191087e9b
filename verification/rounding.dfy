/** Exact rational rounding. `Math.round` rounds half up; MongoDB's
    `$round` rounds half to even. Both are modelled on the exact quotient
    `n / d`, not on its floating point approximation. */
module Rounding {

  /** `Math.round(n / d)` for `n >= 0`, `d > 0`: the integer nearest to
      `n / d`, ties rounded up. */
  function RoundHalfUp(n: nat, d: nat): (r: nat)
    requires d > 0
    ensures 2 * n - d < 2 * r * d <= 2 * n + d
  {
    var q := (2 * n + d) / (2 * d);
    assert 2 * d * q <= 2 * n + d < 2 * d * q + 2 * d by {
      var rem := (2 * n + d) % (2 * d);
      assert 2 * d * q + rem == 2 * n + d;
    }
    q
  }

  /** `$round` to an integer place of `n / d`: the integer nearest to
      `n / d`, ties rounded to the even neighbour. */
  function RoundHalfEven(n: nat, d: nat): (r: nat)
    requires d > 0
    ensures 2 * n - d <= 2 * r * d <= 2 * n + d
    ensures 2 * r * d == 2 * n + d || 2 * r * d == 2 * n - d ==> r % 2 == 0
  {
    var q := n / d;
    var rem := n % d;
    assert d * q + rem == n;
    assert 2 * q * d == 2 * n - 2 * rem;
    assert 2 * (q + 1) * d == 2 * n - 2 * rem + 2 * d;
    if 2 * rem < d then q
    else if 2 * rem > d then q + 1
    else if q % 2 == 0 then q
    else q + 1
  }

  /** Monotonicity of multiplication by a non-negative factor, stated as
      an implication so that it can be used without a case split. */
  lemma MulMonotone(a: int, b: int, c: nat)
    ensures a <= b ==> a * c <= b * c
  {
  }

  /** Integers that differ are at least one step of `d` apart once
      multiplied by `2 * d`, and two steps apart when they differ by two. */
  lemma Apart(a: int, b: int, d: nat)
    ensures a < b ==> 2 * a * d + 2 * d <= 2 * b * d
    ensures a + 1 < b ==> 2 * a * d + 4 * d <= 2 * b * d
  {
    var k := b - a;
    assert 2 * b * d == 2 * a * d + 2 * (k * d);
    MulMonotone(1, k, d);
    MulMonotone(2, k, d);
  }

  /** The half-up contract pins the result down: it is the only integer
      meeting it. */
  lemma RoundHalfUpUnique(n: nat, d: nat, r: int)
    requires d > 0
    requires 2 * n - d < 2 * r * d <= 2 * n + d
    ensures r == RoundHalfUp(n, d)
  {
    var q := RoundHalfUp(n, d);
    Apart(r, q, d);
    Apart(q, r, d);
  }

  /** The half-even contract pins the result down as well. */
  lemma RoundHalfEvenUnique(n: nat, d: nat, r: int)
    requires d > 0
    requires 2 * n - d <= 2 * r * d <= 2 * n + d
    requires 2 * r * d == 2 * n + d || 2 * r * d == 2 * n - d ==> r % 2 == 0
    ensures r == RoundHalfEven(n, d)
  {
    var q := RoundHalfEven(n, d);
    Apart(r, q, d);
    Apart(q, r, d);
  }

  /** If `n / d <= k` then `Math.round(n / d) <= k`. */
  lemma RoundHalfUpAtMost(n: nat, d: nat, k: nat)
    requires d > 0
    requires n <= k * d
    ensures RoundHalfUp(n, d) <= k
  {
    Apart(k, RoundHalfUp(n, d), d);
  }

  /** If `n / d <= k` then `$round(n / d) <= k`. */
  lemma RoundHalfEvenAtMost(n: nat, d: nat, k: nat)
    requires d > 0
    requires n <= k * d
    ensures RoundHalfEven(n, d) <= k
  {
    Apart(k, RoundHalfEven(n, d), d);
  }

  /** `$round` is exact on whole quotients. */
  lemma RoundHalfEvenExact(k: nat, d: nat)
    requires d > 0
    ensures RoundHalfEven(k * d, d) == k
  {
    RoundHalfEvenUnique(k * d, d, k);
  }
}
