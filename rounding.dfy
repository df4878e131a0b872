/**
 * Exact integer statements of the float rounding in helpers.c.
 *
 * `round(n / (double) d)` for a non-negative sum `n` and a positive divisor
 * `d` rounds half away from zero, which on non-negative values is half up:
 * the unique r with r - 1/2 <= n/d < r + 1/2. `round(sqrt(n))` for an
 * integer n is never exactly halfway, since (r + 1/2)^2 is never an integer.
 *
 * The functions are computed with additions, subtractions and divisions by
 * constants only; what they mean is stated by the lemmas beside them.
 */
module Rounding {

  /** floor(x / y), by repeated subtraction. */
  function Quotient(x: nat, y: nat): (q: nat)
    requires y > 0
    decreases x
  {
    if x < y then 0 else 1 + Quotient(x - y, y)
  }

  lemma {:induction false} QuotientBounds(x: nat, y: nat)
    requires y > 0
    ensures y * Quotient(x, y) <= x < y * Quotient(x, y) + y
    decreases x
  {
    if y <= x {
      QuotientBounds(x - y, y);
      assert y * Quotient(x, y) == y * Quotient(x - y, y) + y;
    }
  }

  /** n / d rounded to the nearest integer, halves rounded up: floor((2n + d) / 2d). */
  function RoundHalfUp(n: nat, d: nat): (r: nat)
    requires d > 0
  {
    Quotient(2 * n + d, 2 * d)
  }

  /** The rounded quotient is within half a step of n / d, and a mean of bytes is a byte. */
  lemma RoundHalfUpBounds(n: nat, d: nat)
    requires d > 0
    ensures d * (2 * RoundHalfUp(n, d) - 1) <= 2 * n < d * (2 * RoundHalfUp(n, d) + 1)
    ensures n <= 255 * d ==> RoundHalfUp(n, d) <= 255
  {
    var q: int := RoundHalfUp(n, d);
    QuotientBounds(2 * n + d, 2 * d);
    assert 2 * d * q <= 2 * n + d < 2 * d * q + 2 * d;
    assert d * (2 * q - 1) == 2 * d * q - d as int;
    assert d * (2 * q + 1) == 2 * d * q + d;
    if n <= 255 * d && q > 255 {
      MulMonotone(d, 511, 2 * q - 1);
    }
  }

  lemma MulMonotone(d: nat, x: int, y: int)
    requires x <= y
    ensures d * x <= d * y
  {
  }

  /** The rounded quotient is the only value within half a step of n / d. */
  lemma RoundHalfUpUnique(n: nat, d: nat, r: nat)
    requires d > 0
    requires d * (2 * r - 1) <= 2 * n < d * (2 * r + 1)
    ensures r == RoundHalfUp(n, d)
  {
    var q := RoundHalfUp(n, d);
    RoundHalfUpBounds(n, d);
    if r < q {
      MulMonotone(d, 2 * r + 1, 2 * q - 1);
    } else if q < r {
      MulMonotone(d, 2 * q + 1, 2 * r - 1);
    }
  }

  /** An integer square root with what is left over: n == root * root + rest. */
  datatype Root = Root(root: nat, rest: nat)

  /**
   * The integer square root, by halving: with n = 4m + b and m = t * t + e,
   * the root of n is 2t or 2t + 1, whichever keeps the rest non-negative.
   */
  function SquareRoot(n: nat): (s: Root)
  {
    if n < 4 then (if n == 0 then Root(0, 0) else Root(1, n - 1))
    else
      var t := SquareRoot(n / 4);
      var e := 4 * t.rest + n % 4;
      if 4 * t.root + 1 <= e then Root(2 * t.root + 1, e - 4 * t.root - 1) else Root(2 * t.root, e)
  }

  lemma {:induction false} SquareRootIsRoot(n: nat)
    ensures SquareRoot(n).root * SquareRoot(n).root + SquareRoot(n).rest == n
    ensures SquareRoot(n).rest <= 2 * SquareRoot(n).root
  {
    if n >= 4 {
      var t := SquareRoot(n / 4);
      SquareRootIsRoot(n / 4);
      Squares(t.root);
      assert n == 4 * (t.root * t.root) + 4 * t.rest + n % 4;
    }
  }

  /** floor(sqrt(n)). */
  function FloorSqrt(n: nat): (s: nat)
  {
    SquareRoot(n).root
  }

  lemma FloorSqrtBounds(n: nat)
    ensures FloorSqrt(n) * FloorSqrt(n) <= n < (FloorSqrt(n) + 1) * (FloorSqrt(n) + 1)
  {
    SquareRootIsRoot(n);
    Squares(FloorSqrt(n));
  }

  /** round(sqrt(n)) for an integer n: sqrt(4n) halved, rounding half up. */
  function RoundSqrt(n: nat): (r: nat)
  {
    (FloorSqrt(4 * n) + 1) / 2
  }

  /**
   * r is the integer nearest to sqrt(n): r - 1/2 <= sqrt(n) < r + 1/2, with
   * r = 0 also allowed for n = 0.
   */
  predicate NearestRoot(n: int, r: int) {
    (r == 0 || (2 * r - 1) * (2 * r - 1) <= 4 * n) && 4 * n < (2 * r + 1) * (2 * r + 1)
  }

  lemma RoundSqrtBounds(n: nat)
    ensures NearestRoot(n, RoundSqrt(n))
  {
    var t, r := FloorSqrt(4 * n), RoundSqrt(n);
    FloorSqrtBounds(4 * n);
    Squares(r);
    Squares(t);
    if t == 2 * r {
      MulMonotone(4 * r, -1, 0);
    } else {
      assert t == 2 * r - 1;
    }
  }

  lemma Squares(s: int)
    ensures (s + 1) * (s + 1) == s * s + 2 * s + 1
    ensures (2 * s) * (2 * s) == 4 * (s * s)
    ensures (2 * s - 1) * (2 * s - 1) == 4 * (s * s) - 4 * s + 1
    ensures (2 * s + 1) * (2 * s + 1) == 4 * (s * s) + 4 * s + 1
  {
  }
}
