/** Small facts about products of reals that the solver does not find on its own. */
module RealArith {

  lemma MulPositive(x: real, y: real)
    requires x > 0.0 && y > 0.0
    ensures x * y > 0.0
  {
  }

  lemma MulNonNegative(x: real, y: real)
    requires x >= 0.0 && y >= 0.0
    ensures x * y >= 0.0
  {
  }

  lemma SquareNonNegative(x: real)
    ensures x * x >= 0.0
  {
    if x < 0.0 {
      MulNonNegative(-x, -x);
    }
  }

  lemma MulLeftMonotone(c: real, a: real, b: real)
    requires c >= 0.0 && a <= b
    ensures c * a <= c * b
  {
    MulNonNegative(c, b - a);
    assert c * b - c * a == c * (b - a);
  }

  /** A fraction in [0, 1] of a non-negative real lies between 0 and that real. */
  lemma FractionOf(p: real, x: real)
    requires 0.0 <= p <= 1.0 && x >= 0.0
    ensures 0.0 <= p * x <= x
  {
    MulNonNegative(p, x);
    MulNonNegative(1.0 - p, x);
    assert x - p * x == (1.0 - p) * x;
  }

  /** A fraction below 1 of a positive real is below that real. */
  lemma MulRightStrictlyBelow(p: real, x: real)
    requires p < 1.0 && x > 0.0
    ensures p * x < x
  {
    MulPositive(1.0 - p, x);
    assert x - p * x == (1.0 - p) * x;
  }

  /** A draw in [0, 1) of a positive real lies in [0, that real). */
  lemma UnitFraction(u: real, x: real)
    requires 0.0 <= u < 1.0 && x > 0.0
    ensures 0.0 <= u * x < x
  {
    FractionOf(u, x);
    MulRightStrictlyBelow(u, x);
  }

  /** Squaring is strictly increasing on the non-negative reals. */
  lemma SquareStrictlyMonotone(a: real, b: real)
    requires 0.0 <= a < b
    ensures a * a < b * b
  {
    var p := (b - a) * (b + a);
    assert p == b * b - a * a;
    assert p > 0.0 by { MulPositive(b - a, b + a); }
  }

  /** A real whose square is at most one lies in [-1, 1]. */
  lemma SquareAtMostOne(x: real)
    requires x * x <= 1.0
    ensures -1.0 <= x <= 1.0
  {
    if x > 1.0 {
      SquareStrictlyMonotone(1.0, x);
    } else if x < -1.0 {
      SquareStrictlyMonotone(1.0, -x);
    }
  }
}
