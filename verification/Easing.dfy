/** The linear interpolation three.js uses for `MathUtils.lerp` and
    `Vector3.lerp`: `x + (y - x) * t`, with no clamping of `t`. Every
    per-frame easing of the scene is one such step with `t = rate * delta`. */
module Easing {
  import opened Types
  import RealArith

  function Lerp(a: real, b: real, t: real): real
  {
    a + (b - a) * t
  }

  /** Coordinate-wise interpolation of two points. */
  function LerpVec(a: Vec3, b: Vec3, t: real): (r: Vec3)
    ensures r.x == Lerp(a.x, b.x, t) && r.y == Lerp(a.y, b.y, t) && r.z == Lerp(a.z, b.z, t)
  {
    Vec3(Lerp(a.x, b.x, t), Lerp(a.y, b.y, t), Lerp(a.z, b.z, t))
  }

  function Abs(x: real): real
  {
    if x < 0.0 then -x else x
  }

  /** `v` lies in the closed segment between `a` and `b`, whichever is larger. */
  predicate Between(v: real, a: real, b: real)
  {
    (a <= v <= b) || (b <= v <= a)
  }

  predicate BetweenVec(v: Vec3, a: Vec3, b: Vec3)
  {
    Between(v.x, a.x, b.x) && Between(v.y, a.y, b.y) && Between(v.z, a.z, b.z)
  }

  /** The step lands on the start at t = 0 and on the target at t = 1. */
  lemma LerpEndpoints(a: real, b: real)
    ensures Lerp(a, b, 0.0) == a
    ensures Lerp(a, b, 1.0) == b
  {
  }

  /** For a rate in [0, 1] one step stays between the start and the target,
      and the remaining gap shrinks by exactly the factor (1 - t). */
  lemma LerpBetween(a: real, b: real, t: real)
    requires 0.0 <= t <= 1.0
    ensures Between(Lerp(a, b, t), a, b)
    ensures Abs(Lerp(a, b, t) - b) == (1.0 - t) * Abs(a - b)
  {
    var g := (1.0 - t) * (a - b);
    assert Lerp(a, b, t) - b == g;
    if a <= b {
      RealArith.FractionOf(t, b - a);
      RealArith.MulNonNegative(1.0 - t, b - a);
      assert g == -((1.0 - t) * (b - a));
    } else {
      RealArith.FractionOf(t, a - b);
      RealArith.MulNonNegative(1.0 - t, a - b);
      assert (b - a) * t == -(t * (a - b));
    }
  }

  /** A value already at its target is a fixed point, whatever the rate. */
  lemma LerpFixedPoint(b: real, t: real)
    ensures Lerp(b, b, t) == b
  {
  }

  /** There is no clamp: a rate above 1 overshoots the target. */
  lemma LerpOvershoots(a: real, b: real, t: real)
    requires a < b && t > 1.0
    ensures Lerp(a, b, t) > b
  {
    var p := (b - a) * (t - 1.0);
    RealArith.MulPositive(b - a, t - 1.0);
    assert p > 0.0;
    assert Lerp(a, b, t) == b + p;
  }

  /** The coordinate-wise step of a point stays in the box spanned by start
      and target, and every coordinate's gap shrinks by (1 - t). */
  lemma LerpVecBetween(a: Vec3, b: Vec3, t: real)
    requires 0.0 <= t <= 1.0
    ensures BetweenVec(LerpVec(a, b, t), a, b)
    ensures SqDist(LerpVec(a, b, t), b) == (1.0 - t) * (1.0 - t) * SqDist(a, b)
  {
    LerpBetween(a.x, b.x, t);
    LerpBetween(a.y, b.y, t);
    LerpBetween(a.z, b.z, t);
    LerpVecGap(a, b, t);
  }

  /** The gap to the target after one coordinate-wise step, for any rate. */
  lemma LerpVecGap(a: Vec3, b: Vec3, t: real)
    ensures Sub(LerpVec(a, b, t), b) == Vec3((1.0 - t) * (a.x - b.x), (1.0 - t) * (a.y - b.y), (1.0 - t) * (a.z - b.z))
    ensures SqDist(LerpVec(a, b, t), b) == (1.0 - t) * (1.0 - t) * SqDist(a, b)
  {
    var k := 1.0 - t;
    var d := Sub(a, b);
    assert Sub(LerpVec(a, b, t), b) == Vec3(k * d.x, k * d.y, k * d.z);
    calc {
      SqDist(LerpVec(a, b, t), b);
      (k * d.x) * (k * d.x) + (k * d.y) * (k * d.y) + (k * d.z) * (k * d.z);
      { assert (k * d.x) * (k * d.x) == k * k * (d.x * d.x);
        assert (k * d.y) * (k * d.y) == k * k * (d.y * d.y);
        assert (k * d.z) * (k * d.z) == k * k * (d.z * d.z); }
      k * k * (d.x * d.x + d.y * d.y + d.z * d.z);
    }
  }

  /** `LerpVecGap` for a point already known to be the step's result. */
  lemma LerpVecGapOf(r: Vec3, a: Vec3, b: Vec3, t: real)
    requires r == LerpVec(a, b, t)
    ensures SqDist(r, b) == (1.0 - t) * (1.0 - t) * SqDist(a, b)
  {
    LerpVecGap(a, b, t);
  }

  /** Easing toward the origin scales the squared length by (1 - t)^2. */
  lemma LerpVecTowardOrigin(a: Vec3, t: real)
    ensures NormSq(LerpVec(a, Origin, t)) == (1.0 - t) * (1.0 - t) * NormSq(a)
  {
    LerpVecGap(a, Origin, t);
    SqDistToOrigin(a);
    SqDistToOrigin(LerpVec(a, Origin, t));
  }

  /** A point already at its target does not move. */
  lemma LerpVecFixedPoint(b: Vec3, t: real)
    ensures LerpVec(b, b, t) == b
  {
  }

  /** `n` successive easing steps from `a` toward a fixed target `b` at rate `t`. */
  function EaseN(a: real, b: real, t: real, n: nat): real
  {
    if n == 0 then a else Lerp(EaseN(a, b, t, n - 1), b, t)
  }

  /** Repeated easing with a rate in [0, 1] never leaves the segment from the
      start to the target. */
  lemma {:induction false} EaseNBetween(a: real, b: real, t: real, n: nat)
    requires 0.0 <= t <= 1.0
    ensures Between(EaseN(a, b, t, n), a, b)
  {
    if n > 0 {
      EaseNBetween(a, b, t, n - 1);
      LerpBetween(EaseN(a, b, t, n - 1), b, t);
    }
  }

  /** The gap after `n` steps is at most the first gap divided by (1 + n t),
      so at a fixed positive rate it falls below any tolerance after
      finitely many steps. */
  lemma {:induction false} EaseNConverges(a: real, b: real, t: real, n: nat)
    requires 0.0 <= t <= 1.0
    ensures Abs(EaseN(a, b, t, n) - b) * (1.0 + n as real * t) <= Abs(a - b)
  {
    if n > 0 {
      EaseNConverges(a, b, t, n - 1);
      var x := EaseN(a, b, t, n - 1);
      LerpBetween(x, b, t);
      GapStepBound(Abs(EaseN(a, b, t, n) - b), Abs(x - b), t, (n - 1) as real, Abs(a - b));
    }
  }

  /** One more step at rate t turns a bound g (1 + m t) <= g0 into
      g' (1 + (m + 1) t) <= g0, where g' = (1 - t) g. */
  lemma GapStepBound(next: real, prev: real, t: real, m: real, first: real)
    requires 0.0 <= t <= 1.0 && m >= 0.0 && prev >= 0.0
    requires next == (1.0 - t) * prev
    requires prev * (1.0 + m * t) <= first
    ensures next * (1.0 + (m + 1.0) * t) <= first
  {
    var loss := (m + 1.0) * t * t;
    assert (1.0 - t) * (1.0 + (m + 1.0) * t) == (1.0 + m * t) - loss;
    RealArith.MulNonNegative((m + 1.0) * t, t) by {
      RealArith.MulNonNegative(m + 1.0, t);
    }
    RealArith.MulNonNegative(prev, loss);
    assert next * (1.0 + (m + 1.0) * t) == prev * (1.0 + m * t) - prev * loss;
  }
}
