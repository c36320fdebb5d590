/** Where particles and photos are placed when they are created: a point on a
    cone (the "tree") and a point inside a ball (the "scatter" cloud), both
    computed from independent draws of `Math.random()` (SceneContent.tsx for
    particles, UI.tsx for photos).

    The draws are parameters in [0, 1). The transcendental functions are the
    fields of a `Trig` record; the facts the proofs use about them are the
    assumptions of `Lawful`. */
module Layout {
  import opened Types
  import RealArith

  /** `Math.PI`, `Math.sin`, `Math.cos`, `Math.cbrt` and `Math.acos`. */
  datatype Trig = Trig(pi: real, sin: real -> real, cos: real -> real, cbrt: real -> real, acos: real -> real)

  /** The properties of the real functions that the layout relies on. */
  ghost predicate Lawful(t: Trig)
  {
    && t.pi > 0.0
    && (forall a :: t.sin(a) * t.sin(a) + t.cos(a) * t.cos(a) == 1.0)
    && (forall u :: 0.0 <= u < 1.0 ==> 0.0 <= t.cbrt(u) < 1.0)
  }

  /** Tree height, tree base radius and scatter-ball radius. */
  datatype Dims = Dims(treeHeight: real, treeRadius: real, scatterRadius: real)

  predicate ValidDims(d: Dims)
  {
    d.treeHeight > 0.0 && d.treeRadius > 0.0 && d.scatterRadius > 0.0
  }

  /** Radius added at every height so that the cone's apex is not a point. */
  const ParticleApexOffset: real := 0.2
  const PhotoApexOffset: real := 0.5

  /** The cone's radius at height `h` above its base. */
  function ConeRadius(d: Dims, h: real, offset: real): (r: real)
    requires ValidDims(d)
    ensures h == 0.0 ==> r == d.treeRadius + offset
    ensures h == d.treeHeight ==> r == offset
  {
    (1.0 - h / d.treeHeight) * d.treeRadius + offset
  }

  /** A point on the cone: height drawn by `uH`, angle by `uTheta`. */
  function TreePoint(t: Trig, d: Dims, uH: real, uTheta: real, offset: real): (p: Vec3)
    requires ValidDims(d)
    ensures p.y + d.treeHeight / 2.0 == uH * d.treeHeight
  {
    var r := ConeRadius(d, uH * d.treeHeight, offset);
    var theta := uTheta * t.pi * 2.0;
    Vec3(r * t.cos(theta), TreeY(d, uH), r * t.sin(theta))
  }

  /** The tree point's height: `uH * H` above the base, with the tree centred
      on the origin. */
  function TreeY(d: Dims, uH: real): real
  {
    uH * d.treeHeight - d.treeHeight / 2.0
  }

  /** The scatter radius: `S * cbrt(u)`, which makes the cloud uniform in volume. */
  function ScatterRadius(t: Trig, d: Dims, uR: real): real
  {
    d.scatterRadius * t.cbrt(uR)
  }

  /** A point of the scatter ball: radius by `uR`, azimuth by `uTheta`,
      polar angle `acos(2 uPhi - 1)`. */
  function ScatterPoint(t: Trig, d: Dims, uR: real, uTheta: real, uPhi: real): Vec3
  {
    var sr := ScatterRadius(t, d, uR);
    var sTheta := uTheta * t.pi * 2.0;
    var sPhi := t.acos(2.0 * uPhi - 1.0);
    Vec3(sr * t.sin(sPhi) * t.cos(sTheta), sr * t.sin(sPhi) * t.sin(sTheta), sr * t.cos(sPhi))
  }

  /** A height drawn in [0, H) puts the point in [-H/2, H/2): the tree is
      centred on the origin. */
  lemma TreeHeightBounds(d: Dims, uH: real)
    requires ValidDims(d) && IsUnitDraw(uH)
    ensures -d.treeHeight / 2.0 <= TreeY(d, uH) < d.treeHeight / 2.0
  {
    RealArith.UnitFraction(uH, d.treeHeight);
    CentredInterval(TreeY(d, uH), uH * d.treeHeight, d.treeHeight);
  }

  /** A height h in [0, H) measured from the base is y = h - H/2 in [-H/2, H/2). */
  lemma CentredInterval(y: real, h: real, height: real)
    requires y + height / 2.0 == h && 0.0 <= h < height
    ensures -height / 2.0 <= y < height / 2.0
  {
  }

  /** On the cone's height range the radius lies in (offset, R + offset]. */
  lemma ConeRadiusBounds(d: Dims, h: real, offset: real)
    requires ValidDims(d) && 0.0 <= h < d.treeHeight
    ensures offset < ConeRadius(d, h, offset) <= d.treeRadius + offset
  {
    var f := h / d.treeHeight;
    assert 0.0 <= f < 1.0 by {
      assert f * d.treeHeight == h;
      if f >= 1.0 {
        RealArith.MulLeftMonotone(d.treeHeight, 1.0, f);
      }
      if f < 0.0 {
        RealArith.MulLeftMonotone(d.treeHeight, f, 0.0);
      }
    }
    RealArith.FractionOf(1.0 - f, d.treeRadius);
    RealArith.MulPositive(1.0 - f, d.treeRadius);
  }

  /** The cone narrows upwards: a higher point never has a larger radius. */
  lemma ConeRadiusNonIncreasing(d: Dims, h1: real, h2: real, offset: real)
    requires ValidDims(d) && h1 <= h2
    ensures ConeRadius(d, h2, offset) <= ConeRadius(d, h1, offset)
  {
    var f1, f2 := h1 / d.treeHeight, h2 / d.treeHeight;
    assert f1 <= f2 by {
      assert f2 - f1 == (h2 - h1) / d.treeHeight;
    }
    RealArith.MulLeftMonotone(d.treeRadius, 1.0 - f2, 1.0 - f1);
  }

  /** The tree point sits at horizontal distance r from the vertical axis. */
  lemma TreePointOnCone(t: Trig, d: Dims, uH: real, uTheta: real, offset: real)
    requires ValidDims(d) && Lawful(t)
    ensures var p := TreePoint(t, d, uH, uTheta, offset);
            var r := ConeRadius(d, uH * d.treeHeight, offset);
            p.x * p.x + p.z * p.z == r * r
  {
    var r := ConeRadius(d, uH * d.treeHeight, offset);
    var theta := uTheta * t.pi * 2.0;
    var c, s := t.cos(theta), t.sin(theta);
    assert s * s + c * c == 1.0;
    assert (r * c) * (r * c) + (r * s) * (r * s) == r * r * (c * c + s * s);
  }

  /** A point drawn with a height in [0, 1) lies on the cone inside the tree's
      height range, at a radius in (offset, R + offset]. */
  lemma TreePointInTree(t: Trig, d: Dims, uH: real, uTheta: real, offset: real)
    requires ValidDims(d) && Lawful(t) && IsUnitDraw(uH)
    ensures var p := TreePoint(t, d, uH, uTheta, offset);
            var r := ConeRadius(d, uH * d.treeHeight, offset);
            && -d.treeHeight / 2.0 <= p.y < d.treeHeight / 2.0
            && offset < r <= d.treeRadius + offset
            && p.x * p.x + p.z * p.z == r * r
  {
    TreeHeightBounds(d, uH);
    TreePointOnCone(t, d, uH, uTheta, offset);
    assert 0.0 <= uH * d.treeHeight < d.treeHeight by {
      RealArith.FractionOf(uH, d.treeHeight);
      RealArith.MulRightStrictlyBelow(uH, d.treeHeight);
    }
    ConeRadiusBounds(d, uH * d.treeHeight, offset);
  }

  /** A draw in [0, 1) gives a scatter radius in [0, S). */
  lemma ScatterRadiusBounds(t: Trig, d: Dims, uR: real)
    requires ValidDims(d) && Lawful(t) && IsUnitDraw(uR)
    ensures 0.0 <= ScatterRadius(t, d, uR) < d.scatterRadius
  {
    var c := t.cbrt(uR);
    assert 0.0 <= c < 1.0;
    assert ScatterRadius(t, d, uR) == c * d.scatterRadius;
    RealArith.FractionOf(c, d.scatterRadius);
    RealArith.MulRightStrictlyBelow(c, d.scatterRadius);
  }

  /** The scatter point lies at distance sr from the origin. */
  lemma ScatterPointOnSphere(t: Trig, d: Dims, uR: real, uTheta: real, uPhi: real)
    requires Lawful(t)
    ensures var sr := ScatterRadius(t, d, uR);
            NormSq(ScatterPoint(t, d, uR, uTheta, uPhi)) == sr * sr
  {
    var sr := ScatterRadius(t, d, uR);
    var sTheta := uTheta * t.pi * 2.0;
    var sPhi := t.acos(2.0 * uPhi - 1.0);
    var sp, cp := t.sin(sPhi), t.cos(sPhi);
    var st, ct := t.sin(sTheta), t.cos(sTheta);
    assert st * st + ct * ct == 1.0;
    assert sp * sp + cp * cp == 1.0;
    var rho := sr * sp;
    assert (rho * ct) * (rho * ct) + (rho * st) * (rho * st) == rho * rho * (ct * ct + st * st);
    assert rho * rho == sr * sr * (sp * sp);
    assert (sr * cp) * (sr * cp) == sr * sr * (cp * cp);
    assert sr * sr * (sp * sp) + sr * sr * (cp * cp) == sr * sr * (sp * sp + cp * cp);
  }
}
