/** The scene's per-entity logic (SceneContent.tsx): generating the particle
    field once, and the per-frame updates of the particle field
    (`TreeParticles`) and of each photo (`SinglePhoto`).

    Each frame eases an `expansion` value toward 0 in TREE mode and toward 1
    otherwise; every entity sits at the interpolation of its tree and
    scatter positions at that expansion, except the focused photo in FOCUS
    mode, which is pulled in front of the camera. */
module SceneContent {
  import opened Types
  import opened Easing
  import opened Layout
  import RealArith

  datatype Color = MATTE_GREEN | GOLD | RED | RED_BRIGHT

  const Palette: seq<Color> := [MATTE_GREEN, GOLD, RED, RED_BRIGHT]

  /** The eight `Math.random()` draws made for one particle. */
  datatype ParticleDraws = ParticleDraws(
    theta: real, h: real, radius: real, sTheta: real, sPhi: real,
    color: real, scale: real, spin: real)

  predicate ValidDraws(w: ParticleDraws)
  {
    && IsUnitDraw(w.theta) && IsUnitDraw(w.h) && IsUnitDraw(w.radius)
    && IsUnitDraw(w.sTheta) && IsUnitDraw(w.sPhi)
    && IsUnitDraw(w.color) && IsUnitDraw(w.scale) && IsUnitDraw(w.spin)
  }

  datatype Particle = Particle(treePos: Vec3, scatterPos: Vec3, color: Color, scale: real, rotationSpeed: real)

  /** One particle: a cone point with apex offset 0.2, a scatter point, a
      palette colour, a scale in [0.1, 0.3) and a spin speed in [0, 0.02). */
  function MakeParticle(t: Trig, d: Dims, w: ParticleDraws): (p: Particle)
    requires ValidDims(d) && ValidDraws(w)
    ensures p.treePos == TreePoint(t, d, w.h, w.theta, ParticleApexOffset)
    ensures p.scatterPos == ScatterPoint(t, d, w.radius, w.sTheta, w.sPhi)
    ensures p.color in Palette
    ensures 0.1 <= p.scale < 0.3 && 0.0 <= p.rotationSpeed < 0.02
  {
    Particle(
      TreePoint(t, d, w.h, w.theta, ParticleApexOffset),
      ScatterPoint(t, d, w.radius, w.sTheta, w.sPhi),
      Palette[PickIndex(w.color, |Palette|)],
      w.scale * 0.2 + 0.1,
      w.spin * 0.02)
  }

  /** The particle field, one particle per set of draws, in draw order. */
  method GenerateParticles(t: Trig, d: Dims, draws: seq<ParticleDraws>) returns (ps: seq<Particle>)
    requires ValidDims(d)
    requires forall i :: 0 <= i < |draws| ==> ValidDraws(draws[i])
    ensures |ps| == |draws|
    ensures forall i :: 0 <= i < |ps| ==> ps[i] == MakeParticle(t, d, draws[i])
  {
    ps := [];
    var i := 0;
    while i < |draws|
      invariant i <= |draws| && |ps| == i
      invariant forall j :: 0 <= j < i ==> ps[j] == MakeParticle(t, d, draws[j])
    {
      ps := ps + [MakeParticle(t, d, draws[i])];
      i := i + 1;
    }
  }

  /** Every particle's scatter point is strictly inside the scatter ball. */
  lemma ParticleInScatterBall(t: Trig, d: Dims, w: ParticleDraws)
    requires ValidDims(d) && ValidDraws(w) && Lawful(t)
    ensures NormSq(MakeParticle(t, d, w).scatterPos) < d.scatterRadius * d.scatterRadius
  {
    var sr := ScatterRadius(t, d, w.radius);
    ScatterPointOnSphere(t, d, w.radius, w.sTheta, w.sPhi);
    assert sr * sr < d.scatterRadius * d.scatterRadius by {
      ScatterRadiusBounds(t, d, w.radius);
      RealArith.SquareStrictlyMonotone(sr, d.scatterRadius);
    }
  }

  // ---------------------------------------------------------------- expansion

  const ExpansionRate: real := 2.0

  /** 0 in TREE mode; 1 in SCATTER and FOCUS. */
  function TargetExpansion(mode: AppMode): (e: real)
    ensures e == 0.0 <==> mode == TREE
    ensures e == 1.0 <==> mode != TREE
  {
    if mode == TREE then 0.0 else 1.0
  }

  /** One frame of the first-order lag of `expansion`. */
  function StepExpansion(e: real, mode: AppMode, delta: real): (r: real)
    ensures e == TargetExpansion(mode) ==> r == e
  {
    Lerp(e, TargetExpansion(mode), delta * ExpansionRate)
  }

  /** With 2 delta in [0, 1], one frame keeps expansion in [0, 1], moves it
      toward the target without passing it, and shrinks the remaining gap by
      the factor (1 - 2 delta). */
  lemma ExpansionStep(e: real, mode: AppMode, delta: real)
    requires 0.0 <= e <= 1.0 && 0.0 <= delta * ExpansionRate <= 1.0
    ensures 0.0 <= StepExpansion(e, mode, delta) <= 1.0
    ensures Between(StepExpansion(e, mode, delta), e, TargetExpansion(mode))
    ensures Abs(StepExpansion(e, mode, delta) - TargetExpansion(mode))
              == (1.0 - delta * ExpansionRate) * Abs(e - TargetExpansion(mode))
    ensures mode == TREE ==> StepExpansion(e, mode, delta) <= e
    ensures mode != TREE ==> StepExpansion(e, mode, delta) >= e
  {
    LerpBetween(e, TargetExpansion(mode), delta * ExpansionRate);
  }

  /** The rate is not clamped: a frame longer than half a second pushes a
      partly expanded field past full expansion. */
  lemma ExpansionOvershootsOnLongFrame(e: real, mode: AppMode, delta: real)
    requires mode != TREE && e < 1.0 && delta * ExpansionRate > 1.0
    ensures StepExpansion(e, mode, delta) > 1.0
  {
    LerpOvershoots(e, 1.0, delta * ExpansionRate);
  }

  /** The expansion after `n` frames of equal length in one mode. */
  function ExpansionAfter(e: real, mode: AppMode, delta: real, n: nat): (r: real)
    ensures n > 0 ==> r == StepExpansion(ExpansionAfter(e, mode, delta, n - 1), mode, delta)
  {
    EaseN(e, TargetExpansion(mode), delta * ExpansionRate, n)
  }

  /** At a fixed frame length with 0 < 2 delta <= 1, once n * 2 delta
      reaches 1000 frames' worth the expansion is within 0.001 of its
      target, and it never left [0, 1] on the way. */
  lemma ExpansionSettles(e: real, mode: AppMode, delta: real, n: nat)
    requires 0.0 <= e <= 1.0 && 0.0 < delta * ExpansionRate <= 1.0
    requires n as real * (delta * ExpansionRate) >= 1000.0
    ensures 0.0 <= ExpansionAfter(e, mode, delta, n) <= 1.0
    ensures Abs(ExpansionAfter(e, mode, delta, n) - TargetExpansion(mode)) < 0.001
  {
    var b, k := TargetExpansion(mode), delta * ExpansionRate;
    var x := EaseN(e, b, k, n);
    assert Between(x, e, b) by { EaseNBetween(e, b, k, n); }
    var g, f := Abs(x - b), 1.0 + n as real * k;
    assert g * f <= Abs(e - b) by { EaseNConverges(e, b, k, n); }
    SmallAfterManyFrames(g, f, Abs(e - b));
  }

  /** A gap g with g f <= g0 <= 1 and f >= 1001 is below 0.001. */
  lemma SmallAfterManyFrames(g: real, f: real, g0: real)
    requires g >= 0.0 && g * f <= g0 <= 1.0 && f >= 1001.0
    ensures g < 0.001
  {
    RealArith.MulLeftMonotone(g, 1001.0, f);
  }

  // ----------------------------------------------------------------- rotation

  const BaseSpin: real := 0.1
  const TiltGain: real := 0.5

  /** The particle group's rotation: `spin` about the vertical axis
      (rotation.y) and `tilt` about the horizontal one (rotation.x). */
  datatype GroupRotation = GroupRotation(spin: real, tilt: real)

  /** The tilt the group eases toward: half the hand's height in SCATTER, level otherwise. */
  function TiltTarget(mode: AppMode, hand: Hand2): real
  {
    if mode == SCATTER then hand.y * TiltGain else 0.0
  }

  /** One frame of group rotation: a base spin, plus the hand's x as extra
      spin in SCATTER mode; the tilt eases toward its target at rate delta. */
  function RotateGroup(rot: GroupRotation, mode: AppMode, hand: Hand2, delta: real): (r: GroupRotation)
    ensures mode == SCATTER ==> r.spin - rot.spin == delta * (BaseSpin + hand.x)
    ensures mode != SCATTER ==> r.spin - rot.spin == delta * BaseSpin
    ensures r.tilt == Lerp(rot.tilt, TiltTarget(mode, hand), delta)
  {
    if mode == SCATTER then
      GroupRotation(rot.spin + delta * BaseSpin + hand.x * delta, Lerp(rot.tilt, hand.y * TiltGain, delta))
    else
      GroupRotation(rot.spin + delta * BaseSpin, Lerp(rot.tilt, 0.0, delta))
  }

  /** Outside SCATTER mode the hand has no effect on the rotation. */
  lemma RotationIgnoresHandOutsideScatter(rot: GroupRotation, mode: AppMode, h1: Hand2, h2: Hand2, delta: real)
    requires mode != SCATTER
    ensures RotateGroup(rot, mode, h1, delta) == RotateGroup(rot, mode, h2, delta)
  {
  }

  /** With delta in [0, 1] and the hand in the unit square, a tilt within
      [-0.5, 0.5] stays there, moving toward its target. */
  lemma TiltStaysBounded(rot: GroupRotation, mode: AppMode, hand: Hand2, delta: real)
    requires 0.0 <= delta <= 1.0 && -1.0 <= hand.y <= 1.0
    requires -TiltGain <= rot.tilt <= TiltGain
    ensures Between(RotateGroup(rot, mode, hand, delta).tilt, rot.tilt, TiltTarget(mode, hand))
    ensures -TiltGain <= RotateGroup(rot, mode, hand, delta).tilt <= TiltGain
  {
    LerpBetween(rot.tilt, TiltTarget(mode, hand), delta);
  }

  // ----------------------------------------------------------- particle frame

  const FloatAmplitude: real := 0.1
  const EmissiveThreshold: real := 0.5

  /** The breathing offset, phased by the particle's tree x-coordinate and scaled by expansion. */
  function FloatOffset(t: Trig, p: Particle, e: real, time: real): real
  {
    t.sin(time + p.treePos.x) * FloatAmplitude * e
  }

  function ParticlePosition(t: Trig, p: Particle, e: real, time: real): (r: Vec3)
    ensures e == 0.0 ==> r == p.treePos
  {
    var base := LerpVec(p.treePos, p.scatterPos, e);
    Vec3(base.x, base.y + FloatOffset(t, p, e, time), base.z)
  }

  /** The emissive boost: accent colours once the field is more than half expanded. */
  predicate Boosted(c: Color, e: real)
  {
    e > EmissiveThreshold && (c == GOLD || c == RED_BRIGHT)
  }

  /** What a frame writes for one particle: position, scale and whether its colour is boosted. */
  datatype Instance = Instance(position: Vec3, scale: real, boosted: bool)

  datatype FieldState = FieldState(expansion: real, rotation: GroupRotation)

  /** One `TreeParticles` frame: advance expansion and rotation once, then
      place every particle at the new expansion. `times[i]` is the clock
      reading taken while placing particle `i`: the loop reads the elapsed
      time once per particle, and each read advances the clock. */
  function FrameParticles(t: Trig, ps: seq<Particle>, times: seq<real>, f: FieldState, mode: AppMode, hand: Hand2, delta: real)
    : (r: (FieldState, seq<Instance>))
    requires |times| == |ps|
    ensures r.0.expansion == StepExpansion(f.expansion, mode, delta)
    ensures r.0.rotation == RotateGroup(f.rotation, mode, hand, delta)
    ensures |r.1| == |ps|
    ensures forall i :: 0 <= i < |ps| ==>
              r.1[i] == Instance(ParticlePosition(t, ps[i], r.0.expansion, times[i]), ps[i].scale, Boosted(ps[i].color, r.0.expansion))
  {
    var e := StepExpansion(f.expansion, mode, delta);
    var rot := RotateGroup(f.rotation, mode, hand, delta);
    (FieldState(e, rot),
     seq(|ps|, i requires 0 <= i < |ps| =>
       Instance(ParticlePosition(t, ps[i], e, times[i]), ps[i].scale, Boosted(ps[i].color, e))))
  }

  /** A collapsed tree in TREE mode stays collapsed: every particle sits
      exactly on its tree position, unboosted, whatever the clock reads. */
  lemma CollapsedFieldIgnoresClock(t: Trig, ps: seq<Particle>, times: seq<real>, rot: GroupRotation, hand: Hand2, delta: real)
    requires |times| == |ps|
    ensures var r := FrameParticles(t, ps, times, FieldState(0.0, rot), TREE, hand, delta);
            && r.0.expansion == 0.0
            && forall i :: 0 <= i < |ps| ==> r.1[i].position == ps[i].treePos && !r.1[i].boosted
  {
    var r := FrameParticles(t, ps, times, FieldState(0.0, rot), TREE, hand, delta);
    assert r.0.expansion == 0.0;
    forall i | 0 <= i < |ps|
      ensures r.1[i].position == ps[i].treePos && !r.1[i].boosted
    {
      assert r.1[i].position == ParticlePosition(t, ps[i], 0.0, times[i]);
    }
  }

  /** The breathing offset is at most 0.1 times the expansion, so it
      vanishes when the tree is fully collapsed. */
  lemma FloatOffsetBounded(t: Trig, p: Particle, e: real, time: real)
    requires Lawful(t) && e >= 0.0
    ensures Abs(FloatOffset(t, p, e, time)) <= FloatAmplitude * e
  {
    var s := t.sin(time + p.treePos.x);
    var c := t.cos(time + p.treePos.x);
    assert s * s + c * c == 1.0;
    RealArith.SquareNonNegative(c);
    RealArith.SquareAtMostOne(s);
    var k := FloatAmplitude * e;
    assert FloatOffset(t, p, e, time) == s * k;
    if s >= 0.0 {
      RealArith.FractionOf(s, k);
    } else {
      RealArith.FractionOf(-s, k);
      assert (-s) * k == -(s * k);
    }
  }

  /** Collapsed, a particle sits exactly at its tree position; fully
      expanded, it sits at its scatter position up to the vertical breathing offset. */
  lemma ParticlePositionEndpoints(t: Trig, p: Particle, time: real)
    ensures ParticlePosition(t, p, 0.0, time) == p.treePos
    ensures var q := ParticlePosition(t, p, 1.0, time);
            q.x == p.scatterPos.x && q.z == p.scatterPos.z
            && q.y == p.scatterPos.y + FloatOffset(t, p, 1.0, time)
  {
  }

  /** In between, x and z lie between the two layouts and y is within the
      breathing amplitude of the interpolated height. */
  lemma ParticlePositionBetween(t: Trig, p: Particle, e: real, time: real)
    requires Lawful(t) && 0.0 <= e <= 1.0
    ensures var q := ParticlePosition(t, p, e, time);
            && Between(q.x, p.treePos.x, p.scatterPos.x)
            && Between(q.z, p.treePos.z, p.scatterPos.z)
            && Abs(q.y - Lerp(p.treePos.y, p.scatterPos.y, e)) <= FloatAmplitude * e
  {
    LerpBetween(p.treePos.x, p.scatterPos.x, e);
    LerpBetween(p.treePos.z, p.scatterPos.z, e);
    FloatOffsetBounded(t, p, e, time);
  }

  /** Collapsing from at most half expansion, no particle is boosted. */
  lemma NoBoostWhileCollapsing(c: Color, e: real, delta: real)
    requires 0.0 <= e <= EmissiveThreshold && 0.0 <= delta * ExpansionRate <= 1.0
    ensures !Boosted(c, StepExpansion(e, TREE, delta))
  {
    ExpansionStep(e, TREE, delta);
  }

  /** Only accent colours are ever boosted, and then exactly above half expansion. */
  lemma BoostedIff(c: Color, e: real)
    ensures Boosted(c, e) <==> e > 0.5 && c in {GOLD, RED_BRIGHT}
  {
  }

  // -------------------------------------------------------------- photo frame

  const PhotoMoveRate: real := 3.0
  const FocusTurnRate: real := 5.0
  const FocusScale: real := 2.5
  const FocusPoint: Vec3 := Vec3(0.0, 0.0, 4.0)

  /** A photo's rendered state: position, scale, rotation (Euler angles) and its own expansion. */
  datatype PhotoView = PhotoView(position: Vec3, scale: Vec3, rotation: Vec3, expansion: real)

  /** A photo is mounted at its tree position, unit scale, no rotation, collapsed. */
  function MountPhoto(p: PhotoData): (v: PhotoView)
    ensures v.position == p.treePos && v.expansion == 0.0
    ensures v.scale == Vec3(1.0, 1.0, 1.0) && v.rotation == Origin
  {
    PhotoView(p.treePos, Vec3(1.0, 1.0, 1.0), Origin, 0.0)
  }

  /** `photo.id === focusedPhotoId`; no photo matches a null focus. */
  predicate IsFocused(p: PhotoData, focusedId: Option<PhotoId>)
  {
    focusedId == Some(p.id)
  }

  /** The position a photo eases toward this frame. */
  function PhotoTarget(p: PhotoData, mode: AppMode, focused: bool, e: real): Vec3
  {
    if mode == FOCUS && focused then FocusPoint else LerpVec(p.treePos, p.scatterPos, e)
  }

  /** The scale a photo eases toward; its z scale always eases toward 1. */
  function PhotoTargetScale(mode: AppMode, focused: bool): Vec3
  {
    var s := if mode == FOCUS && focused then FocusScale else 1.0;
    Vec3(s, s, 1.0)
  }

  /** One `SinglePhoto` frame. `facing` is the orientation `lookAt(0, 0, 0)`
      gives an unfocused photo; the focused photo's rotation instead eases
      toward zero at the faster rate 5 delta. */
  function FramePhoto(v: PhotoView, p: PhotoData, mode: AppMode, focused: bool, facing: Vec3, delta: real): (r: PhotoView)
    ensures r.expansion == StepExpansion(v.expansion, mode, delta)
    ensures mode == FOCUS && focused ==>
              && r.position == LerpVec(v.position, FocusPoint, delta * PhotoMoveRate)
              && r.scale == LerpVec(v.scale, Vec3(FocusScale, FocusScale, 1.0), delta * PhotoMoveRate)
              && r.rotation == LerpVec(v.rotation, Origin, delta * FocusTurnRate)
    ensures !(mode == FOCUS && focused) ==>
              && r.position == LerpVec(v.position, LerpVec(p.treePos, p.scatterPos, r.expansion), delta * PhotoMoveRate)
              && r.scale == LerpVec(v.scale, Vec3(1.0, 1.0, 1.0), delta * PhotoMoveRate)
              && r.rotation == facing
  {
    var e := StepExpansion(v.expansion, mode, delta);
    var target := PhotoTarget(p, mode, focused, e);
    var rotation := if mode == FOCUS && focused then LerpVec(v.rotation, Origin, delta * FocusTurnRate) else facing;
    PhotoView(
      LerpVec(v.position, target, delta * PhotoMoveRate),
      LerpVec(v.scale, PhotoTargetScale(mode, focused), delta * PhotoMoveRate),
      rotation,
      e)
  }

  /** The focused photo in FOCUS mode closes in on the point (0, 0, 4) in
      front of the camera, its gap shrinking by (1 - 3 delta) each frame. */
  lemma FocusedPhotoApproaches(v: PhotoView, p: PhotoData, facing: Vec3, delta: real)
    requires 0.0 <= delta * PhotoMoveRate <= 1.0
    ensures var r := FramePhoto(v, p, FOCUS, true, facing, delta);
            && BetweenVec(r.position, v.position, FocusPoint)
            && SqDist(r.position, FocusPoint) == (1.0 - delta * PhotoMoveRate) * (1.0 - delta * PhotoMoveRate) * SqDist(v.position, FocusPoint)
  {
    var r := FramePhoto(v, p, FOCUS, true, facing, delta);
    assert r.position == LerpVec(v.position, FocusPoint, delta * PhotoMoveRate);
    LerpVecBetween(v.position, FocusPoint, delta * PhotoMoveRate);
  }

  /** Meanwhile it grows toward scale 2.5 in x and y (z stays eased toward 1). */
  lemma FocusedPhotoGrows(v: PhotoView, p: PhotoData, facing: Vec3, delta: real)
    requires 0.0 <= delta * PhotoMoveRate <= 1.0
    ensures var r := FramePhoto(v, p, FOCUS, true, facing, delta);
            BetweenVec(r.scale, v.scale, Vec3(FocusScale, FocusScale, 1.0))
  {
    var r := FramePhoto(v, p, FOCUS, true, facing, delta);
    assert r.scale == LerpVec(v.scale, Vec3(FocusScale, FocusScale, 1.0), delta * PhotoMoveRate);
    LerpVecBetween(v.scale, Vec3(FocusScale, FocusScale, 1.0), delta * PhotoMoveRate);
  }

  /** ... and turns square to the camera: its rotation decays toward zero by
      (1 - 5 delta) each frame instead of facing the origin. */
  lemma FocusedPhotoStraightens(v: PhotoView, p: PhotoData, facing: Vec3, delta: real)
    ensures var r := FramePhoto(v, p, FOCUS, true, facing, delta);
            NormSq(r.rotation) == (1.0 - delta * FocusTurnRate) * (1.0 - delta * FocusTurnRate) * NormSq(v.rotation)
  {
    var r := FramePhoto(v, p, FOCUS, true, facing, delta);
    assert r.rotation == LerpVec(v.rotation, Origin, delta * FocusTurnRate);
    LerpVecTowardOrigin(v.rotation, delta * FocusTurnRate);
  }

  /** Every other photo eases toward its interpolated layout position and unit
      scale and faces the origin; with expansion kept in [0, 1] that target
      lies between its tree and scatter positions. */
  lemma UnfocusedPhotoFrame(v: PhotoView, p: PhotoData, mode: AppMode, focused: bool, facing: Vec3, delta: real)
    requires !(mode == FOCUS && focused)
    requires 0.0 <= v.expansion <= 1.0 && 0.0 <= delta * ExpansionRate <= 1.0
    ensures var r := FramePhoto(v, p, mode, focused, facing, delta);
            && r.rotation == facing
            && PhotoTargetScale(mode, focused) == Vec3(1.0, 1.0, 1.0)
            && BetweenVec(PhotoTarget(p, mode, focused, r.expansion), p.treePos, p.scatterPos)
            && SqDist(r.position, PhotoTarget(p, mode, focused, r.expansion))
                 == (1.0 - delta * PhotoMoveRate) * (1.0 - delta * PhotoMoveRate)
                    * SqDist(v.position, PhotoTarget(p, mode, focused, r.expansion))
  {
    var r := FramePhoto(v, p, mode, focused, facing, delta);
    var target := PhotoTarget(p, mode, focused, r.expansion);
    assert target == LerpVec(p.treePos, p.scatterPos, r.expansion);
    assert BetweenVec(target, p.treePos, p.scatterPos) by {
      ExpansionStep(v.expansion, mode, delta);
      LerpVecBetween(p.treePos, p.scatterPos, r.expansion);
    }
    LerpVecGapOf(r.position, v.position, target, delta * PhotoMoveRate);
  }

  /** A photo mounted on the tree keeps its position, its unit scale and
      its zero expansion while the display stays in TREE mode; only its
      orientation changes, to whatever facing the origin gives. */
  lemma MountedPhotoRestsInTree(p: PhotoData, focused: bool, facing: Vec3, delta: real)
    ensures var v := MountPhoto(p);
            var r := FramePhoto(v, p, TREE, focused, facing, delta);
            r.position == v.position && r.scale == v.scale && r.expansion == 0.0 && r.rotation == facing
  {
    var v := MountPhoto(p);
    LerpVecFixedPoint(p.treePos, delta * PhotoMoveRate);
    LerpVecFixedPoint(Vec3(1.0, 1.0, 1.0), delta * PhotoMoveRate);
  }

  /** With distinct ids at most one photo is the focused one. */
  lemma AtMostOneFocused(photos: seq<PhotoData>, focusedId: Option<PhotoId>, i: nat, j: nat)
    requires forall a, b :: 0 <= a < b < |photos| ==> photos[a].id != photos[b].id
    requires i < |photos| && j < |photos|
    requires IsFocused(photos[i], focusedId) && IsFocused(photos[j], focusedId)
    ensures i == j
  {
  }
}
