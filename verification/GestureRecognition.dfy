/** The per-frame hand-gesture classifier (gestureRecognition.ts). It looks at
    the wrist, the thumb tip and, for each of the four fingers, the tip and
    the PIP joint of one 21-point hand skeleton.

    Distances are compared squared: `dist(a, b) < k` becomes
    `SqDist(a, b) < k * k`, which `SquaredComparisonAgrees` shows is the same
    test because both sides are non-negative. */
module GestureRecognition {
  import opened Types
  import RealArith

  /** Landmark count of one detected hand. */
  const NumLandmarks: nat := 21

  const Wrist: nat := 0
  const ThumbTip: nat := 4
  const IndexPip: nat := 6
  const IndexTip: nat := 8
  const MiddlePip: nat := 10
  const MiddleTip: nat := 12
  const RingPip: nat := 14
  const RingTip: nat := 16
  const PinkyPip: nat := 18
  const PinkyTip: nat := 20

  /** Thumb-tip to index-tip distance below which the hand pinches. */
  const PinchThreshold: real := 0.05

  /** The square of `PinchThreshold`. */
  const PinchThresholdSq: real := 0.0025

  /** What a call of the classifier does: return a label, or throw because it
      read a coordinate of a landmark index past the end of the list. */
  datatype Detection = Label(gesture: GestureType) | TypeError

  predicate Pinched(lms: seq<Vec3>)
    requires |lms| > IndexTip
  {
    SqDist(lms[ThumbTip], lms[IndexTip]) < PinchThresholdSq
  }

  /** A finger is curled when its tip is strictly closer to the wrist than its PIP joint. */
  predicate IsCurled(lms: seq<Vec3>, tip: nat, pip: nat)
    requires tip < |lms| && pip < |lms|
  {
    SqDist(lms[tip], lms[Wrist]) < SqDist(lms[pip], lms[Wrist])
  }

  predicate AllCurled(lms: seq<Vec3>)
    requires |lms| >= NumLandmarks
  {
    && IsCurled(lms, IndexTip, IndexPip)
    && IsCurled(lms, MiddleTip, MiddlePip)
    && IsCurled(lms, RingTip, RingPip)
    && IsCurled(lms, PinkyTip, PinkyPip)
  }

  predicate NoneCurled(lms: seq<Vec3>)
    requires |lms| >= NumLandmarks
  {
    && !IsCurled(lms, IndexTip, IndexPip)
    && !IsCurled(lms, MiddleTip, MiddlePip)
    && !IsCurled(lms, RingTip, RingPip)
    && !IsCurled(lms, PinkyTip, PinkyPip)
  }

  /** The classifier on a complete skeleton: pinch first, then the curl tests. */
  function Classify(lms: seq<Vec3>): (g: GestureType)
    requires |lms| >= NumLandmarks
    ensures g != POINT
    ensures Pinched(lms) ==> g == PINCH
    ensures !Pinched(lms) && AllCurled(lms) ==> g == FIST
    ensures !Pinched(lms) && NoneCurled(lms) ==> g == OPEN_PALM
    ensures !Pinched(lms) && !AllCurled(lms) && !NoneCurled(lms) ==> g == NONE
  {
    if Pinched(lms) then PINCH
    else if AllCurled(lms) then FIST
    else if NoneCurled(lms) then OPEN_PALM
    else NONE
  }

  /** `detectGesture` on any list. An empty list is `NONE`. Otherwise the
      thumb tip (4) and index tip (8) are read first, so a list of at most
      8 points throws; a pinch then returns before the curl tests, which
      read indices up to 20, so a list of 9 to 20 points throws unless it
      pinches. */
  function DetectGesture(lms: seq<Vec3>): (r: Detection)
    ensures |lms| == 0 ==> r == Label(NONE)
    ensures |lms| >= NumLandmarks ==> r == Label(Classify(lms))
    ensures r.Label? ==> r.gesture != POINT
  {
    if |lms| == 0 then Label(NONE)
    else if |lms| <= IndexTip then TypeError
    else if Pinched(lms) then Label(PINCH)
    else if |lms| < NumLandmarks then TypeError
    else Label(Classify(lms))
  }

  /** Exactly the lists the classifier can read throw no error: the empty
      list, a complete skeleton, or a partial one that pinches. */
  lemma DetectGestureThrowsIff(lms: seq<Vec3>)
    ensures DetectGesture(lms).TypeError? <==>
              (1 <= |lms| <= IndexTip) || (IndexTip < |lms| < NumLandmarks && !Pinched(lms))
  {
  }

  /** The classification table read backwards: each label names exactly one
      region of pose space. */
  lemma ClassifyIff(lms: seq<Vec3>)
    requires |lms| >= NumLandmarks
    ensures Classify(lms) == PINCH <==> Pinched(lms)
    ensures Classify(lms) == FIST <==> !Pinched(lms) && AllCurled(lms)
    ensures Classify(lms) == OPEN_PALM <==> !Pinched(lms) && NoneCurled(lms)
    ensures Classify(lms) == NONE <==> !Pinched(lms) && !AllCurled(lms) && !NoneCurled(lms)
  {
  }

  /** A fist and an open palm can never be the same pose. */
  lemma FistAndOpenPalmExclusive(lms: seq<Vec3>)
    requires |lms| >= NumLandmarks
    ensures !(AllCurled(lms) && NoneCurled(lms))
  {
  }

  /** A tip as far from the wrist as its PIP joint is not curled. */
  lemma CurlIsStrict(lms: seq<Vec3>, tip: nat, pip: nat)
    requires tip < |lms| && pip < |lms|
    requires SqDist(lms[tip], lms[Wrist]) == SqDist(lms[pip], lms[Wrist])
    ensures !IsCurled(lms, tip, pip)
  {
  }

  /** The landmarks the classifier reads. */
  predicate SameKeyPoints(a: seq<Vec3>, b: seq<Vec3>)
    requires |a| >= NumLandmarks && |b| >= NumLandmarks
  {
    && a[Wrist] == b[Wrist] && a[ThumbTip] == b[ThumbTip]
    && a[IndexPip] == b[IndexPip] && a[IndexTip] == b[IndexTip]
    && a[MiddlePip] == b[MiddlePip] && a[MiddleTip] == b[MiddleTip]
    && a[RingPip] == b[RingPip] && a[RingTip] == b[RingTip]
    && a[PinkyPip] == b[PinkyPip] && a[PinkyTip] == b[PinkyTip]
  }

  /** The label depends only on landmarks 0, 4, 6, 8, 10, 12, 14, 16, 18 and 20. */
  lemma ClassifyReadsOnlyKeyPoints(a: seq<Vec3>, b: seq<Vec3>)
    requires |a| >= NumLandmarks && |b| >= NumLandmarks
    requires SameKeyPoints(a, b)
    ensures Classify(a) == Classify(b)
  {
  }

  /** Comparing two non-negative distances is the same as comparing their squares. */
  lemma SquaredComparisonAgrees(d1: real, d2: real)
    requires d1 >= 0.0 && d2 >= 0.0
    ensures d1 < d2 <==> d1 * d1 < d2 * d2
  {
    if d1 < d2 {
      RealArith.SquareStrictlyMonotone(d1, d2);
    } else if d2 < d1 {
      RealArith.SquareStrictlyMonotone(d2, d1);
    }
  }

  /** The source's pinch test on true Euclidean distances agrees with `Pinched`. */
  lemma PinchAgreesWithDistance(lms: seq<Vec3>, d: real)
    requires |lms| > IndexTip
    requires d >= 0.0 && d * d == SqDist(lms[ThumbTip], lms[IndexTip])
    ensures d < PinchThreshold <==> Pinched(lms)
  {
    SquaredComparisonAgrees(d, PinchThreshold);
  }

  /** The source's curl test on true Euclidean distances agrees with `IsCurled`. */
  lemma CurlAgreesWithDistance(lms: seq<Vec3>, tip: nat, pip: nat, dTip: real, dPip: real)
    requires tip < |lms| && pip < |lms|
    requires dTip >= 0.0 && dTip * dTip == SqDist(lms[tip], lms[Wrist])
    requires dPip >= 0.0 && dPip * dPip == SqDist(lms[pip], lms[Wrist])
    ensures dTip < dPip <==> IsCurled(lms, tip, pip)
  {
    SquaredComparisonAgrees(dTip, dPip);
  }
}
