/** The per-detection-frame logic of the hand controller
    (HandController.tsx, the body of `predictWebcam`): classify the hand,
    debounce the label against the last confirmed one, run the mode state
    machine on a confirmed label, and publish the hand position. */
module HandController {
  import opened Types
  import opened Store
  import opened GestureRecognition

  /** The counter must exceed this many differing frames before a label is confirmed. */
  const ConfirmFrames: nat := 5

  /** The store plus the controller's two refs: the last confirmed label and
      the count of consecutive frames whose label differed from it. */
  datatype Controller = Controller(store: AppState, lastGesture: GestureType, pending: nat)

  const Start: Controller := Controller(Initial, NONE, 0)

  /** One detection result as the landmark model delivers it: no hand, or
      one hand of exactly 21 landmarks. */
  predicate ValidFrame(frame: Option<seq<Vec3>>)
  {
    frame.Some? ==> |frame.value| == NumLandmarks
  }

  /** The hand position mapped from landmark 9 (middle-finger knuckle):
      both axes centred on 0, scaled to [-1, 1], and both flipped (x for the
      mirrored camera, y because image rows grow downwards). */
  function HandPosition(knuckle: Vec3): (h: Hand2)
    ensures knuckle.x == (1.0 - h.x) / 2.0 && knuckle.y == (1.0 - h.y) / 2.0
  {
    var x := (knuckle.x - 0.5) * 2.0;
    var y := -(knuckle.y - 0.5) * 2.0;
    Hand2(-x, y)
  }

  /** A knuckle inside the camera image yields a hand position in the unit square. */
  lemma HandPositionBounds(knuckle: Vec3)
    requires 0.0 <= knuckle.x <= 1.0 && 0.0 <= knuckle.y <= 1.0
    ensures -1.0 <= HandPosition(knuckle).x <= 1.0
    ensures -1.0 <= HandPosition(knuckle).y <= 1.0
  {
  }

  /** The mode state machine run on a confirmed label: publish the label,
      then FIST returns to the tree from any other mode and clears the
      focus, OPEN_PALM scatters the tree, PINCH in scatter mode focuses a
      photo drawn by `u` when there is one; anything else changes no mode. */
  function ApplyConfirmed(s: AppState, g: GestureType, u: real): (r: AppState)
    requires IsUnitDraw(u)
    ensures r.gesture == g
    ensures r.hand == s.hand && r.photos == s.photos && r.cameraReady == s.cameraReady
    ensures g == FIST && s.mode != TREE ==> r.mode == TREE && r.focusedPhotoId == None
    ensures g == OPEN_PALM && s.mode == TREE ==> r.mode == SCATTER && r.focusedPhotoId == s.focusedPhotoId
    ensures g == PINCH && s.mode == SCATTER && |s.photos| > 0 ==>
              r.mode == FOCUS && r.focusedPhotoId == Some(s.photos[PickIndex(u, |s.photos|)].id)
    ensures !(g == FIST && s.mode != TREE) && !(g == OPEN_PALM && s.mode == TREE)
              && !(g == PINCH && s.mode == SCATTER && |s.photos| > 0) ==>
              r.mode == s.mode && r.focusedPhotoId == s.focusedPhotoId
  {
    var s1 := SetGesture(s, g);
    if g == FIST && s.mode != TREE then
      SetFocusedPhotoId(SetMode(s1, TREE), None)
    else if g == OPEN_PALM && s.mode == TREE then
      SetMode(s1, SCATTER)
    else if g == PINCH && s.mode == SCATTER && |s.photos| > 0 then
      SetFocusedPhotoId(SetMode(s1, FOCUS), Some(s.photos[PickIndex(u, |s.photos|)].id))
    else
      s1
  }

  /** The debounce: a label equal to the last confirmed one resets the
      counter; a differing label bumps it, and the bump that takes it past
      `ConfirmFrames` confirms that frame's label, whatever the earlier
      differing frames said. */
  function OnGesture(c: Controller, g: GestureType, u: real): (r: Controller)
    requires IsUnitDraw(u)
    ensures g == c.lastGesture ==> r == c.(pending := 0)
    ensures g != c.lastGesture && c.pending < ConfirmFrames ==> r == c.(pending := c.pending + 1)
    ensures g != c.lastGesture && c.pending >= ConfirmFrames ==>
              r == Controller(ApplyConfirmed(c.store, g, u), g, 0)
  {
    if g != c.lastGesture then
      var n := c.pending + 1;
      if n > ConfirmFrames then Controller(ApplyConfirmed(c.store, g, u), g, 0)
      else c.(pending := n)
    else
      c.(pending := 0)
  }

  /** One detection frame. Without a hand only the published label changes
      (to NONE); with a hand the label goes through the debounce and the
      hand position is published. */
  function Step(c: Controller, frame: Option<seq<Vec3>>, u: real): (r: Controller)
    requires ValidFrame(frame) && IsUnitDraw(u)
    ensures frame.None? ==> r == c.(store := c.store.(gesture := NONE))
    ensures frame.Some? ==>
              var d := OnGesture(c, Classify(frame.value), u);
              r == d.(store := d.store.(hand := HandPosition(frame.value[9])))
    ensures r.store.photos == c.store.photos && r.store.cameraReady == c.store.cameraReady
  {
    match frame
    case None => c.(store := SetGesture(c.store, NONE))
    case Some(lms) =>
      var g := DetectGesture(lms).gesture;
      var d := OnGesture(c, g, u);
      d.(store := SetHandPosition(d.store, HandPosition(lms[9])))
  }

  /** The controller invariant: the store's focus invariant and a counter
      that never exceeds the confirmation threshold. */
  predicate Inv(c: Controller)
  {
    FocusConsistent(c.store) && c.pending <= ConfirmFrames
  }

  lemma StartSatisfiesInv()
    ensures Inv(Start)
  {
  }

  /** A confirmed label keeps the focus invariant: a focus is set only when
      entering FOCUS, always to a photo of the store, and cleared on leaving. */
  lemma ApplyConfirmedKeepsFocusConsistent(s: AppState, g: GestureType, u: real)
    requires IsUnitDraw(u) && FocusConsistent(s)
    ensures FocusConsistent(ApplyConfirmed(s, g, u))
  {
    var r := ApplyConfirmed(s, g, u);
    if g == PINCH && s.mode == SCATTER && |s.photos| > 0 {
      var k := PickIndex(u, |s.photos|);
      assert r.photos[k].id == r.focusedPhotoId.value;
    }
  }

  lemma StepKeepsInv(c: Controller, frame: Option<seq<Vec3>>, u: real)
    requires ValidFrame(frame) && IsUnitDraw(u) && Inv(c)
    ensures Inv(Step(c, frame, u))
  {
    if frame.Some? {
      var g := Classify(frame.value);
      if g != c.lastGesture && c.pending >= ConfirmFrames {
        ApplyConfirmedKeepsFocusConsistent(c.store, g, u);
      }
    }
  }

  /** A frame without a hand publishes NONE and leaves the last confirmed
      label, the counter, the mode, the focus and the hand untouched. */
  lemma NoHandKeepsDebounceState(c: Controller, u: real)
    requires IsUnitDraw(u)
    ensures Step(c, None, u).store.gesture == NONE
    ensures Step(c, None, u).lastGesture == c.lastGesture
    ensures Step(c, None, u).pending == c.pending
    ensures Step(c, None, u).store.mode == c.store.mode
    ensures Step(c, None, u).store.focusedPhotoId == c.store.focusedPhotoId
    ensures Step(c, None, u).store.hand == c.store.hand
  {
  }

  /** The debounce fed a sequence of labels, oldest first. */
  function Feed(c: Controller, gs: seq<GestureType>, u: real): Controller
    requires IsUnitDraw(u)
  {
    if |gs| == 0 then c else OnGesture(Feed(c, gs[..|gs| - 1], u), gs[|gs| - 1], u)
  }

  /** Up to the threshold, frames that all differ from the last confirmed
      label only count: nothing is confirmed and the store is untouched. */
  lemma {:induction false} FeedBelowThreshold(c: Controller, gs: seq<GestureType>, u: real)
    requires IsUnitDraw(u)
    requires c.pending + |gs| <= ConfirmFrames
    requires forall i :: 0 <= i < |gs| ==> gs[i] != c.lastGesture
    ensures Feed(c, gs, u) == c.(pending := c.pending + |gs|)
  {
    if |gs| > 0 {
      FeedBelowThreshold(c, gs[..|gs| - 1], u);
    }
  }

  /** From a reset counter, the sixth consecutive frame differing from the
      last confirmed label confirms that sixth frame's label, even when the
      six labels disagree among themselves. */
  lemma ConfirmOnSixthDifferingFrame(c: Controller, gs: seq<GestureType>, u: real)
    requires IsUnitDraw(u) && c.pending == 0 && |gs| == ConfirmFrames + 1
    requires forall i :: 0 <= i < |gs| ==> gs[i] != c.lastGesture
    ensures Feed(c, gs, u) == Controller(ApplyConfirmed(c.store, gs[ConfirmFrames], u), gs[ConfirmFrames], 0)
  {
    FeedBelowThreshold(c, gs[..ConfirmFrames], u);
  }

  /** Five fists after a confirmed NONE followed by one pinch confirm PINCH. */
  lemma DisagreeingFramesConfirmLastLabel(s: AppState, u: real)
    requires IsUnitDraw(u)
    ensures Feed(Controller(s, NONE, 0), [FIST, FIST, FIST, FIST, FIST, PINCH], u).lastGesture == PINCH
  {
    ConfirmOnSixthDifferingFrame(Controller(s, NONE, 0), [FIST, FIST, FIST, FIST, FIST, PINCH], u);
  }

  /** A label repeated six times. */
  function Six(g: GestureType): (gs: seq<GestureType>)
    ensures |gs| == ConfirmFrames + 1 && forall i :: 0 <= i < |gs| ==> gs[i] == g
  {
    [g, g, g, g, g, g]
  }

  /** With one photo uploaded: six open palms scatter the tree, six pinches
      focus that photo, six fists bring the tree back and clear the focus. */
  lemma OpenPinchFistScenario(p: PhotoData, u: real)
    requires IsUnitDraw(u)
    ensures var c0 := Controller(AddPhotos(Initial, [p]), NONE, 0);
            var c1 := Feed(c0, Six(OPEN_PALM), u);
            var c2 := Feed(c1, Six(PINCH), u);
            var c3 := Feed(c2, Six(FIST), u);
            && c1.store.mode == SCATTER && c1.store.focusedPhotoId == None
            && c2.store.mode == FOCUS && c2.store.focusedPhotoId == Some(p.id)
            && c3.store.mode == TREE && c3.store.focusedPhotoId == None
  {
    var c0 := Controller(AddPhotos(Initial, [p]), NONE, 0);
    ConfirmOnSixthDifferingFrame(c0, Six(OPEN_PALM), u);
    var c1 := Feed(c0, Six(OPEN_PALM), u);
    ConfirmOnSixthDifferingFrame(c1, Six(PINCH), u);
    var c2 := Feed(c1, Six(PINCH), u);
    ConfirmOnSixthDifferingFrame(c2, Six(FIST), u);
  }

  /** Everything that can happen to the shared state: a detection frame
      (with its random draw) or an upload of new photos. */
  datatype Event = Frame(landmarks: Option<seq<Vec3>>, u: real) | Upload(photos: seq<PhotoData>)

  predicate ValidEvent(e: Event)
  {
    e.Frame? ==> ValidFrame(e.landmarks) && IsUnitDraw(e.u)
  }

  function Apply(c: Controller, e: Event): Controller
    requires ValidEvent(e)
  {
    match e
    case Frame(lms, u) => Step(c, lms, u)
    case Upload(ps) => c.(store := AddPhotos(c.store, ps))
  }

  lemma ApplyKeepsInv(c: Controller, e: Event)
    requires ValidEvent(e)
    ensures Inv(c) ==> Inv(Apply(c, e))
  {
    if Inv(c) {
      match e
      case Frame(lms, u) => StepKeepsInv(c, lms, u);
      case Upload(ps) => AddPhotosKeepsFocusConsistent(c.store, ps);
    }
  }

  /** Runs a history of events; the controller invariant holds throughout. */
  function Run(c: Controller, es: seq<Event>): (r: Controller)
    requires forall i :: 0 <= i < |es| ==> ValidEvent(es[i])
    ensures Inv(c) ==> Inv(r)
    decreases |es|
  {
    if |es| == 0 then c
    else
      var c1 := Apply(c, es[0]);
      ApplyKeepsInv(c, es[0]);
      Run(c1, es[1..])
  }

  /** In every reachable state a photo is focused exactly in FOCUS mode, and
      it is one of the uploaded photos. */
  lemma ReachableFocusConsistent(es: seq<Event>)
    requires forall i :: 0 <= i < |es| ==> ValidEvent(es[i])
    ensures var s := Run(Start, es).store;
            && (s.focusedPhotoId.Some? <==> s.mode == FOCUS)
            && (s.focusedPhotoId.Some? ==> HasPhoto(s.photos, s.focusedPhotoId.value))
  {
    StartSatisfiesInv();
  }
}
