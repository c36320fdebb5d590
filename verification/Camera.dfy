/** The camera rig (Experience.tsx): every frame the camera eases toward a
    point on the z axis, close in FOCUS mode and far otherwise, and looks at
    the origin. */
module Camera {
  import opened Types
  import opened Easing

  const CameraRate: real := 1.5

  /** The position the canvas gives the camera when it is created. */
  const CameraStart: Vec3 := Vec3(0.0, 0.0, 20.0)

  /** The point the camera eases toward: (0, 0, 8) in FOCUS, (0, 0, 20) otherwise. */
  function CameraTarget(mode: AppMode): (r: Vec3)
    ensures r.x == 0.0 && r.y == 0.0
    ensures mode == FOCUS ==> r.z == 8.0
    ensures mode != FOCUS ==> r == CameraStart
  {
    if mode == FOCUS then Vec3(0.0, 0.0, 8.0) else Vec3(0.0, 0.0, 20.0)
  }

  /** One frame of the rig: `camera.position.lerp(target, delta * 1.5)`. */
  function CameraStep(p: Vec3, mode: AppMode, delta: real): (r: Vec3)
    ensures p.x == 0.0 && p.y == 0.0 ==> r.x == 0.0 && r.y == 0.0
    ensures p == CameraTarget(mode) ==> r == p
  {
    LerpVec(p, CameraTarget(mode), delta * CameraRate)
  }

  /** With a rate in [0, 1] the camera moves toward its target without
      passing it, and its squared distance to the target shrinks by
      (1 - 1.5 delta)^2. */
  lemma CameraStepApproaches(p: Vec3, mode: AppMode, delta: real)
    requires 0.0 <= delta * CameraRate <= 1.0
    ensures BetweenVec(CameraStep(p, mode, delta), p, CameraTarget(mode))
    ensures SqDist(CameraStep(p, mode, delta), CameraTarget(mode))
              == (1.0 - delta * CameraRate) * (1.0 - delta * CameraRate) * SqDist(p, CameraTarget(mode))
  {
    LerpVecBetween(p, CameraTarget(mode), delta * CameraRate);
  }

  /** A camera on the z axis stays on it, whatever the frame time. */
  lemma CameraStaysOnAxis(p: Vec3, mode: AppMode, delta: real)
    requires p.x == 0.0 && p.y == 0.0
    ensures CameraStep(p, mode, delta).x == 0.0 && CameraStep(p, mode, delta).y == 0.0
  {
  }

  /** A camera already at its target does not move, whatever the frame
      time; in particular, outside FOCUS mode the camera stays at its start
      position. */
  lemma CameraAtTargetStays(mode: AppMode, delta: real)
    ensures CameraStep(CameraTarget(mode), mode, delta) == CameraTarget(mode)
    ensures mode != FOCUS ==> CameraStep(CameraStart, mode, delta) == CameraStart
  {
    LerpVecFixedPoint(CameraTarget(mode), delta * CameraRate);
  }

  /** Entering FOCUS from the start position, one frame with a rate in
      [0, 1] leaves the camera on the axis between z = 8 and z = 20, and
      strictly closer than 20 once time has passed. */
  lemma CameraZoomsIn(delta: real)
    requires 0.0 <= delta * CameraRate <= 1.0
    ensures var c := CameraStep(CameraStart, FOCUS, delta);
            && c.x == 0.0 && c.y == 0.0
            && 8.0 <= c.z <= 20.0
            && (delta > 0.0 ==> c.z < 20.0)
  {
    var c := CameraStep(CameraStart, FOCUS, delta);
    assert c.z == 20.0 - 12.0 * (delta * CameraRate);
  }
}
