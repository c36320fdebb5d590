# Gesture-driven photo tree: a Dafny model

The application is a 3D display. A Christmas-tree cone of particles and
user photos scatters into a cloud and focuses single photos, driven by hand
gestures seen through the webcam. This project models its control logic and
its layout and easing arithmetic, and proves properties of them:

- **Types** (`types.ts`). Display modes (`TREE`, `SCATTER`, `FOCUS`), gesture labels, 3D points, the photo record, and the random index `floor(u * n)`.
- **GestureRecognition** (`gestureRecognition.ts`). `detectGesture` on a list of hand landmarks. Distances are compared squared instead of through a square root, and a lemma shows that the two comparisons agree. A list that is too short makes the code read a coordinate of `undefined`. The model gives such a call an explicit `TypeError` outcome.
- **Store** (`store.ts`). The shared state record with its initial values, one setter per field, and `addPhotos`.
- **HandController** (`HandController.tsx`, the body of `predictWebcam`). The hand position mapping, the debounce and the mode state machine. The model also covers a history of detection frames and uploads, and proves that the focus invariant holds in every reachable state.
- **Easing**. The three.js `lerp`, `a + (b - a) * t`, with **no clamp** on `t`. The model proves betweenness, exact contraction of the gap, overshoot when `t > 1`, and the convergence of repeated steps.
- **Layout**. The cone point and scatter-ball point that particles and photos are created at.
- **SceneContent** (`SceneContent.tsx`). Particle generation, and one frame of the particle field: expansion, group rotation, breathing offset and emissive boost. Also one frame of a photo, focused or not.
- **Upload** (`UI.tsx`, `handleFileUpload`). One photo per selected file, appended to the store.
- **Camera** (`Experience.tsx`, `CameraRig`). The camera eases toward a point on the z axis.

Modelling choices:

- Coordinates are mathematical reals.
- Every `Math.random()` draw is a parameter `u` with `0 <= u < 1`.
- `Math.PI`, `sin`, `cos`, `cbrt` and `acos` are fields of a `Trig` record. The proofs use only the facts collected in `Layout.Lawful`:
  - `pi > 0`;
  - `sin^2 + cos^2 = 1`;
  - `cbrt` maps `[0, 1)` into `[0, 1)`.
- The tree height, tree radius and scatter radius come from `constants.ts`, which is not part of this model. They are a `Dims` parameter with all three values positive.
- The uuid and the object URL of an uploaded file are inputs carried by each selected file.

Two behaviours follow the code rather than the intent its comments suggest:

- **Debounce.** The counter does not require six frames that agree with each other. It counts consecutive frames whose label differs from the last confirmed one. The sixth such frame confirms its own label, whatever the five before it said (`HandController.DisagreeingFramesConfirmLastLabel`).
- **Easing rate.** Every rate `k * delta` is used unclamped. A frame longer than `1/k` seconds overshoots its target (`Easing.LerpOvershoots`, `SceneContent.ExpansionOvershootsOnLongFrame`).

## Model

| member | source | states |
|---|---|---|
| Types.PickIndex | HandController.tsx:79 | `Math.floor(u * n)` for a draw u in [0, 1) is a valid index below n, and it is the unique k with k <= u n < k + 1 |
| GestureRecognition.Pinched | gestureRecognition.ts:20 | no contract of its own: the squared pinch test that `GestureRecognition.PinchAgreesWithDistance` ties to the source's distance test |
| GestureRecognition.IsCurled | gestureRecognition.ts:26-28 | no contract of its own: the squared curl test that `GestureRecognition.CurlAgreesWithDistance` ties to the source's distance test |
| GestureRecognition.Classify | gestureRecognition.ts:19-45 | on a complete skeleton: PINCH whenever thumb and index tips are closer than 0.05, whatever the other fingers do; otherwise FIST when all four fingers are curled, OPEN_PALM when none is, and NONE for a mixed hand; never POINT |
| GestureRecognition.DetectGesture | gestureRecognition.ts:4-12 | an empty list gives NONE, a complete skeleton gives the classification, and a returned label is never POINT |
| GestureRecognition.DetectGestureThrowsIff | gestureRecognition.ts:7-33 | the call throws exactly for lists of 1 to 8 points, or of 9 to 20 points that do not pinch, because those are the lists where a landmark past the end is read |
| GestureRecognition.ClassifyIff | gestureRecognition.ts:20-45 | the reverse direction of the table: each label occurs exactly in its own region of poses |
| GestureRecognition.FistAndOpenPalmExclusive | gestureRecognition.ts:35-43 | no pose is both all-curled and none-curled |
| GestureRecognition.CurlIsStrict | gestureRecognition.ts:26-28 | a tip exactly as far from the wrist as its PIP joint is not curled |
| GestureRecognition.ClassifyReadsOnlyKeyPoints | gestureRecognition.ts:7-33 | two skeletons that agree on landmarks 0, 4, 6, 8, 10, 12, 14, 16, 18 and 20 get the same label |
| GestureRecognition.SquaredComparisonAgrees | gestureRecognition.ts:15-17 | for non-negative distances, d1 < d2 holds exactly when d1^2 < d2^2 |
| GestureRecognition.PinchAgreesWithDistance | gestureRecognition.ts:15-22 | the pinch test on the Euclidean distance, `dist < 0.05`, agrees with the squared test |
| GestureRecognition.CurlAgreesWithDistance | gestureRecognition.ts:26-28 | the curl test on Euclidean distances agrees with the squared test |
| Store.SetMode | store.ts:26 | the mode becomes the argument and every other field is unchanged |
| Store.SetGesture | store.ts:29 | the gesture becomes the argument and every other field is unchanged |
| Store.SetHandPosition | store.ts:32 | the hand position becomes the argument and every other field is unchanged |
| Store.SetFocusedPhotoId | store.ts:38 | the focused id becomes the argument and every other field is unchanged |
| Store.SetCameraReady | store.ts:41 | the ready flag becomes the argument and every other field is unchanged |
| Store.AddPhotos | store.ts:35 | the lengths add, the old photos are an unchanged prefix, the new photos are the suffix in order, and no other field changes |
| Store.InitialIsConsistent | store.ts:24-41 | the initial state is TREE, NONE, hand (0, 0), no photos, no focus, camera not ready, and it satisfies the focus invariant |
| Store.SettersIdempotent | store.ts:26-38 | setting the mode, the gesture or the focus twice equals setting it once |
| Store.SettersKeepCurrentValue | store.ts:26-41 | setting any field to its current value leaves the state as it was |
| Store.AddPhotosAssociative | store.ts:35 | two uploads in turn equal one upload of both batches |
| Store.AddPhotosKeepsPhotos | store.ts:35 | every photo id present before an upload is present after it |
| Store.AddPhotosKeepsFocusConsistent | store.ts:35 | an upload keeps the focus invariant |
| HandController.HandPosition | HandController.tsx:89-93 | the mapping is inverted by knuckle.x = (1 - h.x) / 2 and knuckle.y = (1 - h.y) / 2, so it is the centred, doubled and flipped knuckle position |
| HandController.HandPositionBounds | HandController.tsx:89-93 | a knuckle inside the unit square of the image gives a hand position in [-1, 1] on both axes |
| HandController.ApplyConfirmed | HandController.tsx:65-80 | a confirmed label is published. FIST outside TREE gives TREE with no focus. OPEN_PALM in TREE gives SCATTER. PINCH in SCATTER with photos gives FOCUS on the photo the draw picks. Every other case keeps mode and focus. Hand, photos and camera flag never change |
| HandController.OnGesture | HandController.tsx:62-85 | a label equal to the last confirmed one only resets the counter. A differing label increments it as long as the result is at most 5. The differing label that takes it past 5 is confirmed, becomes the last confirmed label, and resets the counter |
| HandController.Step | HandController.tsx:55-96 | without a hand, only the published label changes, to NONE. With a hand, the classified label goes through the debounce and the knuckle's position is published. Photos and the camera flag never change |
| HandController.StartSatisfiesInv | HandController.tsx:10-11 | the controller's initial refs (last label NONE, counter 0) and the initial store satisfy the invariant |
| HandController.ApplyConfirmedKeepsFocusConsistent | HandController.tsx:69-79 | the state machine keeps "a photo is focused exactly in FOCUS mode, and it is a stored photo" |
| HandController.StepKeepsInv | HandController.tsx:55-96 | a detection frame keeps the focus invariant and a counter of at most 5 |
| HandController.NoHandKeepsDebounceState | HandController.tsx:94-96 | a frame without a hand publishes NONE and leaves the last confirmed label, the counter, the mode, the focus and the hand untouched |
| HandController.FeedBelowThreshold | HandController.tsx:62-64 | up to five frames that all differ from the last confirmed label only raise the counter; nothing is confirmed |
| HandController.ConfirmOnSixthDifferingFrame | HandController.tsx:62-81 | from a reset counter, six consecutive differing frames confirm exactly the sixth frame's label and reset the counter |
| HandController.DisagreeingFramesConfirmLastLabel | HandController.tsx:62-66 | five FIST frames and then one PINCH frame confirm PINCH: the six frames need not agree |
| HandController.OpenPinchFistScenario | HandController.tsx:62-81 | with one photo, six open palms scatter the tree, six pinches focus that photo, and six fists return to the tree with no focus |
| HandController.ApplyKeepsInv | HandController.tsx:55-96 | a detection frame or an upload keeps the controller invariant |
| HandController.Run | HandController.tsx:55-96 | along any history of frames and uploads, the controller invariant is kept |
| HandController.ReachableFocusConsistent | HandController.tsx:69-79 | in every state reachable from the start, a photo is focused exactly in FOCUS mode, and it is one of the uploaded photos |
| Easing.Lerp | SceneContent.tsx:64 | no contract of its own: the unclamped step `a + (b - a) t` that the lemmas below are about |
| Easing.LerpVec | SceneContent.tsx:152 | each coordinate of a point's step is the scalar step of that coordinate |
| Easing.LerpEndpoints | SceneContent.tsx:64 | rate 0 stays at the start and rate 1 lands on the target |
| Easing.LerpBetween | SceneContent.tsx:64 | for a rate in [0, 1], the step lies between start and target, and the gap is multiplied by exactly (1 - t) |
| Easing.LerpOvershoots | SceneContent.tsx:64 | a rate above 1 carries the value past its target |
| Easing.LerpFixedPoint | SceneContent.tsx:64 | a value at its target does not move |
| Easing.LerpVecBetween | SceneContent.tsx:152 | for a rate in [0, 1], a point's step stays in the box spanned by start and target, and its squared distance to the target is multiplied by (1 - t)^2 |
| Easing.LerpVecGap | SceneContent.tsx:152 | for any rate, the remaining gap vector is the old gap scaled by (1 - t) |
| Easing.LerpVecGapOf | SceneContent.tsx:152 | a point reached by one step at rate t is (1 - t)^2 times as far from the target, in squared distance, as its start |
| Easing.LerpVecTowardOrigin | SceneContent.tsx:159-163 | easing toward zero multiplies the squared length by (1 - t)^2 |
| Easing.LerpVecFixedPoint | SceneContent.tsx:152 | a point at its target does not move |
| Easing.EaseNBetween | SceneContent.tsx:64 | repeated steps with a rate in [0, 1] never leave the segment from the start to the target |
| Easing.EaseNConverges | SceneContent.tsx:64 | after n steps at rate t in [0, 1], the gap times (1 + n t) is at most the initial gap |
| Layout.ConeRadius | SceneContent.tsx:26 | the radius is R + offset at the base and exactly offset at the top |
| Layout.TreePoint | SceneContent.tsx:22-29 | the point's height above the base, `y + H/2`, is the drawn height `uH * H` |
| Layout.ScatterPoint | SceneContent.tsx:31-38 | no contract of its own: the spherical-coordinate point that `Layout.ScatterPointOnSphere` is about |
| Layout.TreeHeightBounds | SceneContent.tsx:23-24 | a height draw in [0, 1) puts the tree point's height `h - H/2` in [-H/2, H/2) |
| Layout.ConeRadiusBounds | SceneContent.tsx:26 | on heights in [0, H), the cone radius lies in (offset, R + offset] |
| Layout.ConeRadiusNonIncreasing | UI.tsx:20 | a higher point never has a larger cone radius |
| Layout.TreePointOnCone | SceneContent.tsx:26-29 | the tree point is at horizontal distance r from the vertical axis |
| Layout.TreePointInTree | UI.tsx:18-21 | a photo's or particle's tree point (particles use offset 0.2, photos 0.5) has y in [-H/2, H/2), radius in (offset, R + offset], and horizontal distance exactly that radius |
| Layout.ScatterRadiusBounds | UI.tsx:23 | the scatter radius lies in [0, S) |
| Layout.ScatterPointOnSphere | SceneContent.tsx:32-38 | the scatter point is at distance sr from the origin |
| SceneContent.MakeParticle | SceneContent.tsx:22-50 | a particle's positions are the cone point with offset 0.2 and the scatter point; its colour is in the four-colour palette, its scale in [0.1, 0.3), and its spin speed in [0, 0.02) |
| SceneContent.GenerateParticles | SceneContent.tsx:18-53 | one particle per set of draws, in draw order |
| SceneContent.ParticleInScatterBall | SceneContent.tsx:31-38 | every particle's scatter point is strictly inside the scatter ball |
| SceneContent.TargetExpansion | SceneContent.tsx:62 | the target is 0 exactly in TREE and 1 exactly in SCATTER and FOCUS |
| SceneContent.StepExpansion | SceneContent.tsx:62-64 | an expansion already at its mode's target does not move |
| SceneContent.ExpansionStep | SceneContent.tsx:62-64 | with 2 delta in [0, 1], expansion stays in [0, 1], moves toward its target without passing it, shrinks its gap by (1 - 2 delta), decreases in TREE and increases otherwise |
| SceneContent.ExpansionOvershootsOnLongFrame | SceneContent.tsx:64 | when 2 delta > 1, a partly expanded field overshoots full expansion |
| SceneContent.ExpansionAfter | SceneContent.tsx:64 | n frames of equal length are n single frame steps in turn |
| SceneContent.ExpansionSettles | SceneContent.tsx:62-64 | once n * 2 delta >= 1000, expansion is within 0.001 of its target and has stayed in [0, 1] |
| SceneContent.RotateGroup | SceneContent.tsx:67-74 | in SCATTER the spin grows by delta (0.1 + hand.x) and the tilt eases toward hand.y / 2. Otherwise the spin grows by 0.1 delta and the tilt eases toward 0 |
| SceneContent.RotationIgnoresHandOutsideScatter | SceneContent.tsx:70-74 | outside SCATTER the hand has no effect on the rotation |
| SceneContent.TiltStaysBounded | SceneContent.tsx:69-73 | with delta in [0, 1] and hand.y in [-1, 1], a tilt in [-0.5, 0.5] stays there, moving toward its target |
| SceneContent.FrameParticles | SceneContent.tsx:58-101 | one frame advances expansion and rotation once. Then every particle, in order, gets its position at the new expansion with its own clock reading `times[i]`, its own scale, and a boost flag |
| SceneContent.CollapsedFieldIgnoresClock | SceneContent.tsx:62-98 | a field collapsed in TREE stays collapsed, and every particle sits exactly at its tree position, unboosted, whatever the clock reads for each particle |
| SceneContent.FloatOffsetBounded | SceneContent.tsx:82-84 | the breathing offset is at most 0.1 times the expansion in size, so it is zero when collapsed |
| SceneContent.ParticlePosition | SceneContent.tsx:79-84 | at expansion 0 the particle sits exactly at its tree position, whatever the clock reads |
| SceneContent.ParticlePositionEndpoints | SceneContent.tsx:79-84 | at expansion 0 a particle is exactly at its tree position. At 1 it is at its scatter position, plus the vertical breathing offset |
| SceneContent.ParticlePositionBetween | SceneContent.tsx:79-84 | for expansion in [0, 1], x and z lie between the two layouts, and y is within 0.1 e of the interpolated height |
| SceneContent.NoBoostWhileCollapsing | SceneContent.tsx:96 | collapsing from at most half expansion, no particle is boosted |
| SceneContent.BoostedIff | SceneContent.tsx:96-98 | a particle is boosted exactly when expansion exceeds 0.5 and its colour is GOLD or RED_BRIGHT |
| SceneContent.MountPhoto | SceneContent.tsx:167 | a photo starts at its tree position with expansion 0, unit scale and zero rotation |
| SceneContent.FramePhoto | SceneContent.tsx:128-164 | the photo's expansion takes one easing step toward 0 in TREE and 1 otherwise. The focused photo in FOCUS eases toward (0, 0, 4) and scale (2.5, 2.5, 1) at rate 3 delta, and its rotation eases toward zero at rate 5 delta. Every other photo eases toward the point of its tree-to-scatter segment at the new expansion and toward unit scale at rate 3 delta, and it takes the `lookAt` facing |
| SceneContent.FocusedPhotoApproaches | SceneContent.tsx:138-152 | the focused photo in FOCUS moves toward (0, 0, 4) without passing it, and its squared distance shrinks by (1 - 3 delta)^2 |
| SceneContent.FocusedPhotoGrows | SceneContent.tsx:155-156 | the focused photo's scale moves toward (2.5, 2.5, 1) without passing it |
| SceneContent.FocusedPhotoStraightens | SceneContent.tsx:159-163 | the focused photo's rotation decays toward zero, its squared size scaled by (1 - 5 delta)^2 |
| SceneContent.UnfocusedPhotoFrame | SceneContent.tsx:142-156 | every other photo faces the origin and targets unit scale. Its target lies between its tree and scatter positions, and its squared distance to the target shrinks by (1 - 3 delta)^2 |
| SceneContent.MountedPhotoRestsInTree | SceneContent.tsx:126-156 | in TREE mode a freshly mounted photo keeps its tree position, its unit scale and its zero expansion. Its orientation becomes the facing `lookAt` gives, whatever that is |
| SceneContent.AtMostOneFocused | SceneContent.tsx:185-190 | with distinct ids, at most one photo matches the focused id |
| Upload.MakePhoto | UI.tsx:14-33 | a photo carries the file's id and URL and aspect ratio 1. Its tree point uses the apex offset 0.5, and its scatter point comes from the file's draws |
| Upload.NewPhotos | UI.tsx:14-34 | exactly one photo per selected file, in file order |
| Upload.PhotoInScatterBall | UI.tsx:23-32 | an uploaded photo's scatter point lies strictly inside the scatter ball |
| Upload.HandleFileUpload | UI.tsx:11-37 | without a file list the state is unchanged. With one, the old photos stay as a prefix and exactly one photo is added per file |
| Upload.HandleFileUploadAppends | UI.tsx:12-35 | after an upload, the old photos are unchanged and followed by one photo per file, carrying that file's id and URL. Without a file list nothing changes. Mode and focus are untouched |
| Upload.EmptyUploadIsNoOp | UI.tsx:12-35 | an empty selection leaves the state unchanged |
| Upload.HandleFileUploadKeepsFocusConsistent | UI.tsx:35 | an upload keeps the focus invariant |
| Camera.CameraTarget | Experience.tsx:14 | the target is on the z axis: (0, 0, 8) in FOCUS, and the start position (0, 0, 20) otherwise |
| Camera.CameraStep | Experience.tsx:13-15 | a camera on the z axis stays on it, and a camera at its mode's target does not move |
| Camera.CameraStepApproaches | Experience.tsx:15 | with 1.5 delta in [0, 1], the camera moves toward its target without passing it, and its squared distance shrinks by (1 - 1.5 delta)^2 |
| Camera.CameraStaysOnAxis | Experience.tsx:14-15 | a camera on the z axis stays on it |
| Camera.CameraAtTargetStays | Experience.tsx:14-15 | a camera at its target does not move. Outside FOCUS, the camera at its start position stays there |
| Camera.CameraZoomsIn | Experience.tsx:14-15 | entering FOCUS from the start, one frame puts the camera between z = 8 and z = 20, strictly closer once time has passed |

## Left out

- Webcam access, loading the landmark model, the `requestAnimationFrame` loop and cleanup. These are I/O and foreign calls. A detection result enters the model as `Option<seq<Vec3>>`: no hand, or the first hand's 21 landmarks. Further hands are ignored, as in the code.
- The timing between the detection loop and the render loop, and the `mode` and `photos` values the detection effect captures when it starts (`HandController.tsx:112`). The model reads the current store on every frame.
- All rendering: meshes, materials, lights, post-processing, the UI markup and icons.
- `uuidv4` and `URL.createObjectURL`. Each selected file carries its id and URL as inputs. `SceneContent.AtMostOneFocused` assumes distinct ids, which uuids are meant to give.
- `Object3D.lookAt`. The orientation it gives an unfocused photo is the parameter `facing`, so no lemma says what that orientation is. The camera's `lookAt(0, 0, 0)` is not modelled.
- `state.clock.getElapsedTime()`. The reading taken for each particle is an input, `times[i]` in `SceneContent.FrameParticles`. Nothing relates the readings to each other or to `delta`.
- The per-particle `tempObject` rotation accumulation and the instanced-buffer updates. They are cosmetic and write no state the model reads.
- The local `scale = 2` in the focused branch of `SinglePhoto`. It is never read; the target scale comes from the later 2.5 test.
- The statistical distribution of the random draws, for example that the cube root makes the scatter cloud uniform in volume. Only the deterministic formulas are modelled.
- IEEE-754 rounding. All arithmetic is on mathematical reals.
- The values of `TREE_HEIGHT`, `TREE_RADIUS`, `SCATTER_RADIUS`, `PARTICLE_COUNT` and the colour strings. `constants.ts` is not part of this model; the dimensions are the `Dims` parameter, and the colours are a four-valued enum.
- The true values of `sin`, `cos`, `cbrt` and `acos`. The model uses only the facts listed in `Layout.Lawful`.
- SceneContent.FocusedPhotoGrows: states only that the scale stays between start and target, not its contraction factor. The factor is the same (1 - 3 delta)^2 stated for the position.
