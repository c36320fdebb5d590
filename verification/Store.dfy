/** The application store (store.ts): one record of shared state with a
    setter per field. Every setter replaces its own field and nothing else;
    photos are only ever appended. */
module Store {
  import opened Types

  datatype AppState = AppState(
    mode: AppMode,
    gesture: GestureType,
    hand: Hand2,
    photos: seq<PhotoData>,
    focusedPhotoId: Option<PhotoId>,
    cameraReady: bool)

  /** The store as created: clustered tree, no gesture, centred hand, no
      photos, nothing focused, camera not ready. */
  const Initial: AppState := AppState(TREE, NONE, Hand2(0.0, 0.0), [], None, false)

  /** Some photo in `photos` carries `id`. */
  predicate HasPhoto(photos: seq<PhotoData>, id: PhotoId)
  {
    exists i :: 0 <= i < |photos| && photos[i].id == id
  }

  /** The focus invariant: a photo is focused exactly in FOCUS mode, and the
      focused id names a photo of the store. */
  predicate FocusConsistent(s: AppState)
  {
    && (s.focusedPhotoId.Some? <==> s.mode == FOCUS)
    && (s.focusedPhotoId.Some? ==> HasPhoto(s.photos, s.focusedPhotoId.value))
  }

  function SetMode(s: AppState, mode: AppMode): (r: AppState)
    ensures r.mode == mode
    ensures r.gesture == s.gesture && r.hand == s.hand && r.photos == s.photos
    ensures r.focusedPhotoId == s.focusedPhotoId && r.cameraReady == s.cameraReady
  {
    s.(mode := mode)
  }

  function SetGesture(s: AppState, gesture: GestureType): (r: AppState)
    ensures r.gesture == gesture
    ensures r.mode == s.mode && r.hand == s.hand && r.photos == s.photos
    ensures r.focusedPhotoId == s.focusedPhotoId && r.cameraReady == s.cameraReady
  {
    s.(gesture := gesture)
  }

  function SetHandPosition(s: AppState, hand: Hand2): (r: AppState)
    ensures r.hand == hand
    ensures r.mode == s.mode && r.gesture == s.gesture && r.photos == s.photos
    ensures r.focusedPhotoId == s.focusedPhotoId && r.cameraReady == s.cameraReady
  {
    s.(hand := hand)
  }

  function SetFocusedPhotoId(s: AppState, id: Option<PhotoId>): (r: AppState)
    ensures r.focusedPhotoId == id
    ensures r.mode == s.mode && r.gesture == s.gesture && r.hand == s.hand
    ensures r.photos == s.photos && r.cameraReady == s.cameraReady
  {
    s.(focusedPhotoId := id)
  }

  function SetCameraReady(s: AppState, ready: bool): (r: AppState)
    ensures r.cameraReady == ready
    ensures r.mode == s.mode && r.gesture == s.gesture && r.hand == s.hand
    ensures r.photos == s.photos && r.focusedPhotoId == s.focusedPhotoId
  {
    s.(cameraReady := ready)
  }

  /** Appends the new photos after the existing ones. */
  function AddPhotos(s: AppState, newPhotos: seq<PhotoData>): (r: AppState)
    ensures |r.photos| == |s.photos| + |newPhotos|
    ensures r.photos[..|s.photos|] == s.photos
    ensures r.photos[|s.photos|..] == newPhotos
    ensures r.mode == s.mode && r.gesture == s.gesture && r.hand == s.hand
    ensures r.focusedPhotoId == s.focusedPhotoId && r.cameraReady == s.cameraReady
  {
    s.(photos := s.photos + newPhotos)
  }

  /** The initial store satisfies the focus invariant. */
  lemma InitialIsConsistent()
    ensures FocusConsistent(Initial)
    ensures Initial.mode == TREE && Initial.gesture == NONE && Initial.hand == Hand2(0.0, 0.0)
    ensures Initial.photos == [] && Initial.focusedPhotoId == None && !Initial.cameraReady
  {
  }

  /** Setting a field twice is the same as setting it once. */
  lemma SettersIdempotent(s: AppState, mode: AppMode, gesture: GestureType, id: Option<PhotoId>)
    ensures SetMode(SetMode(s, mode), mode) == SetMode(s, mode)
    ensures SetGesture(SetGesture(s, gesture), gesture) == SetGesture(s, gesture)
    ensures SetFocusedPhotoId(SetFocusedPhotoId(s, id), id) == SetFocusedPhotoId(s, id)
  {
  }

  /** Setting a field to the value it already holds leaves the store as it was. */
  lemma SettersKeepCurrentValue(s: AppState)
    ensures SetMode(s, s.mode) == s
    ensures SetGesture(s, s.gesture) == s
    ensures SetHandPosition(s, s.hand) == s
    ensures SetFocusedPhotoId(s, s.focusedPhotoId) == s
    ensures SetCameraReady(s, s.cameraReady) == s
  {
  }

  /** Two uploads in turn equal one upload of both batches. */
  lemma AddPhotosAssociative(s: AppState, a: seq<PhotoData>, b: seq<PhotoData>)
    ensures AddPhotos(AddPhotos(s, a), b) == AddPhotos(s, a + b)
  {
    assert s.photos + a + b == s.photos + (a + b);
  }

  /** No photo is ever removed: every id present stays present. */
  lemma AddPhotosKeepsPhotos(s: AppState, newPhotos: seq<PhotoData>, id: PhotoId)
    requires HasPhoto(s.photos, id)
    ensures HasPhoto(AddPhotos(s, newPhotos).photos, id)
  {
    var i :| 0 <= i < |s.photos| && s.photos[i].id == id;
    assert AddPhotos(s, newPhotos).photos[i] == s.photos[i];
  }

  /** Uploading photos preserves the focus invariant. */
  lemma AddPhotosKeepsFocusConsistent(s: AppState, newPhotos: seq<PhotoData>)
    requires FocusConsistent(s)
    ensures FocusConsistent(AddPhotos(s, newPhotos))
  {
    if s.focusedPhotoId.Some? {
      AddPhotosKeepsPhotos(s, newPhotos, s.focusedPhotoId.value);
    }
  }
}
