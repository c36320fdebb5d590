/** Photo upload (UI.tsx): every selected file becomes a photo with a fresh
    id, an object URL, aspect ratio 1 and two random layout positions, and the
    batch is appended to the store.

    The uuid and the object URL are produced outside the model and arrive as
    part of each selected file; the five `Math.random()` draws per file are
    parameters in [0, 1). */
module Upload {
  import opened Types
  import opened Store
  import opened Layout
  import RealArith

  /** The draws for one photo, in the order the code takes them. */
  datatype PhotoDraws = PhotoDraws(h: real, theta: real, radius: real, sTheta: real, sPhi: real)

  predicate ValidPhotoDraws(w: PhotoDraws)
  {
    IsUnitDraw(w.h) && IsUnitDraw(w.theta) && IsUnitDraw(w.radius) && IsUnitDraw(w.sTheta) && IsUnitDraw(w.sPhi)
  }

  /** A selected file with the id and URL the browser hands out for it. */
  datatype SelectedFile = SelectedFile(id: PhotoId, url: string, draws: PhotoDraws)

  /** The photo record built for one file: the tree point uses the apex
      offset 0.5, and the aspect ratio is fixed at 1. */
  function MakePhoto(t: Trig, d: Dims, f: SelectedFile): (p: PhotoData)
    requires ValidDims(d)
    ensures p.id == f.id && p.url == f.url && p.aspectRatio == 1.0
    ensures p.treePos == TreePoint(t, d, f.draws.h, f.draws.theta, PhotoApexOffset)
    ensures p.scatterPos == ScatterPoint(t, d, f.draws.radius, f.draws.sTheta, f.draws.sPhi)
  {
    var w := f.draws;
    PhotoData(
      f.id,
      f.url,
      1.0,
      TreePoint(t, d, w.h, w.theta, PhotoApexOffset),
      ScatterPoint(t, d, w.radius, w.sTheta, w.sPhi))
  }

  /** `files.map(...)`: one photo per file, in file order. */
  function NewPhotos(t: Trig, d: Dims, files: seq<SelectedFile>): (r: seq<PhotoData>)
    requires ValidDims(d)
    ensures |r| == |files|
    ensures forall i :: 0 <= i < |files| ==> r[i] == MakePhoto(t, d, files[i])
  {
    if files == [] then [] else NewPhotos(t, d, files[..|files| - 1]) + [MakePhoto(t, d, files[|files| - 1])]
  }

  /** The change handler: no file list leaves the store as it is; otherwise
      the new photos are appended (an empty list appends nothing). */
  function HandleFileUpload(s: AppState, t: Trig, d: Dims, files: Option<seq<SelectedFile>>): (r: AppState)
    requires ValidDims(d)
    ensures files.None? ==> r == s
    ensures files.Some? ==> |r.photos| == |s.photos| + |files.value| && r.photos[..|s.photos|] == s.photos
  {
    match files
    case None => s
    case Some(fs) => AddPhotos(s, NewPhotos(t, d, fs))
  }

  /** Every uploaded photo's scatter point is strictly inside the scatter ball. */
  lemma PhotoInScatterBall(t: Trig, d: Dims, f: SelectedFile)
    requires ValidDims(d) && Lawful(t) && ValidPhotoDraws(f.draws)
    ensures NormSq(MakePhoto(t, d, f).scatterPos) < d.scatterRadius * d.scatterRadius
  {
    var w := f.draws;
    var sr := ScatterRadius(t, d, w.radius);
    ScatterPointOnSphere(t, d, w.radius, w.sTheta, w.sPhi);
    assert sr * sr < d.scatterRadius * d.scatterRadius by {
      ScatterRadiusBounds(t, d, w.radius);
      RealArith.SquareStrictlyMonotone(sr, d.scatterRadius);
    }
  }

  /** The store after an upload is the store before, with one photo per
      file appended in order carrying that file's id and URL; without a file
      list nothing changes. */
  lemma HandleFileUploadAppends(s: AppState, t: Trig, d: Dims, files: Option<seq<SelectedFile>>)
    requires ValidDims(d)
    ensures var r := HandleFileUpload(s, t, d, files);
            var n := if files.Some? then |files.value| else 0;
            && |r.photos| == |s.photos| + n
            && r.photos[..|s.photos|] == s.photos
            && (forall i :: 0 <= i < n ==>
                  r.photos[|s.photos| + i].id == files.value[i].id && r.photos[|s.photos| + i].url == files.value[i].url)
            && r.mode == s.mode && r.focusedPhotoId == s.focusedPhotoId
  {
    if files.Some? {
      var r := HandleFileUpload(s, t, d, files);
      var added := NewPhotos(t, d, files.value);
      assert r.photos == s.photos + added;
      forall i | 0 <= i < |files.value|
        ensures r.photos[|s.photos| + i].id == files.value[i].id
        ensures r.photos[|s.photos| + i].url == files.value[i].url
      {
        assert r.photos[|s.photos| + i] == added[i] == MakePhoto(t, d, files.value[i]);
      }
    }
  }

  /** Uploading an empty selection leaves the store unchanged. */
  lemma EmptyUploadIsNoOp(s: AppState, t: Trig, d: Dims)
    requires ValidDims(d)
    ensures HandleFileUpload(s, t, d, Some([])) == s
  {
    assert s.photos + [] == s.photos;
  }

  /** Uploading keeps the focus invariant. */
  lemma HandleFileUploadKeepsFocusConsistent(s: AppState, t: Trig, d: Dims, files: Option<seq<SelectedFile>>)
    requires ValidDims(d) && FocusConsistent(s)
    ensures FocusConsistent(HandleFileUpload(s, t, d, files))
  {
    if files.Some? {
      AddPhotosKeepsFocusConsistent(s, NewPhotos(t, d, files.value));
    }
  }
}
