/** The shared vocabulary of the display: display modes, gesture labels,
    points in space and the photo record (types.ts). */
module Types {
  import RealArith

  /** The three display modes; TREE is the clustered cone, SCATTER the
      dispersed sphere, FOCUS one photo pulled in front of the camera. */
  datatype AppMode = TREE | SCATTER | FOCUS

  /** Gesture labels. POINT belongs to the type but no classifier produces it. */
  datatype GestureType = NONE | FIST | OPEN_PALM | PINCH | POINT

  /** A point or vector in 3D; also a normalized hand landmark. */
  datatype Vec3 = Vec3(x: real, y: real, z: real)

  /** The normalized hand position published to the scene, each axis nominally in [-1, 1]. */
  datatype Hand2 = Hand2(x: real, y: real)

  datatype Option<+T> = None | Some(value: T)

  type PhotoId = string

  /** A user photo with its two precomputed layout positions. */
  datatype PhotoData = PhotoData(
    id: PhotoId,
    url: string,
    aspectRatio: real,
    treePos: Vec3,
    scatterPos: Vec3)

  /** A value `Math.random()` can return. */
  predicate IsUnitDraw(u: real)
  {
    0.0 <= u < 1.0
  }

  /** `Math.floor(u * n)`: an index drawn from `n` choices. */
  function PickIndex(u: real, n: nat): (k: nat)
    requires IsUnitDraw(u) && n > 0
    ensures k < n
    ensures k as real <= u * n as real < k as real + 1.0
  {
    var x := u * n as real;
    assert 0.0 <= x < n as real by {
      RealArith.MulNonNegative(u, n as real);
      RealArith.MulRightStrictlyBelow(u, n as real);
    }
    x.Floor
  }

  const Origin: Vec3 := Vec3(0.0, 0.0, 0.0)

  function Sub(a: Vec3, b: Vec3): Vec3
  {
    Vec3(a.x - b.x, a.y - b.y, a.z - b.z)
  }

  /** Squared Euclidean length. */
  function NormSq(v: Vec3): real
  {
    v.x * v.x + v.y * v.y + v.z * v.z
  }

  /** Squared Euclidean distance; the classifier compares these in place of square roots. */
  function SqDist(a: Vec3, b: Vec3): real
  {
    NormSq(Sub(a, b))
  }

  /** The squared distance to the origin is the squared length. */
  lemma SqDistToOrigin(v: Vec3)
    ensures SqDist(v, Origin) == NormSq(v)
  {
    assert Sub(v, Origin) == v;
  }
}
