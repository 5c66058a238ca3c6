/**
  The planar geometry of create_angles: two vectors leaving the vertex keypoint,
  and the unsigned angle between them as |atan2(det, dot)|. The two-argument
  arctangent is a floating-point library call and is taken as a parameter.
*/
module Geometry {

  /** A 2D point or vector in image coordinates. */
  datatype Vec = Vec(x: real, y: real)

  /** Element-wise `np.array(p) - np.array(q)`. */
  function Sub(p: Vec, q: Vec): Vec
  {
    Vec(p.x - q.x, p.y - q.y)
  }

  function Add(p: Vec, t: Vec): Vec
  {
    Vec(p.x + t.x, p.y + t.y)
  }

  function Scale(k: real, v: Vec): Vec
  {
    Vec(k * v.x, k * v.y)
  }

  /** `np.linalg.det([u, v])`: the determinant of the 2x2 matrix whose rows are u and v. */
  function Det(u: Vec, v: Vec): real
  {
    u.x * v.y - u.y * v.x
  }

  /** `np.dot(u, v)` */
  function Dot(u: Vec, v: Vec): real
  {
    u.x * v.x + u.y * v.y
  }

  function Abs(r: real): (a: real)
    ensures a >= 0.0 && (a == r || a == -r)
  {
    if r < 0.0 then -r else r
  }

  /**
    The magnitude of atan2 ignores the sign of its first argument:
    |atan2(-y, x)| == |atan2(y, x)|. The real atan2 meets this everywhere,
    including y == 0 with x < 0, where both sides are pi.
  */
  ghost predicate AbsEvenInFirst(atan2: (real, real) -> real)
  {
    forall y, z, x :: y + z == 0.0 ==> Abs(atan2(z, x)) == Abs(atan2(y, x))
  }

  /** The hypothesis leaves room for a straight angle: some atan2 meeting it gives a non-zero atan2(0, -1). */
  lemma AbsEvenInFirstAllowsStraightAngle()
    ensures exists atan2: (real, real) -> real :: AbsEvenInFirst(atan2) && atan2(0.0, -1.0) != 0.0
  {
    var f := (y: real, x: real) => if y == 0.0 && x < 0.0 then 3.0 else 0.0;
    assert f(0.0, -1.0) == 3.0;
    assert AbsEvenInFirst(f);
  }

  /** `np.abs(atan2(det([u, v]), dot(u, v)))`: the unsigned angle between u and v. */
  function Angle(u: Vec, v: Vec, atan2: (real, real) -> real): (a: real)
    ensures a >= 0.0
  {
    Abs(atan2(Det(u, v), Dot(u, v)))
  }

  /** The angle at vertex p1 between the rays to p0 and p2: `vec1 = p0 - p1`, `vec2 = p2 - p1`. */
  function AngleAtVertex(p0: Vec, p1: Vec, p2: Vec, atan2: (real, real) -> real): real
  {
    Angle(Sub(p0, p1), Sub(p2, p1), atan2)
  }

  /** Swapping the vectors negates the determinant and keeps the dot product. */
  lemma SwapDetDot(u: Vec, v: Vec)
    ensures Det(v, u) == -Det(u, v) && Dot(v, u) == Dot(u, v)
  {
  }

  /** When |atan2| ignores the sign of its first argument, the unsigned angle does not depend on which vector comes first. */
  lemma AngleSwap(u: Vec, v: Vec, atan2: (real, real) -> real)
    requires AbsEvenInFirst(atan2)
    ensures Angle(v, u, atan2) == Angle(u, v, atan2)
  {
    SwapDetDot(u, v);
    assert Det(u, v) + Det(v, u) == 0.0;
  }

  /** The two outer keypoints of a triplet can be exchanged. */
  lemma AngleEndsSwap(p0: Vec, p1: Vec, p2: Vec, atan2: (real, real) -> real)
    requires AbsEvenInFirst(atan2)
    ensures AngleAtVertex(p2, p1, p0, atan2) == AngleAtVertex(p0, p1, p2, atan2)
  {
    AngleSwap(Sub(p0, p1), Sub(p2, p1), atan2);
  }

  /** Only positions relative to the vertex matter: moving all three keypoints by t keeps the angle. */
  lemma AngleTranslation(p0: Vec, p1: Vec, p2: Vec, t: Vec, atan2: (real, real) -> real)
    ensures AngleAtVertex(Add(p0, t), Add(p1, t), Add(p2, t), atan2) == AngleAtVertex(p0, p1, p2, atan2)
  {
    assert Sub(Add(p0, t), Add(p1, t)) == Sub(p0, p1);
    assert Sub(Add(p2, t), Add(p1, t)) == Sub(p2, p1);
  }

  /**
    Scaling either vector by k scales both atan2 arguments by k, so the angle
    depends on the magnitudes only through atan2(k * y, k * x).
  */
  lemma ScaleArguments(u: Vec, v: Vec, k: real)
    ensures Det(Scale(k, u), v) == k * Det(u, v) && Dot(Scale(k, u), v) == k * Dot(u, v)
    ensures Det(u, Scale(k, v)) == k * Det(u, v) && Dot(u, Scale(k, v)) == k * Dot(u, v)
  {
    assert Det(Scale(k, u), v) == (k * u.x) * v.y - (k * u.y) * v.x;
    assert Det(u, Scale(k, v)) == u.x * (k * v.y) - u.y * (k * v.x);
  }

  /** The ray from a vertex p1 to the point p1 + d is d. */
  lemma RayFrom(p1: Vec, d: Vec)
    ensures Sub(Add(p1, d), p1) == d
  {
  }

  /**
    Right angle: with upper_chest one unit above the nose and right_wrist one
    unit to its right, wherever the nose is, the angle is |atan2(-1, 0)|, that is pi/2.
  */
  lemma RightAngleExample(p1: Vec, atan2: (real, real) -> real)
    ensures AngleAtVertex(Add(p1, Vec(0.0, 1.0)), p1, Add(p1, Vec(1.0, 0.0)), atan2) == Abs(atan2(-1.0, 0.0))
  {
    RayFrom(p1, Vec(0.0, 1.0));
    RayFrom(p1, Vec(1.0, 0.0));
    assert Angle(Vec(0.0, 1.0), Vec(1.0, 0.0), atan2) == Abs(atan2(-1.0, 0.0));
  }

  /** Straight angle: a vertex between two opposite points gives |atan2(0, -1)|, that is pi. */
  lemma StraightAngleExample(p1: Vec, atan2: (real, real) -> real)
    ensures AngleAtVertex(Add(p1, Vec(1.0, 0.0)), p1, Add(p1, Vec(-1.0, 0.0)), atan2) == Abs(atan2(0.0, -1.0))
  {
    RayFrom(p1, Vec(1.0, 0.0));
    RayFrom(p1, Vec(-1.0, 0.0));
    assert Angle(Vec(1.0, 0.0), Vec(-1.0, 0.0), atan2) == Abs(atan2(0.0, -1.0));
  }
}
