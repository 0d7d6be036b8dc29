/**
  The camera geometry of the COLMAP drawing script, over exact reals: the
  rotation matrix of a unit quaternion, the camera centre and the 4x4
  camera-to-world pose, the choice of focal lengths and principal point by
  camera-model family, and the calibration matrix K and its scaled copy.
 */
module CameraGeometry {
  import opened Wrappers

  datatype Vec3 = Vec3(x: real, y: real, z: real)

  /** A 3x3 matrix given by its rows. */
  datatype Mat3 = Mat3(r0: Vec3, r1: Vec3, r2: Vec3)

  /** A COLMAP qvec (w, x, y, z): qvec[0] is the scalar part. */
  datatype Quat = Quat(w: real, x: real, y: real, z: real)

  // ---------------------------------------------------------------------
  // Vectors and matrices
  // ---------------------------------------------------------------------

  /**
    A product of two reals. Dot products and matrix rows are written with it
    so that each is a sum of three named products: the rotation lemmas below
    state their polynomial identities in exactly these terms, and the solver
    then matches a dot product of two rotation rows against the identity
    term by term instead of multiplying the polynomials out again.
   */
  function Mul(a: real, b: real): real {
    a * b
  }

  function Dot(a: Vec3, b: Vec3): real {
    Mul(a.x, b.x) + Mul(a.y, b.y) + Mul(a.z, b.z)
  }

  function Add(a: Vec3, b: Vec3): Vec3 {
    Vec3(a.x + b.x, a.y + b.y, a.z + b.z)
  }

  function Neg(a: Vec3): Vec3 {
    Vec3(-a.x, -a.y, -a.z)
  }

  const ORIGIN: Vec3 := Vec3(0.0, 0.0, 0.0)

  function Component(v: Vec3, j: nat): real
    requires j < 3
  {
    if j == 0 then v.x else if j == 1 then v.y else v.z
  }

  function Row(m: Mat3, i: nat): Vec3
    requires i < 3
  {
    if i == 0 then m.r0 else if i == 1 then m.r1 else m.r2
  }

  /** The entry m[i][j]. */
  function At(m: Mat3, i: nat, j: nat): real
    requires i < 3 && j < 3
  {
    Component(Row(m, i), j)
  }

  function Column(m: Mat3, j: nat): Vec3
    requires j < 3
  {
    Vec3(At(m, 0, j), At(m, 1, j), At(m, 2, j))
  }

  function Transpose(m: Mat3): (t: Mat3)
    ensures forall i, j | 0 <= i < 3 && 0 <= j < 3 :: At(t, i, j) == At(m, j, i)
  {
    Mat3(Column(m, 0), Column(m, 1), Column(m, 2))
  }

  /** m @ v */
  function MatVec(m: Mat3, v: Vec3): Vec3 {
    Vec3(Dot(m.r0, v), Dot(m.r1, v), Dot(m.r2, v))
  }

  /** a @ b */
  function MatMul(a: Mat3, b: Mat3): Mat3 {
    var c0, c1, c2 := Column(b, 0), Column(b, 1), Column(b, 2);
    Mat3(Vec3(Dot(a.r0, c0), Dot(a.r0, c1), Dot(a.r0, c2)),
         Vec3(Dot(a.r1, c0), Dot(a.r1, c1), Dot(a.r1, c2)),
         Vec3(Dot(a.r2, c0), Dot(a.r2, c1), Dot(a.r2, c2)))
  }

  const IDENTITY: Mat3 := Mat3(Vec3(1.0, 0.0, 0.0), Vec3(0.0, 1.0, 0.0), Vec3(0.0, 0.0, 1.0))

  /** A matrix acts on a sum as on each summand. */
  lemma MatVecAdd(m: Mat3, a: Vec3, b: Vec3)
    ensures MatVec(m, Add(a, b)) == Add(MatVec(m, a), MatVec(m, b))
  {
  }

  /** (r @ B) . v == r . (B @ v) for a row r, written out on the twelve reals involved. */
  lemma ComposeScalars(r0: real, r1: real, r2: real,
                       b00: real, b01: real, b02: real,
                       b10: real, b11: real, b12: real,
                       b20: real, b21: real, b22: real,
                       v0: real, v1: real, v2: real)
    ensures Mul(Mul(r0, b00) + Mul(r1, b10) + Mul(r2, b20), v0)
          + Mul(Mul(r0, b01) + Mul(r1, b11) + Mul(r2, b21), v1)
          + Mul(Mul(r0, b02) + Mul(r1, b12) + Mul(r2, b22), v2)
         == Mul(r0, Mul(b00, v0) + Mul(b01, v1) + Mul(b02, v2))
          + Mul(r1, Mul(b10, v0) + Mul(b11, v1) + Mul(b12, v2))
          + Mul(r2, Mul(b20, v0) + Mul(b21, v1) + Mul(b22, v2))
  {
  }

  /** One row of a product applied to v: (row @ b) . v == row . (b @ v). */
  lemma DotCompose(row: Vec3, b: Mat3, v: Vec3)
    ensures Dot(Vec3(Dot(row, Column(b, 0)), Dot(row, Column(b, 1)), Dot(row, Column(b, 2))), v) == Dot(row, MatVec(b, v))
  {
    assert Column(b, 0) == Vec3(b.r0.x, b.r1.x, b.r2.x);
    assert Column(b, 1) == Vec3(b.r0.y, b.r1.y, b.r2.y);
    assert Column(b, 2) == Vec3(b.r0.z, b.r1.z, b.r2.z);
    ComposeScalars(row.x, row.y, row.z, b.r0.x, b.r0.y, b.r0.z, b.r1.x, b.r1.y, b.r1.z, b.r2.x, b.r2.y, b.r2.z, v.x, v.y, v.z);
  }

  /** Applying a product is applying its factors in turn. */
  lemma MatVecMul(a: Mat3, b: Mat3, v: Vec3)
    ensures MatVec(MatMul(a, b), v) == MatVec(a, MatVec(b, v))
  {
    DotCompose(a.r0, b, v);
    DotCompose(a.r1, b, v);
    DotCompose(a.r2, b, v);
  }

  lemma IdentityActs(v: Vec3)
    ensures MatVec(IDENTITY, v) == v
  {
  }

  lemma MatVecNeg(m: Mat3, v: Vec3)
    ensures MatVec(m, Neg(v)) == Neg(MatVec(m, v))
  {
  }

  /** When a @ b is the identity, applying b and then a gives every vector back. */
  lemma ProductCancels(a: Mat3, b: Mat3, v: Vec3)
    requires MatMul(a, b) == IDENTITY
    ensures MatVec(a, MatVec(b, v)) == v
  {
    MatVecMul(a, b, v);
    IdentityActs(v);
  }

  // ---------------------------------------------------------------------
  // qvec2rotmat
  // ---------------------------------------------------------------------

  function SquaredNorm(q: Quat): real {
    q.w * q.w + q.x * q.x + q.y * q.y + q.z * q.z
  }

  predicate IsUnit(q: Quat) {
    SquaredNorm(q) == 1.0
  }

  // The three rows of the rotation matrix, entry by entry as the script writes them.

  function RotationRow0(w: real, x: real, y: real, z: real): Vec3 {
    Vec3(1.0 - 2.0 * y * y - 2.0 * z * z, 2.0 * x * y - 2.0 * w * z, 2.0 * z * x + 2.0 * w * y)
  }

  function RotationRow1(w: real, x: real, y: real, z: real): Vec3 {
    Vec3(2.0 * x * y + 2.0 * w * z, 1.0 - 2.0 * x * x - 2.0 * z * z, 2.0 * y * z - 2.0 * w * x)
  }

  function RotationRow2(w: real, x: real, y: real, z: real): Vec3 {
    Vec3(2.0 * z * x - 2.0 * w * y, 2.0 * y * z + 2.0 * w * x, 1.0 - 2.0 * x * x - 2.0 * y * y)
  }

  /** qvec2rotmat: the rotation matrix of a quaternion; the identity quaternion gives the identity. */
  function QvecToRotmat(q: Quat): (r: Mat3)
    ensures q == Quat(1.0, 0.0, 0.0, 0.0) ==> r == IDENTITY
  {
    Mat3(RotationRow0(q.w, q.x, q.y, q.z), RotationRow1(q.w, q.x, q.y, q.z), RotationRow2(q.w, q.x, q.y, q.z))
  }

  /**
    The quaternion can be read back off its matrix: the skew-symmetric part
    is 4w times the vector part, and for a unit quaternion the trace is
    4w^2 - 1, so w is known up to sign and then x, y and z when w is not 0.
   */
  lemma RotmatRecoversQuat(q: Quat)
    ensures At(QvecToRotmat(q), 2, 1) - At(QvecToRotmat(q), 1, 2) == 4.0 * q.w * q.x
    ensures At(QvecToRotmat(q), 0, 2) - At(QvecToRotmat(q), 2, 0) == 4.0 * q.w * q.y
    ensures At(QvecToRotmat(q), 1, 0) - At(QvecToRotmat(q), 0, 1) == 4.0 * q.w * q.z
    ensures IsUnit(q) ==> At(QvecToRotmat(q), 0, 0) + At(QvecToRotmat(q), 1, 1) + At(QvecToRotmat(q), 2, 2) == 4.0 * q.w * q.w - 1.0
  {
    var r := QvecToRotmat(q);
    var w, x, y, z := q.w, q.x, q.y, q.z;
    assert At(r, 2, 1) == 2.0 * y * z + 2.0 * w * x && At(r, 1, 2) == 2.0 * y * z - 2.0 * w * x;
    assert At(r, 0, 2) == 2.0 * z * x + 2.0 * w * y && At(r, 2, 0) == 2.0 * z * x - 2.0 * w * y;
    assert At(r, 1, 0) == 2.0 * x * y + 2.0 * w * z && At(r, 0, 1) == 2.0 * x * y - 2.0 * w * z;
    assert At(r, 0, 0) + At(r, 1, 1) + At(r, 2, 2) == 3.0 - 4.0 * (x * x + y * y + z * z);
  }

  /** The conjugate quaternion: the same scalar part, the vector part negated. */
  function Conjugate(q: Quat): Quat {
    Quat(q.w, -q.x, -q.y, -q.z)
  }

  function Negated(q: Quat): Quat {
    Quat(-q.w, -q.x, -q.y, -q.z)
  }

  /** Every entry is a sum of products of two coordinates, so negating all four changes none. */
  lemma RotmatSignInvariant(q: Quat)
    ensures QvecToRotmat(Negated(q)) == QvecToRotmat(q)
  {
    var w, x, y, z := q.w, q.x, q.y, q.z;
    assert (-x) * (-y) == x * y && (-y) * (-z) == y * z && (-z) * (-x) == z * x;
    assert (-w) * (-x) == w * x && (-w) * (-y) == w * y && (-w) * (-z) == w * z;
    assert (-x) * (-x) == x * x && (-y) * (-y) == y * y && (-z) * (-z) == z * z;
  }

  /** The transpose of the rotation of q is the rotation of its conjugate. */
  lemma TransposeIsConjugate(q: Quat)
    ensures Transpose(QvecToRotmat(q)) == QvecToRotmat(Conjugate(q))
  {
    var w, x, y, z := q.w, q.x, q.y, q.z;
    assert q == Quat(w, x, y, z);
    ConjugateColumns(w, x, y, z);
  }

  lemma ConjugateColumns(w: real, x: real, y: real, z: real)
    ensures Column(QvecToRotmat(Quat(w, x, y, z)), 0) == RotationRow0(w, -x, -y, -z)
    ensures Column(QvecToRotmat(Quat(w, x, y, z)), 1) == RotationRow1(w, -x, -y, -z)
    ensures Column(QvecToRotmat(Quat(w, x, y, z)), 2) == RotationRow2(w, -x, -y, -z)
  {
    NegatedProducts(w, x, y, z);
  }

  lemma NegatedProducts(w: real, x: real, y: real, z: real)
    ensures (-x) * (-y) == x * y && (-y) * (-z) == y * z && (-z) * (-x) == z * x
    ensures w * (-x) == -(w * x) && w * (-y) == -(w * y) && w * (-z) == -(w * z)
    ensures (-x) * (-x) == x * x && (-y) * (-y) == y * y && (-z) * (-z) == z * z
  {
  }

  /** a @ b.T: the dot products of the rows of a with the rows of b. */
  lemma MulTransposed(a: Mat3, b: Mat3)
    ensures MatMul(a, Transpose(b)) ==
      Mat3(Vec3(Dot(a.r0, b.r0), Dot(a.r0, b.r1), Dot(a.r0, b.r2)),
           Vec3(Dot(a.r1, b.r0), Dot(a.r1, b.r1), Dot(a.r1, b.r2)),
           Vec3(Dot(a.r2, b.r0), Dot(a.r2, b.r1), Dot(a.r2, b.r2)))
  {
    var t := Transpose(b);
    assert Column(t, 0) == b.r0 && Column(t, 1) == b.r1 && Column(t, 2) == b.r2;
  }

  // For a unit quaternion each row is a unit vector and the rows are
  // pairwise perpendicular. Each lemma states the dot product of two rows
  // with the entries written out, so that it matches Dot of the rows term
  // for term; the sum collapses once |q|^2 = 1 is used.

  lemma UnitRow0(w: real, x: real, y: real, z: real)
    requires w * w + x * x + y * y + z * z == 1.0
    ensures Mul(1.0 - 2.0 * y * y - 2.0 * z * z, 1.0 - 2.0 * y * y - 2.0 * z * z)
          + Mul(2.0 * x * y - 2.0 * w * z, 2.0 * x * y - 2.0 * w * z)
          + Mul(2.0 * z * x + 2.0 * w * y, 2.0 * z * x + 2.0 * w * y) == 1.0
  {
    assert (y * y + z * z) * (w * w + x * x + y * y + z * z) == (y * y + z * z);
  }

  lemma UnitRow1(w: real, x: real, y: real, z: real)
    requires w * w + x * x + y * y + z * z == 1.0
    ensures Mul(2.0 * x * y + 2.0 * w * z, 2.0 * x * y + 2.0 * w * z)
          + Mul(1.0 - 2.0 * x * x - 2.0 * z * z, 1.0 - 2.0 * x * x - 2.0 * z * z)
          + Mul(2.0 * y * z - 2.0 * w * x, 2.0 * y * z - 2.0 * w * x) == 1.0
  {
    assert (x * x + z * z) * (w * w + x * x + y * y + z * z) == (x * x + z * z);
  }

  lemma UnitRow2(w: real, x: real, y: real, z: real)
    requires w * w + x * x + y * y + z * z == 1.0
    ensures Mul(2.0 * z * x - 2.0 * w * y, 2.0 * z * x - 2.0 * w * y)
          + Mul(2.0 * y * z + 2.0 * w * x, 2.0 * y * z + 2.0 * w * x)
          + Mul(1.0 - 2.0 * x * x - 2.0 * y * y, 1.0 - 2.0 * x * x - 2.0 * y * y) == 1.0
  {
    assert (x * x + y * y) * (w * w + x * x + y * y + z * z) == (x * x + y * y);
  }

  lemma PerpendicularRows01(w: real, x: real, y: real, z: real)
    requires w * w + x * x + y * y + z * z == 1.0
    ensures Mul(1.0 - 2.0 * y * y - 2.0 * z * z, 2.0 * x * y + 2.0 * w * z)
          + Mul(2.0 * x * y - 2.0 * w * z, 1.0 - 2.0 * x * x - 2.0 * z * z)
          + Mul(2.0 * z * x + 2.0 * w * y, 2.0 * y * z - 2.0 * w * x) == 0.0
  {
    assert x * y * (w * w + x * x + y * y + z * z) == x * y;
  }

  lemma PerpendicularRows02(w: real, x: real, y: real, z: real)
    requires w * w + x * x + y * y + z * z == 1.0
    ensures Mul(1.0 - 2.0 * y * y - 2.0 * z * z, 2.0 * z * x - 2.0 * w * y)
          + Mul(2.0 * x * y - 2.0 * w * z, 2.0 * y * z + 2.0 * w * x)
          + Mul(2.0 * z * x + 2.0 * w * y, 1.0 - 2.0 * x * x - 2.0 * y * y) == 0.0
  {
    assert z * x * (w * w + x * x + y * y + z * z) == z * x;
  }

  lemma PerpendicularRows12(w: real, x: real, y: real, z: real)
    requires w * w + x * x + y * y + z * z == 1.0
    ensures Mul(2.0 * x * y + 2.0 * w * z, 2.0 * z * x - 2.0 * w * y)
          + Mul(1.0 - 2.0 * x * x - 2.0 * z * z, 2.0 * y * z + 2.0 * w * x)
          + Mul(2.0 * y * z - 2.0 * w * x, 1.0 - 2.0 * x * x - 2.0 * y * y) == 0.0
  {
    assert y * z * (w * w + x * x + y * y + z * z) == y * z;
  }

  /** The rotation of a unit quaternion has orthonormal rows: R @ R.T is the identity. */
  lemma RotmatRowsOrthonormal(q: Quat)
    requires IsUnit(q)
    ensures MatMul(QvecToRotmat(q), Transpose(QvecToRotmat(q))) == IDENTITY
  {
    MulTransposed(QvecToRotmat(q), QvecToRotmat(q));
    RowDots(q.w, q.x, q.y, q.z);
  }

  lemma RowDots(w: real, x: real, y: real, z: real)
    requires w * w + x * x + y * y + z * z == 1.0
    ensures Dot(RotationRow0(w, x, y, z), RotationRow0(w, x, y, z)) == 1.0
    ensures Dot(RotationRow1(w, x, y, z), RotationRow1(w, x, y, z)) == 1.0
    ensures Dot(RotationRow2(w, x, y, z), RotationRow2(w, x, y, z)) == 1.0
    ensures Dot(RotationRow0(w, x, y, z), RotationRow1(w, x, y, z)) == 0.0
    ensures Dot(RotationRow0(w, x, y, z), RotationRow2(w, x, y, z)) == 0.0
    ensures Dot(RotationRow1(w, x, y, z), RotationRow2(w, x, y, z)) == 0.0
  {
    UnitRow0(w, x, y, z);
    UnitRow1(w, x, y, z);
    UnitRow2(w, x, y, z);
    PerpendicularRows01(w, x, y, z);
    PerpendicularRows02(w, x, y, z);
    PerpendicularRows12(w, x, y, z);
  }

  lemma ConjugateIsUnit(q: Quat)
    requires IsUnit(q)
    ensures IsUnit(Conjugate(q))
  {
    assert (-q.x) * (-q.x) == q.x * q.x && (-q.y) * (-q.y) == q.y * q.y && (-q.z) * (-q.z) == q.z * q.z;
  }

  /** ... and orthonormal columns: R.T @ R is the identity. */
  lemma RotmatColumnsOrthonormal(q: Quat)
    requires IsUnit(q)
    ensures MatMul(Transpose(QvecToRotmat(q)), QvecToRotmat(q)) == IDENTITY
  {
    var c := Conjugate(q);
    TransposeIsConjugate(q);
    TransposeIsConjugate(c);
    assert Conjugate(c) == q;
    ConjugateIsUnit(q);
    RotmatRowsOrthonormal(c);
  }

  // ---------------------------------------------------------------------
  // Camera centre and pose
  // ---------------------------------------------------------------------

  /** COLMAP's world-to-camera map: X goes to R @ X + tvec. */
  function WorldToCamera(q: Quat, tvec: Vec3, p: Vec3): Vec3 {
    Add(MatVec(QvecToRotmat(q), p), tvec)
  }

  /** t = -R.T @ tvec: the camera centre in world coordinates; with no translation it is the origin. */
  function CameraCentre(q: Quat, tvec: Vec3): (c: Vec3)
    ensures tvec == ORIGIN ==> c == ORIGIN
  {
    Neg(MatVec(Transpose(QvecToRotmat(q)), tvec))
  }

  /** The centre is the one world point the camera sees at its own origin. */
  lemma CentreMapsToCameraOrigin(q: Quat, tvec: Vec3)
    requires IsUnit(q)
    ensures WorldToCamera(q, tvec, CameraCentre(q, tvec)) == ORIGIN
  {
    var r := QvecToRotmat(q);
    var rt := Transpose(r);
    RotmatRowsOrthonormal(q);
    ProductCancels(r, rt, tvec);
    MatVecNeg(r, MatVec(rt, tvec));
  }

  /**
    The 4x4 matrix with m in the upper-left block, t as fourth column and
    (0, 0, 0, 1) below. It is a sequence of rows rather than a Mat3-like
    datatype because only the pose is 4x4 and it is only ever applied to a
    point; the calibration matrix is an array because the script fills it
    in place.
   */
  function Homogeneous(m: Mat3, t: Vec3): (h: seq<seq<real>>)
    ensures |h| == 4 && forall i | 0 <= i < 4 :: |h[i]| == 4
    ensures h[3] == [0.0, 0.0, 0.0, 1.0]
  {
    [[m.r0.x, m.r0.y, m.r0.z, t.x],
     [m.r1.x, m.r1.y, m.r1.z, t.y],
     [m.r2.x, m.r2.y, m.r2.z, t.z],
     [0.0, 0.0, 0.0, 1.0]]
  }

  /** T = vstack(column_stack(R.T, t), (0, 0, 0, 1)). */
  function Pose(q: Quat, tvec: Vec3): (pose: seq<seq<real>>)
    ensures |pose| == 4 && forall i | 0 <= i < 4 :: |pose[i]| == 4
    ensures pose[3] == [0.0, 0.0, 0.0, 1.0]
    ensures forall i, j | 0 <= i < 3 && 0 <= j < 3 :: pose[i][j] == At(QvecToRotmat(q), j, i)
    ensures forall i | 0 <= i < 3 :: pose[i][3] == Component(CameraCentre(q, tvec), i)
  {
    Homogeneous(Transpose(QvecToRotmat(q)), CameraCentre(q, tvec))
  }

  /** A 4x4 matrix applied to the homogeneous point (p, 1). */
  function ApplyHomogeneous(m: seq<seq<real>>, p: Vec3): (h: seq<real>)
    requires |m| == 4 && forall i | 0 <= i < 4 :: |m[i]| == 4
    ensures |h| == 4
  {
    seq(4, i requires 0 <= i < 4 => Mul(m[i][0], p.x) + Mul(m[i][1], p.y) + Mul(m[i][2], p.z) + m[i][3])
  }

  /** The homogeneous form of (m, t) acts on (p, 1) as p goes to m @ p + t. */
  lemma HomogeneousIsAffine(m: Mat3, t: Vec3, p: Vec3)
    ensures ApplyHomogeneous(Homogeneous(m, t), p) == [Add(MatVec(m, p), t).x, Add(MatVec(m, p), t).y, Add(MatVec(m, p), t).z, 1.0]
  {
    var h := ApplyHomogeneous(Homogeneous(m, t), p);
    assert h[3] == 1.0;
  }

  /** The pose takes a point from camera coordinates back to the world: T undoes [R | tvec]. */
  lemma PoseInvertsWorldToCamera(q: Quat, tvec: Vec3, p: Vec3)
    requires IsUnit(q)
    ensures ApplyHomogeneous(Pose(q, tvec), WorldToCamera(q, tvec, p)) == [p.x, p.y, p.z, 1.0]
  {
    var r := QvecToRotmat(q);
    var rt := Transpose(r);
    var c := WorldToCamera(q, tvec, p);
    RotmatColumnsOrthonormal(q);
    ProductCancels(rt, r, p);
    MatVecAdd(rt, MatVec(r, p), tvec);
    HomogeneousIsAffine(rt, CameraCentre(q, tvec), c);
  }

  // ---------------------------------------------------------------------
  // Intrinsics by camera-model family
  // ---------------------------------------------------------------------

  datatype Intrinsics = Intrinsics(fx: real, fy: real, cx: real, cy: real)

  /**
    Why the script cannot reach K: the model is in neither family (fx is
    never assigned), or params is too short for the indices the family reads.
   */
  datatype IntrinsicsError = UnsupportedModel | MissingParam

  /** Models with one focal length: params = f, cx, cy, ... */
  const SINGLE_FOCAL_MODELS: seq<string> := ["SIMPLE_PINHOLE", "SIMPLE_RADIAL", "RADIAL"]

  /** Models with two focal lengths: params = fx, fy, cx, cy, ... */
  const TWO_FOCAL_MODELS: seq<string> := ["PINHOLE", "OPENCV", "OPENCV_FISHEYE", "FULL_OPENCV"]

  /**
    The positions in params that fx, fy, cx and cy are read from, per
    family; none for a model outside both families.
   */
  function ParamLayout(model: string): (layout: Option<seq<nat>>)
    ensures layout.Some? ==> |layout.value| == 4
  {
    if model in SINGLE_FOCAL_MODELS then Some([0, 0, 1, 2])
    else if model in TWO_FOCAL_MODELS then Some([0, 1, 2, 3])
    else None
  }

  /** The intrinsics read from params through the layout of the model's family. */
  function LaidOutIntrinsics(model: string, params: seq<real>): Result<Intrinsics, IntrinsicsError> {
    match ParamLayout(model)
    case None => Failure(UnsupportedModel)
    case Some(l) =>
      if forall k | 0 <= k < 4 :: l[k] < |params|
      then Success(Intrinsics(params[l[0]], params[l[1]], params[l[2]], params[l[3]]))
      else Failure(MissingParam)
  }

  /** The script's if/elif choice of fx, fy, cx and cy. */
  method SelectIntrinsics(model: string, params: seq<real>) returns (r: Result<Intrinsics, IntrinsicsError>)
    ensures r == LaidOutIntrinsics(model, params)
  {
    if model in SINGLE_FOCAL_MODELS {
      if |params| < 3 {
        return Failure(MissingParam);
      }
      var f := params[0];
      r := Success(Intrinsics(f, f, params[1], params[2]));
    } else if model in TWO_FOCAL_MODELS {
      if |params| < 4 {
        return Failure(MissingParam);
      }
      r := Success(Intrinsics(params[0], params[1], params[2], params[3]));
    } else {
      r := Failure(UnsupportedModel);
    }
  }

  /** The two families share no model, so the choice is never ambiguous. */
  lemma FamiliesDisjoint(model: string)
    ensures !(model in SINGLE_FOCAL_MODELS && model in TWO_FOCAL_MODELS)
  {
    if model in SINGLE_FOCAL_MODELS && model in TWO_FOCAL_MODELS {
      assert false;
    }
  }

  /**
    Four parameters, as every camera record carries, are enough for every
    supported model; one-focal models report equal focal lengths and read
    the principal point from the next two parameters.
   */
  lemma IntrinsicsFromFourParams(model: string, params: seq<real>)
    requires |params| == 4
    ensures LaidOutIntrinsics(model, params).Success? <==> model in SINGLE_FOCAL_MODELS || model in TWO_FOCAL_MODELS
    ensures model in SINGLE_FOCAL_MODELS ==>
      LaidOutIntrinsics(model, params) == Success(Intrinsics(params[0], params[0], params[1], params[2]))
    ensures model in TWO_FOCAL_MODELS ==>
      LaidOutIntrinsics(model, params) == Success(Intrinsics(params[0], params[1], params[2], params[3]))
  {
    FamiliesDisjoint(model);
  }

  /** The choice reads only the first three or four parameters: later ones change nothing. */
  lemma IntrinsicsIgnoreTrailingParams(model: string, params: seq<real>, extra: seq<real>)
    requires |params| >= 4
    ensures LaidOutIntrinsics(model, params + extra) == LaidOutIntrinsics(model, params)
  {
    var all := params + extra;
    assert all[0] == params[0] && all[1] == params[1] && all[2] == params[2] && all[3] == params[3];
  }

  // ---------------------------------------------------------------------
  // K
  // ---------------------------------------------------------------------

  /** K: the identity with fx, fy on the diagonal and cx, cy in the last column. */
  function Calibration(intr: Intrinsics): (k: Mat3)
    ensures At(k, 0, 0) == intr.fx && At(k, 1, 1) == intr.fy
    ensures At(k, 0, 2) == intr.cx && At(k, 1, 2) == intr.cy
    ensures forall i, j | 0 <= i < 3 && 0 <= j < 3 && !(i < 2 && (j == i || j == 2)) ::
      At(k, i, j) == At(IDENTITY, i, j)
  {
    Mat3(Vec3(intr.fx, 0.0, intr.cx), Vec3(0.0, intr.fy, intr.cy), Vec3(0.0, 0.0, 1.0))
  }

  /** K = np.identity(3), then its four intrinsic entries assigned in place. */
  method BuildCalibration(intr: Intrinsics) returns (k: array2<real>)
    ensures fresh(k) && k.Length0 == 3 && k.Length1 == 3
    ensures forall i, j | 0 <= i < 3 && 0 <= j < 3 :: k[i, j] == At(Calibration(intr), i, j)
  {
    k := new real[3, 3]((i, j) => if i == j then 1.0 else 0.0);
    k[0, 0] := intr.fx;
    k[1, 1] := intr.fy;
    k[0, 2] := intr.cx;
    k[1, 2] := intr.cy;
  }

  /** K.copy() / scale: a new array, every entry divided, the original untouched. */
  method ScaledCopy(k: array2<real>, scale: real) returns (s: array2<real>)
    requires scale != 0.0
    ensures fresh(s) && s.Length0 == k.Length0 && s.Length1 == k.Length1
    ensures forall i, j | 0 <= i < k.Length0 && 0 <= j < k.Length1 :: s[i, j] == k[i, j] / scale
  {
    s := new real[k.Length0, k.Length1];
    for i := 0 to k.Length0
      invariant forall i', j | 0 <= i' < i && 0 <= j < k.Length1 :: s[i', j] == k[i', j] / scale
    {
      for j := 0 to k.Length1
        invariant forall i', j' | 0 <= i' < i && 0 <= j' < k.Length1 :: s[i', j'] == k[i', j'] / scale
        invariant forall j' | 0 <= j' < j :: s[i, j'] == k[i, j'] / scale
      {
        s[i, j] := k[i, j] / scale;
      }
    }
  }

  /** Every entry of m divided by scale, the value ScaledCopy stores. */
  function Scaled(m: Mat3, scale: real): Mat3
    requires scale != 0.0
  {
    Mat3(ScaledVec(m.r0, scale), ScaledVec(m.r1, scale), ScaledVec(m.r2, scale))
  }

  function ScaledVec(v: Vec3, scale: real): Vec3
    requires scale != 0.0
  {
    Vec3(v.x / scale, v.y / scale, v.z / scale)
  }

  /** The pixel a camera-frame point lands on: K @ p, divided by its third coordinate. */
  function Project(k: Mat3, p: Vec3): (uv: (real, real))
    requires MatVec(k, p).z != 0.0
  {
    var h := MatVec(k, p);
    (h.x / h.z, h.y / h.z)
  }

  /** Through K, a point in front of the camera lands at (fx X/Z + cx, fy Y/Z + cy). */
  lemma PinholeProjection(intr: Intrinsics, p: Vec3)
    requires p.z != 0.0
    ensures MatVec(Calibration(intr), p).z == p.z
    ensures Project(Calibration(intr), p) == (intr.fx * (p.x / p.z) + intr.cx, intr.fy * (p.y / p.z) + intr.cy)
  {
    var h := MatVec(Calibration(intr), p);
    assert h.x / p.z == intr.fx * (p.x / p.z) + intr.cx;
    assert h.y / p.z == intr.fy * (p.y / p.z) + intr.cy;
  }

  /**
    Dividing all nine entries, the bottom-right one included, scales the
    homogeneous image point as a whole: every point lands on the same pixel
    through K / scale as through K.
   */
  lemma ScaledSamePixels(k: Mat3, scale: real, p: Vec3)
    requires scale != 0.0 && MatVec(k, p).z != 0.0
    ensures MatVec(Scaled(k, scale), p).z != 0.0
    ensures Project(Scaled(k, scale), p) == Project(k, p)
  {
    var h, hs := MatVec(k, p), MatVec(Scaled(k, scale), p);
    ScaledRow(k.r0, p, scale);
    ScaledRow(k.r1, p, scale);
    ScaledRow(k.r2, p, scale);
    CommonDivisor(h.x, h.z, scale);
    CommonDivisor(h.y, h.z, scale);
  }

  lemma CommonDivisor(a: real, c: real, scale: real)
    requires scale != 0.0 && c != 0.0
    ensures (a / scale) / (c / scale) == a / c
  {
  }

  lemma ScaledRow(row: Vec3, p: Vec3, scale: real)
    requires scale != 0.0
    ensures Dot(ScaledVec(row, scale), p) == Dot(row, p) / scale
  {
  }

  /**
    What inverting K / scale computes, stated without the inverse: the point
    on the ray through pixel (u, v) at depth scale is the one K / scale sends
    to (u, v, 1).
   */
  lemma ScaledCalibrationUnprojectsAtDepth(intr: Intrinsics, scale: real, u: real, v: real)
    requires scale != 0.0 && intr.fx != 0.0 && intr.fy != 0.0
    ensures MatVec(Scaled(Calibration(intr), scale),
                   Vec3(scale * (u - intr.cx) / intr.fx, scale * (v - intr.cy) / intr.fy, scale))
            == Vec3(u, v, 1.0)
  {
    var p := Vec3(scale * (u - intr.cx) / intr.fx, scale * (v - intr.cy) / intr.fy, scale);
    var h := MatVec(Scaled(Calibration(intr), scale), p);
    assert h.x == (intr.fx * p.x + intr.cx * scale) / scale;
    assert intr.fx * p.x == scale * (u - intr.cx);
    assert h.y == (intr.fy * p.y + intr.cy * scale) / scale;
    assert intr.fy * p.y == scale * (v - intr.cy);
  }
}
