/** Stand-ins for the square matrix types. Matrices are column-major, as in the
    library the transforms use: the fields `x`, `y`, `z`, `w` are the columns, and a
    matrix times a column vector takes the dot product of each row with the vector. */
module Matrices {
  import opened Vectors

  datatype Matrix2 = Matrix2(x: Vector2, y: Vector2) {
    function MulV(v: Vector2): Vector2 {
      Vector2(x.x * v.x + y.x * v.y, x.y * v.x + y.y * v.y)
    }
    function MulS(k: real): Matrix2 { Matrix2(x.MulS(k), y.MulS(k)) }
    /** Embeds the matrix as the upper-left block of a 3x3 matrix with 1 at the corner. */
    function ToMatrix3(): Matrix3 {
      Matrix3(x.Extend(0.0), y.Extend(0.0), Vector3(0.0, 0.0, 1.0))
    }
  }

  datatype Matrix3 = Matrix3(x: Vector3, y: Vector3, z: Vector3) {
    function Row0(): Vector3 { Vector3(x.x, y.x, z.x) }
    function Row1(): Vector3 { Vector3(x.y, y.y, z.y) }
    function Row2(): Vector3 { Vector3(x.z, y.z, z.z) }
    function MulV(v: Vector3): Vector3 { Vector3(Row0().Dot(v), Row1().Dot(v), Row2().Dot(v)) }
    function MulM(o: Matrix3): Matrix3 { Matrix3(MulV(o.x), MulV(o.y), MulV(o.z)) }
    function MulS(k: real): Matrix3 { Matrix3(x.MulS(k), y.MulS(k), z.MulS(k)) }
    /** Embeds the matrix as the upper-left block of a 4x4 matrix with 1 at the corner. */
    function ToMatrix4(): Matrix4 {
      Matrix4(x.Extend(0.0), y.Extend(0.0), z.Extend(0.0), Vector4(0.0, 0.0, 0.0, 1.0))
    }
  }

  datatype Matrix4 = Matrix4(x: Vector4, y: Vector4, z: Vector4, w: Vector4) {
    function Row0(): Vector4 { Vector4(x.x, y.x, z.x, w.x) }
    function Row1(): Vector4 { Vector4(x.y, y.y, z.y, w.y) }
    function Row2(): Vector4 { Vector4(x.z, y.z, z.z, w.z) }
    function Row3(): Vector4 { Vector4(x.w, y.w, z.w, w.w) }
    function MulV(v: Vector4): Vector4 {
      Vector4(Row0().Dot(v), Row1().Dot(v), Row2().Dot(v), Row3().Dot(v))
    }
    function MulM(o: Matrix4): Matrix4 { Matrix4(MulV(o.x), MulV(o.y), MulV(o.z), MulV(o.w)) }
  }

  const Identity3: Matrix3 := Matrix3(Vector3(1.0, 0.0, 0.0), Vector3(0.0, 1.0, 0.0), Vector3(0.0, 0.0, 1.0))

  const Identity4: Matrix4 := Matrix4(Vector4(1.0, 0.0, 0.0, 0.0), Vector4(0.0, 1.0, 0.0, 0.0),
                                      Vector4(0.0, 0.0, 1.0, 0.0), Vector4(0.0, 0.0, 0.0, 1.0))

  /** The bottom row is (0, 0, 0, 1): the matrix is an affine map, not a projective one. */
  predicate IsAffine(m: Matrix4) {
    m.Row3() == Vector4(0.0, 0.0, 0.0, 1.0)
  }

  /** `n` is a two-sided inverse of `m`. */
  predicate IsInverse(m: Matrix4, n: Matrix4) {
    m.MulM(n) == Identity4 && n.MulM(m) == Identity4
  }

  // ---- 2x2 and its homogeneous embedding ----

  lemma MulV2Scale(m: Matrix2, v: Vector2, k: real)
    ensures m.MulS(k).MulV(v) == m.MulV(v.MulS(k))
  {
  }

  /** The embedded block maps a direction (w = 0) as the 2x2 matrix does, whatever the last column. */
  lemma Embed2Vector(m: Matrix2, d: Vector3, v: Vector2)
    ensures m.ToMatrix3().(z := d).MulV(v.Extend(0.0)) == m.MulV(v).Extend(0.0)
  {
  }

  /** The embedded block maps a position (w = 1) as the 2x2 matrix does, plus the last column. */
  lemma Embed2Point(m: Matrix2, e: Vector2, v: Vector2)
    ensures m.ToMatrix3().(z := e.Extend(1.0)).MulV(v.Extend(1.0)) == m.MulV(v).Add(e).Extend(1.0)
  {
  }

  // ---- 3x3 and its homogeneous embedding ----

  /** A matrix maps the unit vectors to its columns. */
  lemma MulV3Unit(m: Matrix3)
    ensures m.MulV(Vector3(1.0, 0.0, 0.0)) == m.x
    ensures m.MulV(Vector3(0.0, 1.0, 0.0)) == m.y
    ensures m.MulV(Vector3(0.0, 0.0, 1.0)) == m.z
  {
  }

  lemma Dot3ScaleSwap(r: Vector3, v: Vector3, k: real)
    ensures r.MulS(k).Dot(v) == r.Dot(v.MulS(k))
  {
  }

  lemma MulV3ScaleMatrix(m: Matrix3, v: Vector3, k: real)
    ensures m.MulS(k).MulV(v) == m.MulV(v.MulS(k))
  {
    Dot3ScaleSwap(m.Row0(), v, k);
    Dot3ScaleSwap(m.Row1(), v, k);
    Dot3ScaleSwap(m.Row2(), v, k);
  }

  /** The embedded block maps a direction (w = 0) as the 3x3 matrix does, whatever the last column. */
  lemma Embed3Vector(m: Matrix3, d: Vector4, v: Vector3)
    ensures m.ToMatrix4().(w := d).MulV(v.Extend(0.0)) == m.MulV(v).Extend(0.0)
  {
  }

  /** The embedded block maps a position (w = 1) as the 3x3 matrix does, plus the last column. */
  lemma Embed3Point(m: Matrix3, e: Vector3, v: Vector3)
    ensures m.ToMatrix4().(w := e.Extend(1.0)).MulV(v.Extend(1.0)) == m.MulV(v).Add(e).Extend(1.0)
  {
  }

  // ---- 4x4 ----

  lemma Dot4Add(r: Vector4, u: Vector4, v: Vector4)
    ensures r.Dot(u.Add(v)) == r.Dot(u) + r.Dot(v)
  {
  }

  lemma Dot4Scale(r: Vector4, u: Vector4, k: real)
    ensures r.Dot(u.MulS(k)) == r.Dot(u) * k
  {
  }

  lemma MulV4Add(m: Matrix4, u: Vector4, v: Vector4)
    ensures m.MulV(u.Add(v)) == m.MulV(u).Add(m.MulV(v))
  {
    Dot4Add(m.Row0(), u, v);
    Dot4Add(m.Row1(), u, v);
    Dot4Add(m.Row2(), u, v);
    Dot4Add(m.Row3(), u, v);
  }

  lemma MulV4Scale(m: Matrix4, u: Vector4, k: real)
    ensures m.MulV(u.MulS(k)) == m.MulV(u).MulS(k)
  {
    Dot4Scale(m.Row0(), u, k);
    Dot4Scale(m.Row1(), u, k);
    Dot4Scale(m.Row2(), u, k);
    Dot4Scale(m.Row3(), u, k);
  }

  /** A matrix times a vector is the combination of its columns weighted by the vector. */
  lemma MulV4Columns(m: Matrix4, v: Vector4)
    ensures m.MulV(v) == m.x.MulS(v.x).Add(m.y.MulS(v.y)).Add(m.z.MulS(v.z)).Add(m.w.MulS(v.w))
  {
  }

  lemma MulV4Assoc(a: Matrix4, b: Matrix4, v: Vector4)
    ensures a.MulM(b).MulV(v) == a.MulV(b.MulV(v))
  {
    var s1, s2, s3, s4 := b.x.MulS(v.x), b.y.MulS(v.y), b.z.MulS(v.z), b.w.MulS(v.w);
    MulV4Columns(b, v);
    MulV4Columns(a.MulM(b), v);
    MulV4Add(a, s1.Add(s2).Add(s3), s4);
    MulV4Add(a, s1.Add(s2), s3);
    MulV4Add(a, s1, s2);
    MulV4Scale(a, b.x, v.x);
    MulV4Scale(a, b.y, v.y);
    MulV4Scale(a, b.z, v.z);
    MulV4Scale(a, b.w, v.w);
  }

  lemma MulM4Assoc(a: Matrix4, b: Matrix4, c: Matrix4)
    ensures a.MulM(b).MulM(c) == a.MulM(b.MulM(c))
  {
    MulV4Assoc(a, b, c.x);
    MulV4Assoc(a, b, c.y);
    MulV4Assoc(a, b, c.z);
    MulV4Assoc(a, b, c.w);
  }

  lemma MulV4Identity(v: Vector4)
    ensures Identity4.MulV(v) == v
  {
  }

  /** A matrix maps the unit vectors to its columns. */
  lemma MulV4Unit(m: Matrix4)
    ensures m.MulV(Vector4(1.0, 0.0, 0.0, 0.0)) == m.x
    ensures m.MulV(Vector4(0.0, 1.0, 0.0, 0.0)) == m.y
    ensures m.MulV(Vector4(0.0, 0.0, 1.0, 0.0)) == m.z
    ensures m.MulV(Vector4(0.0, 0.0, 0.0, 1.0)) == m.w
  {
  }

  lemma MulM4Identity(m: Matrix4)
    ensures Identity4.MulM(m) == m && m.MulM(Identity4) == m
  {
    MulV4Identity(m.x);
    MulV4Identity(m.y);
    MulV4Identity(m.z);
    MulV4Identity(m.w);
    MulV4Unit(m);
  }

  /** A matrix has at most one two-sided inverse. */
  lemma InverseUnique(m: Matrix4, n1: Matrix4, n2: Matrix4)
    requires IsInverse(m, n1) && IsInverse(m, n2)
    ensures n1 == n2
  {
    MulM4Identity(n1);
    MulM4Identity(n2);
    MulM4Assoc(n1, m, n2);
  }
}
