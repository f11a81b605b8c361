/** The rotation collaborator. The decomposed transform is generic over its rotation
    type `R`; the rotation type's operations are passed as a record of functions (the
    dictionary of the rotation trait), and the facts the transform relies on are the
    trait's laws, stated by `IsRotation2` and `IsRotation3`. Unit pairs (cos, sin) and
    rotations about the z axis are concrete rotation types that satisfy them. */
module Rotations {
  import opened Vectors
  import opened Matrices

  /** The planar rotation trait: `identity`, `rotate_vector`, `concat`, `invert` and
      the conversion `to_matrix2`. */
  datatype Rotation2<!R> = Rotation2(
    one: R,
    rotate: (R, Vector2) -> Vector2,
    concat: (R, R) -> R,
    invert: R -> R,
    toMatrix: R -> Matrix2)

  /** The spatial rotation trait, with the conversion `to_matrix3`. */
  datatype Rotation3<!R> = Rotation3(
    one: R,
    rotate: (R, Vector3) -> Vector3,
    concat: (R, R) -> R,
    invert: R -> R,
    toMatrix: R -> Matrix3)

  /** The trait's default `rotate_point`: rotate the point's coordinate vector. */
  function RotatePoint2<R>(ops: Rotation2<R>, r: R, p: Point2): Point2 {
    PointFromVec2(ops.rotate(r, p.ToVec()))
  }

  function RotatePoint3<R>(ops: Rotation3<R>, r: R, p: Point3): Point3 {
    PointFromVec3(ops.rotate(r, p.ToVec()))
  }

  /** The laws of a planar rotation: it acts linearly, `one` acts as the identity,
      `concat(a, b)` rotates by `b` and then by `a`, `invert` undoes the rotation on
      either side, rotations form a group under `concat`, and the matrix of a rotation
      acts as the rotation does. */
  ghost predicate IsRotation2<R(!new)>(ops: Rotation2<R>) {
    && (forall r, u: Vector2, v: Vector2 {:trigger ops.rotate(r, u.Add(v))} :: ops.rotate(r, u.Add(v)) == ops.rotate(r, u).Add(ops.rotate(r, v)))
    && (forall r, u: Vector2, k: real {:trigger ops.rotate(r, u.MulS(k))} :: ops.rotate(r, u.MulS(k)) == ops.rotate(r, u).MulS(k))
    && (forall v :: ops.rotate(ops.one, v) == v)
    && (forall a, b, v {:trigger ops.rotate(ops.concat(a, b), v)} ::
          ops.rotate(ops.concat(a, b), v) == ops.rotate(a, ops.rotate(b, v)))
    && (forall r, v {:trigger ops.rotate(ops.invert(r), ops.rotate(r, v))} ::
          ops.rotate(ops.invert(r), ops.rotate(r, v)) == v)
    && (forall r, v {:trigger ops.rotate(r, ops.rotate(ops.invert(r), v))} ::
          ops.rotate(r, ops.rotate(ops.invert(r), v)) == v)
    && (forall r {:trigger ops.concat(ops.one, r)} :: ops.concat(ops.one, r) == r)
    && (forall r {:trigger ops.concat(r, ops.one)} :: ops.concat(r, ops.one) == r)
    && (forall a, b, c {:trigger ops.concat(ops.concat(a, b), c)} ::
          ops.concat(ops.concat(a, b), c) == ops.concat(a, ops.concat(b, c)))
    && (forall r {:trigger ops.concat(r, ops.invert(r))} :: ops.concat(r, ops.invert(r)) == ops.one)
    && (forall r {:trigger ops.concat(ops.invert(r), r)} :: ops.concat(ops.invert(r), r) == ops.one)
    && (forall r, v {:trigger ops.toMatrix(r).MulV(v)} :: ops.toMatrix(r).MulV(v) == ops.rotate(r, v))
  }

  /** The same laws for a spatial rotation. */
  ghost predicate IsRotation3<R(!new)>(ops: Rotation3<R>) {
    && (forall r, u: Vector3, v: Vector3 {:trigger ops.rotate(r, u.Add(v))} :: ops.rotate(r, u.Add(v)) == ops.rotate(r, u).Add(ops.rotate(r, v)))
    && (forall r, u: Vector3, k: real {:trigger ops.rotate(r, u.MulS(k))} :: ops.rotate(r, u.MulS(k)) == ops.rotate(r, u).MulS(k))
    && (forall v :: ops.rotate(ops.one, v) == v)
    && (forall a, b, v {:trigger ops.rotate(ops.concat(a, b), v)} ::
          ops.rotate(ops.concat(a, b), v) == ops.rotate(a, ops.rotate(b, v)))
    && (forall r, v {:trigger ops.rotate(ops.invert(r), ops.rotate(r, v))} ::
          ops.rotate(ops.invert(r), ops.rotate(r, v)) == v)
    && (forall r, v {:trigger ops.rotate(r, ops.rotate(ops.invert(r), v))} ::
          ops.rotate(r, ops.rotate(ops.invert(r), v)) == v)
    && (forall r {:trigger ops.concat(ops.one, r)} :: ops.concat(ops.one, r) == r)
    && (forall r {:trigger ops.concat(r, ops.one)} :: ops.concat(r, ops.one) == r)
    && (forall a, b, c {:trigger ops.concat(ops.concat(a, b), c)} ::
          ops.concat(ops.concat(a, b), c) == ops.concat(a, ops.concat(b, c)))
    && (forall r {:trigger ops.concat(r, ops.invert(r))} :: ops.concat(r, ops.invert(r)) == ops.one)
    && (forall r {:trigger ops.concat(ops.invert(r), r)} :: ops.concat(ops.invert(r), r) == ops.one)
    && (forall r, v {:trigger ops.toMatrix(r).MulV(v)} :: ops.toMatrix(r).MulV(v) == ops.rotate(r, v))
  }

  // ---- a concrete planar rotation: the unit pair (cos, sin) of its angle ----

  datatype Rot2 = Rot2(c: real, s: real) {
    function RotateVector(v: Vector2): Vector2 {
      Vector2(c * v.x - s * v.y, s * v.x + c * v.y)
    }
    /** The angle-sum product: rotating by the result rotates by `o`, then by this. */
    function Concat(o: Rot2): Rot2 { Rot2(c * o.c - s * o.s, s * o.c + c * o.s) }
    function Invert(): Rot2 { Rot2(c, -s) }
    function ToMatrix2(): Matrix2 { Matrix2(Vector2(c, s), Vector2(-s, c)) }
  }

  predicate IsUnit(r: Rot2) { r.c * r.c + r.s * r.s == 1.0 }

  type UnitRot2 = r: Rot2 | IsUnit(r) witness Rot2(1.0, 0.0)

  /** The product of two unit pairs is a unit pair. */
  lemma ConcatUnit(a: Rot2, b: Rot2)
    requires IsUnit(a) && IsUnit(b)
    ensures IsUnit(a.Concat(b))
  {
    var p := a.Concat(b);
    assert p.c * p.c + p.s * p.s == (a.c * a.c + a.s * a.s) * (b.c * b.c + b.s * b.s);
  }

  function UnitConcat(a: UnitRot2, b: UnitRot2): UnitRot2 {
    ConcatUnit(a, b);
    a.Concat(b)
  }

  function UnitInvert(r: UnitRot2): UnitRot2 { r.Invert() }

  const UnitRot2Ops: Rotation2<UnitRot2> := Rotation2<UnitRot2>.Rotation2(
    Rot2(1.0, 0.0),
    (r: UnitRot2, v: Vector2) => r.RotateVector(v),
    UnitConcat,
    UnitInvert,
    (r: UnitRot2) => r.ToMatrix2())

  /** The unit pair (0, 1) is a quarter turn. */
  lemma QuarterTurn2()
    ensures UnitRot2Ops.rotate(Rot2(0.0, 1.0), Vector2(1.0, 0.0)) == Vector2(0.0, 1.0)
  {
  }

  lemma Rot2Add(r: Rot2, u: Vector2, v: Vector2)
    ensures r.RotateVector(u.Add(v)) == r.RotateVector(u).Add(r.RotateVector(v))
  {
  }

  lemma Rot2Scale(r: Rot2, u: Vector2, k: real)
    ensures r.RotateVector(u.MulS(k)) == r.RotateVector(u).MulS(k)
  {
  }

  lemma Rot2ConcatRotate(a: Rot2, b: Rot2, v: Vector2)
    ensures a.Concat(b).RotateVector(v) == a.RotateVector(b.RotateVector(v))
  {
    var w := b.RotateVector(v);
    assert (a.c * b.c - a.s * b.s) * v.x - (a.s * b.c + a.c * b.s) * v.y == a.c * w.x - a.s * w.y;
    assert (a.s * b.c + a.c * b.s) * v.x + (a.c * b.c - a.s * b.s) * v.y == a.s * w.x + a.c * w.y;
  }

  lemma Rot2ConcatAssoc(a: Rot2, b: Rot2, c: Rot2)
    ensures a.Concat(b).Concat(c) == a.Concat(b.Concat(c))
  {
  }

  /** The polynomial identity behind undoing a turn: for a unit pair, turning (x, y) by
      (c, s) and then by (c, -s) gives (x, y) back. */
  lemma UnitUndoX(c: real, s: real, x: real, y: real)
    requires c * c + s * s == 1.0
    ensures c * (c * x - s * y) + s * (s * x + c * y) == x
  {
    assert c * (c * x - s * y) + s * (s * x + c * y) == (c * c + s * s) * x;
  }

  lemma UnitUndoY(c: real, s: real, x: real, y: real)
    requires c * c + s * s == 1.0
    ensures -s * (c * x - s * y) + c * (s * x + c * y) == y
  {
    assert -s * (c * x - s * y) + c * (s * x + c * y) == (c * c + s * s) * y;
  }

  lemma Rot2Undo(r: Rot2, v: Vector2)
    requires IsUnit(r)
    ensures r.Invert().RotateVector(r.RotateVector(v)) == v
    ensures r.RotateVector(r.Invert().RotateVector(v)) == v
  {
    UnitUndoX(r.c, r.s, v.x, v.y);
    UnitUndoY(r.c, r.s, v.x, v.y);
    UnitUndoX(r.c, -r.s, v.x, v.y);
    UnitUndoY(r.c, -r.s, v.x, v.y);
  }

  lemma Rot2ConcatInvert(r: Rot2)
    requires IsUnit(r)
    ensures r.Concat(r.Invert()) == Rot2(1.0, 0.0) && r.Invert().Concat(r) == Rot2(1.0, 0.0)
  {
  }

  lemma Rot2Matrix(r: Rot2, v: Vector2)
    ensures r.ToMatrix2().MulV(v) == r.RotateVector(v)
  {
  }

  /** Unit pairs are rotations in the sense of `IsRotation2`. */
  lemma UnitRot2IsRotation()
    ensures IsRotation2(UnitRot2Ops)
  {
    var ops := UnitRot2Ops;
    forall r: UnitRot2, u: Vector2, v: Vector2 | true
      ensures ops.rotate(r, u.Add(v)) == ops.rotate(r, u).Add(ops.rotate(r, v))
    {
      Rot2Add(r, u, v);
    }
    forall r: UnitRot2, u: Vector2, k: real | true
      ensures ops.rotate(r, u.MulS(k)) == ops.rotate(r, u).MulS(k)
    {
      Rot2Scale(r, u, k);
    }
    forall r: UnitRot2, v | true
      ensures ops.rotate(ops.invert(r), ops.rotate(r, v)) == v
      ensures ops.rotate(r, ops.rotate(ops.invert(r), v)) == v
    {
      Rot2Undo(r, v);
    }
    forall a: UnitRot2, b: UnitRot2, v | true
      ensures ops.rotate(ops.concat(a, b), v) == ops.rotate(a, ops.rotate(b, v))
    {
      Rot2ConcatRotate(a, b, v);
    }
    forall a: UnitRot2, b: UnitRot2, c: UnitRot2 | true
      ensures ops.concat(ops.concat(a, b), c) == ops.concat(a, ops.concat(b, c))
    {
      Rot2ConcatAssoc(a, b, c);
    }
    forall r: UnitRot2 | true
      ensures ops.concat(r, ops.invert(r)) == ops.one && ops.concat(ops.invert(r), r) == ops.one
    {
      Rot2ConcatInvert(r);
    }
    forall r: UnitRot2, v | true
      ensures ops.toMatrix(r).MulV(v) == ops.rotate(r, v)
    {
      Rot2Matrix(r, v);
    }
  }

  // ---- a concrete spatial rotation: a turn about the z axis ----

  /** Turns the x-y components by a unit pair and keeps the z component. */
  function AxialRotate(r: Rot2, v: Vector3): Vector3 {
    r.RotateVector(v.Truncate()).Extend(v.z)
  }

  function AxialMatrix(r: Rot2): Matrix3 {
    Matrix3(Vector3(r.c, r.s, 0.0), Vector3(-r.s, r.c, 0.0), Vector3(0.0, 0.0, 1.0))
  }

  const AxialRot3Ops: Rotation3<UnitRot2> := Rotation3<UnitRot2>.Rotation3(
    Rot2(1.0, 0.0),
    (r: UnitRot2, v: Vector3) => AxialRotate(r, v),
    UnitConcat,
    UnitInvert,
    (r: UnitRot2) => AxialMatrix(r))

  lemma AxialAdd(r: Rot2, u: Vector3, v: Vector3)
    ensures AxialRotate(r, u.Add(v)) == AxialRotate(r, u).Add(AxialRotate(r, v))
  {
    Rot2Add(r, u.Truncate(), v.Truncate());
    assert u.Add(v).Truncate() == u.Truncate().Add(v.Truncate());
  }

  lemma AxialScale(r: Rot2, u: Vector3, k: real)
    ensures AxialRotate(r, u.MulS(k)) == AxialRotate(r, u).MulS(k)
  {
    Rot2Scale(r, u.Truncate(), k);
    assert u.MulS(k).Truncate() == u.Truncate().MulS(k);
  }

  lemma AxialUndo(r: Rot2, v: Vector3)
    requires IsUnit(r)
    ensures AxialRotate(r.Invert(), AxialRotate(r, v)) == v
    ensures AxialRotate(r, AxialRotate(r.Invert(), v)) == v
  {
    Rot2Undo(r, v.Truncate());
  }

  lemma AxialConcat(a: Rot2, b: Rot2, v: Vector3)
    ensures AxialRotate(a.Concat(b), v) == AxialRotate(a, AxialRotate(b, v))
  {
    Rot2ConcatRotate(a, b, v.Truncate());
  }

  lemma AxialIdentity(v: Vector3)
    ensures AxialRotate(Rot2(1.0, 0.0), v) == v
  {
  }

  lemma AxialMatrixAgrees(r: Rot2, v: Vector3)
    ensures AxialMatrix(r).MulV(v) == AxialRotate(r, v)
  {
  }

  /** Turns about the z axis are rotations in the sense of `IsRotation3`. */
  lemma AxialRot3IsRotation()
    ensures IsRotation3(AxialRot3Ops)
  {
    var ops := AxialRot3Ops;
    forall r: UnitRot2, u: Vector3, v: Vector3 | true
      ensures ops.rotate(r, u.Add(v)) == ops.rotate(r, u).Add(ops.rotate(r, v))
    {
      AxialAdd(r, u, v);
    }
    forall r: UnitRot2, u: Vector3, k: real | true
      ensures ops.rotate(r, u.MulS(k)) == ops.rotate(r, u).MulS(k)
    {
      AxialScale(r, u, k);
    }
    forall v: Vector3 | true
      ensures ops.rotate(ops.one, v) == v
    {
      AxialIdentity(v);
    }
    forall r: UnitRot2, v: Vector3 | true
      ensures ops.rotate(ops.invert(r), ops.rotate(r, v)) == v
      ensures ops.rotate(r, ops.rotate(ops.invert(r), v)) == v
    {
      AxialUndo(r, v);
    }
    forall a: UnitRot2, b: UnitRot2, v: Vector3 | true
      ensures ops.rotate(ops.concat(a, b), v) == ops.rotate(a, ops.rotate(b, v))
    {
      AxialConcat(a, b, v);
    }
    forall a: UnitRot2, b: UnitRot2, c: UnitRot2 | true
      ensures ops.concat(ops.concat(a, b), c) == ops.concat(a, ops.concat(b, c))
    {
      Rot2ConcatAssoc(a, b, c);
    }
    forall r: UnitRot2 | true
      ensures ops.concat(r, ops.invert(r)) == ops.one && ops.concat(ops.invert(r), r) == ops.one
    {
      Rot2ConcatInvert(r);
    }
    forall r: UnitRot2, v: Vector3 | true
      ensures ops.toMatrix(r).MulV(v) == ops.rotate(r, v)
    {
      AxialMatrixAgrees(r, v);
    }
  }
}
