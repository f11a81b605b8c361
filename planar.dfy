/** The decomposed transform of the plane: a uniform scale, a rotation of any type `R`
    that satisfies the rotation laws, and a displacement. It carries the operations of
    the transform contract, the contract's default methods, `to_matrix3` and
    `decompose`. The rotation's operations are the `ops` parameter. */
module Planar {
  import opened Vectors
  import opened Matrices
  import opened Rotations
  import opened Transforms

  /** A point `p` maps to `rot(p * scale) + disp`, a free vector `v` to `rot(v * scale)`. */
  datatype Decomposed<R> = Decomposed(scale: real, rot: R, disp: Vector2)

  function Identity<R>(ops: Rotation2<R>): Decomposed<R> {
    Decomposed(1.0, ops.one, Zero2)
  }

  /** `rotLookAt` is the rotation type's own look-at constructor, which is not part of
      this model: any function from (direction, up) to a rotation. */
  function LookAt<R>(ops: Rotation2<R>, rotLookAt: (Vector2, Vector2) -> R,
                     eye: Point2, center: Point2, up: Vector2): (t: Decomposed<R>)
    ensures t.scale == 1.0 && t.rot == rotLookAt(center.SubP(eye), up)
  {
    var rot := rotLookAt(center.SubP(eye), up);
    Decomposed(1.0, rot, ops.rotate(rot, Origin2.SubP(eye)))
  }

  function TransformVector<R>(ops: Rotation2<R>, t: Decomposed<R>, v: Vector2): Vector2 {
    ops.rotate(t.rot, v.MulS(t.scale))
  }

  function TransformPoint<R>(ops: Rotation2<R>, t: Decomposed<R>, p: Point2): Point2 {
    RotatePoint2(ops, t.rot, p.MulS(t.scale)).AddV(t.disp)
  }

  /** The transform contract's default: the origin maps as a point, the direction as a vector. */
  function TransformRay<R>(ops: Rotation2<R>, t: Decomposed<R>, r: Ray2): Ray2 {
    Ray2.Ray2(TransformPoint(ops, t, r.origin), TransformVector(ops, t, r.direction))
  }

  /** The transform contract's default: treat a vector as the point it reaches from the origin. */
  function TransformAsPoint<R>(ops: Rotation2<R>, t: Decomposed<R>, v: Vector2): Vector2 {
    TransformPoint(ops, t, PointFromVec2(v)).ToVec()
  }

  /** The closed-form composition: `b` is applied first, then `a` (see ConcatComposes). */
  function Concat<R>(ops: Rotation2<R>, a: Decomposed<R>, b: Decomposed<R>): Decomposed<R> {
    Decomposed(a.scale * b.scale, ops.concat(a.rot, b.rot), TransformAsPoint(ops, a, b.disp))
  }

  /** The closed-form inverse; absent exactly when the scale is approximately zero. */
  function Invert<R>(ops: Rotation2<R>, t: Decomposed<R>, eps: real): (r: Option<Decomposed<R>>)
    requires eps > 0.0
    ensures r.None? <==> ApproxZero(t.scale, eps)
    ensures r.Some? ==> r.value.scale * t.scale == 1.0 && r.value.rot == ops.invert(t.rot)
    ensures r.Some? ==> r.value.disp == ops.rotate(r.value.rot, t.disp).MulS(-r.value.scale)
  {
    if ApproxZero(t.scale, eps) then
      None
    else
      var s := 1.0 / t.scale;
      var r := ops.invert(t.rot);
      var d := ops.rotate(r, t.disp).MulS(-s);
      Some(Decomposed(s, r, d))
  }

  /** The homogeneous 3x3 matrix of a transform, defined by what it must do: its columns
      are the images of the unit vectors (as directions, w = 0) and of the origin (as a
      position, w = 1). */
  function Homogeneous<R>(ops: Rotation2<R>, t: Decomposed<R>): Matrix3 {
    Matrix3(TransformVector(ops, t, Vector2(1.0, 0.0)).Extend(0.0),
            TransformVector(ops, t, Vector2(0.0, 1.0)).Extend(0.0),
            TransformPoint(ops, t, Origin2).ToHomogeneous())
  }

  /** `decompose`: the scale broadcast into a vector, the rotation and the displacement. */
  function Decompose<R>(t: Decomposed<R>): (r: (Vector2, R, Vector2))
    ensures r.0 == FromValue2(r.0.x)
    ensures Decomposed(r.0.x, r.1, r.2) == t
  {
    (FromValue2(t.scale), t.rot, t.disp)
  }

  // ---- facts about the rotation that the laws give ----

  lemma RotateZero<R(!new)>(ops: Rotation2<R>, r: R)
    requires IsRotation2(ops)
    ensures ops.rotate(r, Zero2) == Zero2
  {
    assert Zero2.MulS(0.0) == Zero2;
  }

  /** A point maps through its coordinate vector. */
  lemma PointAsVector<R>(ops: Rotation2<R>, t: Decomposed<R>, p: Point2)
    ensures TransformPoint(ops, t, p) == PointFromVec2(TransformVector(ops, t, p.ToVec()).Add(t.disp))
  {
    assert p.MulS(t.scale).ToVec() == p.ToVec().MulS(t.scale);
  }

  lemma TransformAsPointAddsDisp<R>(ops: Rotation2<R>, t: Decomposed<R>, v: Vector2)
    ensures TransformAsPoint(ops, t, v) == TransformVector(ops, t, v).Add(t.disp)
  {
    PointAsVector(ops, t, PointFromVec2(v));
  }

  // ---- laws ----

  lemma IdentityNeutral<R(!new)>(ops: Rotation2<R>, p: Point2, v: Vector2)
    requires IsRotation2(ops)
    ensures TransformPoint(ops, Identity(ops), p) == p
    ensures TransformVector(ops, Identity(ops), v) == v
  {
    assert p.MulS(1.0).ToVec() == p.ToVec();
    assert v.MulS(1.0) == v;
  }

  lemma ConcatIdentity<R(!new)>(ops: Rotation2<R>, t: Decomposed<R>)
    requires IsRotation2(ops)
    ensures Concat(ops, Identity(ops), t) == t
    ensures Concat(ops, t, Identity(ops)) == t
  {
    IdentityNeutral(ops, PointFromVec2(t.disp), Zero2);
    RotateZero(ops, t.rot);
    TransformAsPointAddsDisp(ops, t, Zero2);
    assert Zero2.MulS(t.scale) == Zero2;
  }

  lemma ConcatComposesVector<R(!new)>(ops: Rotation2<R>, a: Decomposed<R>, b: Decomposed<R>, v: Vector2)
    requires IsRotation2(ops)
    ensures TransformVector(ops, Concat(ops, a, b), v) == TransformVector(ops, a, TransformVector(ops, b, v))
  {
    var w := v.MulS(b.scale);
    MulSMulS2(v, b.scale, a.scale);
    assert ops.rotate(ops.concat(a.rot, b.rot), w.MulS(a.scale)) == ops.rotate(a.rot, ops.rotate(b.rot, w.MulS(a.scale)));
    assert ops.rotate(b.rot, w.MulS(a.scale)) == ops.rotate(b.rot, w).MulS(a.scale);
  }

  /** `Concat(a, b)` is `b` followed by `a`. */
  lemma ConcatComposes<R(!new)>(ops: Rotation2<R>, a: Decomposed<R>, b: Decomposed<R>, p: Point2)
    requires IsRotation2(ops)
    ensures TransformPoint(ops, Concat(ops, a, b), p) == TransformPoint(ops, a, TransformPoint(ops, b, p))
  {
    var c := Concat(ops, a, b);
    var q := TransformVector(ops, b, p.ToVec());
    PointAsVector(ops, c, p);
    PointAsVector(ops, b, p);
    PointAsVector(ops, a, TransformPoint(ops, b, p));
    ConcatComposesVector(ops, a, b, p.ToVec());
    TransformAsPointAddsDisp(ops, a, b.disp);
    assert q.Add(b.disp).MulS(a.scale) == q.MulS(a.scale).Add(b.disp.MulS(a.scale));
    assert TransformVector(ops, a, q.Add(b.disp)) == TransformVector(ops, a, q).Add(TransformVector(ops, a, b.disp));
  }

  lemma ConcatAssociative<R(!new)>(ops: Rotation2<R>, a: Decomposed<R>, b: Decomposed<R>, c: Decomposed<R>)
    requires IsRotation2(ops)
    ensures Concat(ops, Concat(ops, a, b), c) == Concat(ops, a, Concat(ops, b, c))
  {
    assert ops.concat(ops.concat(a.rot, b.rot), c.rot) == ops.concat(a.rot, ops.concat(b.rot, c.rot));
    ConcatComposes(ops, a, b, PointFromVec2(c.disp));
    assert (a.scale * b.scale) * c.scale == a.scale * (b.scale * c.scale);
  }

  /** The composition order, and that composition does not commute: for any rotation type
      with a quarter turn `q`, a quarter turn `a` and a unit shift `b` along x give a
      `Concat(a, b)` that sends the origin to (0, 1), which is `a` after `b`; `b` after `a`,
      and `Concat(b, a)`, send the origin to (1, 0). */
  lemma ConcatOrder<R(!new)>(ops: Rotation2<R>, q: R)
    requires IsRotation2(ops)
    requires ops.rotate(q, Vector2(1.0, 0.0)) == Vector2(0.0, 1.0)
    ensures var a, b := Decomposed(1.0, q, Zero2), Decomposed(1.0, ops.one, Vector2(1.0, 0.0));
            && TransformPoint(ops, Concat(ops, a, b), Origin2) == Point2(0.0, 1.0)
            && TransformPoint(ops, b, TransformPoint(ops, a, Origin2)) == Point2(1.0, 0.0)
            && TransformPoint(ops, Concat(ops, b, a), Origin2) == Point2(1.0, 0.0)
  {
    var a, b := Decomposed(1.0, q, Zero2), Decomposed(1.0, ops.one, Vector2(1.0, 0.0));
    ConcatComposes(ops, a, b, Origin2);
    ConcatComposes(ops, b, a, Origin2);
    RotateZero(ops, q);
    RotateZero(ops, ops.one);
    assert Origin2.MulS(1.0).ToVec() == Zero2;
    assert Point2(1.0, 0.0).MulS(1.0).ToVec() == Vector2(1.0, 0.0);
  }

  /** `look_at` sends the eye to the origin and the centre to the rotated viewing direction. */
  lemma LookAtMaps<R(!new)>(ops: Rotation2<R>, rotLookAt: (Vector2, Vector2) -> R,
                            eye: Point2, center: Point2, up: Vector2)
    requires IsRotation2(ops)
    ensures TransformPoint(ops, LookAt(ops, rotLookAt, eye, center, up), eye) == Origin2
    ensures TransformPoint(ops, LookAt(ops, rotLookAt, eye, center, up), center)
         == PointFromVec2(ops.rotate(rotLookAt(center.SubP(eye), up), center.SubP(eye)))
  {
    var t := LookAt(ops, rotLookAt, eye, center, up);
    PointDifference(ops, t, eye, Origin2);
    PointDifference(ops, t, center, eye);
    assert Origin2.SubP(eye).MulS(1.0) == Origin2.SubP(eye);
    assert eye.SubP(Origin2).MulS(1.0) == eye.SubP(Origin2);
    assert center.SubP(eye).MulS(1.0) == center.SubP(eye);
    assert TransformPoint(ops, t, Origin2) == PointFromVec2(t.disp) by {
      PointAsVector(ops, t, Origin2);
      RotateZero(ops, t.rot);
      assert Origin2.ToVec().MulS(1.0) == Zero2;
    }
    assert ops.rotate(t.rot, eye.SubP(Origin2).MulS(-1.0)) == ops.rotate(t.rot, eye.SubP(Origin2)).MulS(-1.0);
    assert eye.SubP(Origin2).MulS(-1.0) == Origin2.SubP(eye);
  }

  /** The difference of two transformed points is the transformed difference vector. */
  lemma PointDifference<R(!new)>(ops: Rotation2<R>, t: Decomposed<R>, p: Point2, q: Point2)
    requires IsRotation2(ops)
    ensures TransformPoint(ops, t, p).SubP(TransformPoint(ops, t, q)) == TransformVector(ops, t, p.SubP(q))
  {
    var u, w := p.ToVec().MulS(t.scale), q.ToVec().MulS(t.scale);
    PointAsVector(ops, t, p);
    PointAsVector(ops, t, q);
    assert p.SubP(q).MulS(t.scale) == w.MulS(-1.0).Add(u);
    assert ops.rotate(t.rot, w.MulS(-1.0).Add(u)) == ops.rotate(t.rot, w.MulS(-1.0)).Add(ops.rotate(t.rot, u));
    assert ops.rotate(t.rot, w.MulS(-1.0)) == ops.rotate(t.rot, w).MulS(-1.0);
  }

  /** Every point of a ray maps to the point at the same parameter on the mapped ray. */
  lemma RayPointsMap<R(!new)>(ops: Rotation2<R>, t: Decomposed<R>, r: Ray2, k: real)
    requires IsRotation2(ops)
    ensures TransformPoint(ops, t, r.origin.AddV(r.direction.MulS(k)))
         == TransformRay(ops, t, r).origin.AddV(TransformRay(ops, t, r).direction.MulS(k))
  {
    var x, d := r.origin.ToVec(), r.direction;
    PointAsVector(ops, t, r.origin);
    PointAsVector(ops, t, r.origin.AddV(d.MulS(k)));
    assert r.origin.AddV(d.MulS(k)).ToVec() == x.Add(d.MulS(k));
    MulSAdd2(x, d.MulS(k), t.scale);
    MulSSwap2(d, k, t.scale);
    assert ops.rotate(t.rot, x.MulS(t.scale).Add(d.MulS(t.scale).MulS(k)))
        == ops.rotate(t.rot, x.MulS(t.scale)).Add(ops.rotate(t.rot, d.MulS(t.scale).MulS(k)));
    assert ops.rotate(t.rot, d.MulS(t.scale).MulS(k)) == ops.rotate(t.rot, d.MulS(t.scale)).MulS(k);
  }

  lemma RayConcat<R(!new)>(ops: Rotation2<R>, a: Decomposed<R>, b: Decomposed<R>, r: Ray2)
    requires IsRotation2(ops)
    ensures TransformRay(ops, Concat(ops, a, b), r) == TransformRay(ops, a, TransformRay(ops, b, r))
  {
    ConcatComposes(ops, a, b, r.origin);
    ConcatComposesVector(ops, a, b, r.direction);
  }

  /** The displacements cancel, in either order of composition. */
  lemma InvertDisplacement<R(!new)>(ops: Rotation2<R>, t: Decomposed<R>, eps: real)
    requires eps > 0.0 && IsRotation2(ops)
    requires Invert(ops, t, eps).Some?
    ensures TransformAsPoint(ops, t, Invert(ops, t, eps).value.disp) == Zero2
    ensures TransformAsPoint(ops, Invert(ops, t, eps).value, t.disp) == Zero2
  {
    var u := Invert(ops, t, eps).value;
    var rd := ops.rotate(ops.invert(t.rot), t.disp);
    // t applied to u's displacement: rot(rd * -s * scale) + disp = -disp + disp
    TransformAsPointAddsDisp(ops, t, u.disp);
    MulSNegInverse2(rd, u.scale, t.scale);
    assert TransformVector(ops, t, u.disp) == ops.rotate(t.rot, rd.MulS(-1.0));
    assert ops.rotate(t.rot, rd.MulS(-1.0)) == ops.rotate(t.rot, rd).MulS(-1.0);
    assert ops.rotate(t.rot, rd) == t.disp;
    MulSCancel2(t.disp, 1.0);
    // u applied to t's displacement: rd * s + rd * -s
    TransformAsPointAddsDisp(ops, u, t.disp);
    assert ops.rotate(u.rot, t.disp.MulS(u.scale)) == rd.MulS(u.scale);
    MulSCancel2(rd, u.scale);
  }

  lemma InvertConcat<R(!new)>(ops: Rotation2<R>, t: Decomposed<R>, eps: real)
    requires eps > 0.0 && IsRotation2(ops)
    requires Invert(ops, t, eps).Some?
    ensures Concat(ops, t, Invert(ops, t, eps).value) == Identity(ops)
    ensures Concat(ops, Invert(ops, t, eps).value, t) == Identity(ops)
  {
    InvertDisplacement(ops, t, eps);
    assert ops.concat(t.rot, ops.invert(t.rot)) == ops.one;
    assert ops.concat(ops.invert(t.rot), t.rot) == ops.one;
  }

  /** The inverse undoes the transform on either side. */
  lemma InvertUndoes<R(!new)>(ops: Rotation2<R>, t: Decomposed<R>, eps: real, p: Point2)
    requires eps > 0.0 && IsRotation2(ops)
    requires Invert(ops, t, eps).Some?
    ensures TransformPoint(ops, Invert(ops, t, eps).value, TransformPoint(ops, t, p)) == p
    ensures TransformPoint(ops, t, TransformPoint(ops, Invert(ops, t, eps).value, p)) == p
  {
    var u := Invert(ops, t, eps).value;
    InvertConcat(ops, t, eps);
    ConcatComposes(ops, u, t, p);
    ConcatComposes(ops, t, u, p);
    IdentityNeutral(ops, p, Zero2);
  }

  // ---- the homogeneous matrix ----

  /** The linear block of the homogeneous matrix is the rotation's matrix scaled, and its
      last column is the displacement with w = 1. */
  lemma HomogeneousBlock<R(!new)>(ops: Rotation2<R>, t: Decomposed<R>)
    requires IsRotation2(ops)
    ensures Homogeneous(ops, t) == ops.toMatrix(t.rot).MulS(t.scale).ToMatrix3().(z := t.disp.Extend(1.0))
  {
    var m, e1, e2 := ops.toMatrix(t.rot), Vector2(1.0, 0.0), Vector2(0.0, 1.0);
    assert m.MulV(e1) == m.x && m.MulV(e2) == m.y;
    assert ops.rotate(t.rot, e1.MulS(t.scale)) == ops.rotate(t.rot, e1).MulS(t.scale);
    assert ops.rotate(t.rot, e2.MulS(t.scale)) == ops.rotate(t.rot, e2).MulS(t.scale);
    PointAsVector(ops, t, Origin2);
    RotateZero(ops, t.rot);
    assert Origin2.ToVec().MulS(t.scale) == Zero2;
  }

  lemma HomogeneousVector<R(!new)>(ops: Rotation2<R>, t: Decomposed<R>, v: Vector2)
    requires IsRotation2(ops)
    ensures Homogeneous(ops, t).MulV(v.Extend(0.0)) == TransformVector(ops, t, v).Extend(0.0)
  {
    var m := ops.toMatrix(t.rot);
    HomogeneousBlock(ops, t);
    Embed2Vector(m.MulS(t.scale), t.disp.Extend(1.0), v);
    MulV2Scale(m, v, t.scale);
    assert m.MulV(v.MulS(t.scale)) == ops.rotate(t.rot, v.MulS(t.scale));
  }

  lemma HomogeneousPoint<R(!new)>(ops: Rotation2<R>, t: Decomposed<R>, p: Point2)
    requires IsRotation2(ops)
    ensures Homogeneous(ops, t).MulV(p.ToHomogeneous()) == TransformPoint(ops, t, p).ToHomogeneous()
  {
    var m := ops.toMatrix(t.rot);
    HomogeneousBlock(ops, t);
    PointAsVector(ops, t, p);
    assert p.ToHomogeneous() == p.ToVec().Extend(1.0);
    Embed2Point(m.MulS(t.scale), t.disp, p.ToVec());
    MulV2Scale(m, p.ToVec(), t.scale);
    assert m.MulV(p.ToVec().MulS(t.scale)) == ops.rotate(t.rot, p.ToVec().MulS(t.scale));
  }

  /** The matrix turns composition into the matrix product. */
  lemma HomogeneousConcat<R(!new)>(ops: Rotation2<R>, a: Decomposed<R>, b: Decomposed<R>)
    requires IsRotation2(ops)
    ensures Homogeneous(ops, Concat(ops, a, b)) == Homogeneous(ops, a).MulM(Homogeneous(ops, b))
  {
    var e1, e2 := Vector2(1.0, 0.0), Vector2(0.0, 1.0);
    ConcatComposesVector(ops, a, b, e1);
    ConcatComposesVector(ops, a, b, e2);
    ConcatComposes(ops, a, b, Origin2);
    HomogeneousVector(ops, a, TransformVector(ops, b, e1));
    HomogeneousVector(ops, a, TransformVector(ops, b, e2));
    HomogeneousPoint(ops, a, TransformPoint(ops, b, Origin2));
  }

  lemma HomogeneousIdentity<R(!new)>(ops: Rotation2<R>)
    requires IsRotation2(ops)
    ensures Homogeneous(ops, Identity(ops)) == Identity3
  {
    IdentityNeutral(ops, Origin2, Vector2(1.0, 0.0));
    IdentityNeutral(ops, Origin2, Vector2(0.0, 1.0));
  }

  /** The matrix of the inverse is the inverse of the matrix. */
  lemma HomogeneousInvert<R(!new)>(ops: Rotation2<R>, t: Decomposed<R>, eps: real)
    requires eps > 0.0 && IsRotation2(ops)
    requires Invert(ops, t, eps).Some?
    ensures Homogeneous(ops, Invert(ops, t, eps).value).MulM(Homogeneous(ops, t)) == Identity3
    ensures Homogeneous(ops, t).MulM(Homogeneous(ops, Invert(ops, t, eps).value)) == Identity3
  {
    var u := Invert(ops, t, eps).value;
    InvertConcat(ops, t, eps);
    HomogeneousConcat(ops, u, t);
    HomogeneousConcat(ops, t, u);
    HomogeneousIdentity(ops);
  }

  /** `to_matrix3`, built as the source builds it: the rotation's matrix scaled and embedded,
      then the last column overwritten with the displacement. */
  method ToMatrix3<R(!new)>(ops: Rotation2<R>, t: Decomposed<R>) returns (m: Matrix3)
    requires IsRotation2(ops)
    ensures m == Homogeneous(ops, t)
    ensures m.z == t.disp.Extend(1.0) && m.Row2() == Vector3(0.0, 0.0, 1.0)
  {
    m := ops.toMatrix(t.rot).MulS(t.scale).ToMatrix3();
    m := m.(z := t.disp.Extend(1.0));
    HomogeneousBlock(ops, t);
  }

  /** The receiver of the in-place default methods `concat_self` and `invert_self`. */
  class MutableTransform<R(!new)> {
    var value: Decomposed<R>

    constructor (t: Decomposed<R>)
      ensures value == t
    {
      value := t;
    }

    method ConcatSelf(ops: Rotation2<R>, other: Decomposed<R>)
      requires IsRotation2(ops)
      modifies this
      ensures value == Concat(ops, old(value), other)
      ensures forall p :: TransformPoint(ops, value, p) == TransformPoint(ops, old(value), TransformPoint(ops, other, p))
    {
      value := Concat(ops, value, other);
      forall p ensures TransformPoint(ops, value, p) == TransformPoint(ops, old(value), TransformPoint(ops, other, p)) {
        ConcatComposes(ops, old(value), other, p);
      }
    }

    /** The source unwraps the inverse and panics when there is none. */
    method InvertSelf(ops: Rotation2<R>, eps: real)
      requires eps > 0.0 && IsRotation2(ops)
      requires Invert(ops, value, eps).Some?
      modifies this
      ensures Invert(ops, old(value), eps) == Some(value)
      ensures forall p :: TransformPoint(ops, value, TransformPoint(ops, old(value), p)) == p
    {
      value := Invert(ops, value, eps).value;
      forall p ensures TransformPoint(ops, value, TransformPoint(ops, old(value), p)) == p {
        InvertUndoes(ops, old(value), eps, p);
      }
    }
  }
}
