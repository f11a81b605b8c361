/** The transform stored as one homogeneous 4x4 matrix (`AffineMatrix3`). Matrices are
    column-major and act on column vectors: `mat.w` is the translation column. A direction
    is extended with w = 0, a position with w = 1, and a mapped position is divided by its
    w component. */
module Affine {
  import opened Vectors
  import opened Matrices
  import opened Transforms

  datatype AffineMatrix3 = AffineMatrix3(mat: Matrix4)

  const Identity: AffineMatrix3 := AffineMatrix3(Identity4)

  function TransformVector(a: AffineMatrix3, v: Vector3): Vector3 {
    a.mat.MulV(v.Extend(0.0)).Truncate()
  }

  /** The image of `p` has a nonzero w component, so the perspective division is defined.
      It holds for every point when the matrix is affine (see AffineImageFinite). */
  predicate FiniteImage(a: AffineMatrix3, p: Point3) {
    a.mat.MulV(p.ToHomogeneous()).w != 0.0
  }

  function TransformPoint(a: AffineMatrix3, p: Point3): Point3
    requires FiniteImage(a, p)
  {
    PointFromHomogeneous3(a.mat.MulV(p.ToHomogeneous()))
  }

  /** The transform contract's default: the origin maps as a point, the direction as a vector. */
  function TransformRay(a: AffineMatrix3, r: Ray3): Ray3
    requires FiniteImage(a, r.origin)
  {
    Ray3.Ray3(TransformPoint(a, r.origin), TransformVector(a, r.direction))
  }

  /** The transform contract's default: treat a vector as the point it reaches from the origin. */
  function TransformAsPoint(a: AffineMatrix3, v: Vector3): Vector3
    requires FiniteImage(a, PointFromVec3(v))
  {
    TransformPoint(a, PointFromVec3(v)).ToVec()
  }

  /** `a` after `b`: the matrix product `a.mat * b.mat`. */
  function Concat(a: AffineMatrix3, b: AffineMatrix3): AffineMatrix3 {
    AffineMatrix3(a.mat.MulM(b.mat))
  }

  /** `matInvert` is the matrix library's inverse, which is not part of this model: any
      function that may fail. The transform's inverse fails exactly when it does. */
  function Invert(a: AffineMatrix3, matInvert: Matrix4 -> Option<Matrix4>): (r: Option<AffineMatrix3>)
    ensures r.None? <==> matInvert(a.mat).None?
    ensures r.Some? ==> r.value.mat == matInvert(a.mat).value
  {
    match matInvert(a.mat)
    case None => None
    case Some(m) => Some(AffineMatrix3(m))
  }

  /** A matrix inverse is sound when every result it returns is a two-sided inverse. */
  ghost predicate SoundInverse(matInvert: Matrix4 -> Option<Matrix4>) {
    forall m {:trigger matInvert(m)} :: matInvert(m).Some? ==> IsInverse(m, matInvert(m).value)
  }

  function ToMatrix4(a: AffineMatrix3): (m: Matrix4)
    ensures AffineMatrix3(m) == a
  {
    a.mat
  }

  // ---- points and vectors ----

  /** The translation column never reaches a direction. */
  lemma VectorIgnoresTranslation(a: AffineMatrix3, col: Vector4, v: Vector3)
    ensures TransformVector(AffineMatrix3(a.mat.(w := col)), v) == TransformVector(a, v)
  {
  }

  /** An affine matrix maps every point to a point with w = 1. */
  lemma AffineImageFinite(a: AffineMatrix3, p: Point3)
    requires IsAffine(a.mat)
    ensures a.mat.MulV(p.ToHomogeneous()).w == 1.0
  {
  }

  /** On an affine matrix, a point maps as its coordinate vector does, plus the translation. */
  lemma AffinePoint(a: AffineMatrix3, p: Point3)
    requires IsAffine(a.mat)
    ensures FiniteImage(a, p)
    ensures TransformPoint(a, p) == PointFromVec3(TransformVector(a, p.ToVec()).Add(a.mat.w.Truncate()))
  {
    AffineImageFinite(a, p);
    var h := a.mat.MulV(p.ToHomogeneous());
    assert h.Truncate().MulS(1.0 / h.w) == h.Truncate();
  }

  /** On an affine matrix, treating a vector as a point adds the translation column. */
  lemma AsPointAddsTranslation(a: AffineMatrix3, v: Vector3)
    requires IsAffine(a.mat)
    ensures FiniteImage(a, PointFromVec3(v))
    ensures TransformAsPoint(a, v) == TransformVector(a, v).Add(a.mat.w.Truncate())
  {
    AffinePoint(a, PointFromVec3(v));
  }

  lemma VectorAdd(a: AffineMatrix3, u: Vector3, v: Vector3)
    ensures TransformVector(a, u.Add(v)) == TransformVector(a, u).Add(TransformVector(a, v))
  {
    assert u.Add(v).Extend(0.0) == u.Extend(0.0).Add(v.Extend(0.0));
    MulV4Add(a.mat, u.Extend(0.0), v.Extend(0.0));
  }

  lemma VectorScale(a: AffineMatrix3, v: Vector3, k: real)
    ensures TransformVector(a, v.MulS(k)) == TransformVector(a, v).MulS(k)
  {
    assert v.MulS(k).Extend(0.0) == v.Extend(0.0).MulS(k);
    MulV4Scale(a.mat, v.Extend(0.0), k);
  }

  /** On an affine matrix, every point of a ray maps to the point at the same parameter on
      the mapped ray. */
  lemma RayPointsMap(a: AffineMatrix3, r: Ray3, k: real)
    requires IsAffine(a.mat)
    ensures FiniteImage(a, r.origin) && FiniteImage(a, r.origin.AddV(r.direction.MulS(k)))
    ensures TransformPoint(a, r.origin.AddV(r.direction.MulS(k)))
         == TransformRay(a, r).origin.AddV(TransformRay(a, r).direction.MulS(k))
  {
    var x, d := r.origin.ToVec(), r.direction;
    AffinePoint(a, r.origin);
    AffinePoint(a, r.origin.AddV(d.MulS(k)));
    assert r.origin.AddV(d.MulS(k)).ToVec() == x.Add(d.MulS(k));
    VectorAdd(a, x, d.MulS(k));
    VectorScale(a, d, k);
  }

  // ---- identity ----

  lemma IdentityNeutral(p: Point3, v: Vector3)
    ensures FiniteImage(Identity, p)
    ensures TransformPoint(Identity, p) == p
    ensures TransformVector(Identity, v) == v
  {
    MulV4Identity(p.ToHomogeneous());
    MulV4Identity(v.Extend(0.0));
    assert p.ToHomogeneous().Truncate().MulS(1.0 / 1.0) == p.ToVec();
  }

  lemma ConcatIdentity(a: AffineMatrix3)
    ensures Concat(Identity, a) == a && Concat(a, Identity) == a
  {
    MulM4Identity(a.mat);
  }

  // ---- composition ----

  /** Perspective division does not see a common nonzero factor of all four coordinates. */
  lemma DivideScaled(h: Vector4, k: real)
    requires h.w != 0.0 && k != 0.0
    ensures h.MulS(k).w != 0.0
    ensures PointFromHomogeneous3(h.MulS(k)) == PointFromHomogeneous3(h)
  {
    var q := 1.0 / (h.w * k);
    assert (h.x * k) * q == h.x / h.w;
    assert (h.y * k) * q == h.y / h.w;
    assert (h.z * k) * q == h.z / h.w;
  }

  /** The homogeneous coordinates of the point a homogeneous vector denotes are that vector
      divided by its w component. */
  lemma RehomogenizeScale(h: Vector4)
    requires h.w != 0.0
    ensures PointFromHomogeneous3(h).ToHomogeneous() == h.MulS(1.0 / h.w)
  {
  }

  /** `Concat(a, b)` is `b` followed by `a`, for any matrices, wherever both divisions are
      defined. */
  lemma ConcatComposes(a: AffineMatrix3, b: AffineMatrix3, p: Point3)
    requires FiniteImage(b, p) && FiniteImage(a, TransformPoint(b, p))
    ensures FiniteImage(Concat(a, b), p)
    ensures TransformPoint(Concat(a, b), p) == TransformPoint(a, TransformPoint(b, p))
  {
    var h := b.mat.MulV(p.ToHomogeneous());
    var k := 1.0 / h.w;
    var q := TransformPoint(b, p);
    RehomogenizeScale(h);
    MulV4Assoc(a.mat, b.mat, p.ToHomogeneous());
    MulV4Scale(a.mat, h, k);
    // a.mat * q.ToHomogeneous() is (a.mat * h) scaled by k, so the two divisions agree
    var g := a.mat.MulV(h);
    assert a.mat.MulV(q.ToHomogeneous()) == g.MulS(k);
    assert g.MulS(k).w == g.w * k;
    assert g.w != 0.0;
    DivideScaled(g, k);
  }

  /** Directions compose as long as the inner matrix is affine: a projective inner matrix
      would give a direction a nonzero w. */
  lemma ConcatComposesVector(a: AffineMatrix3, b: AffineMatrix3, v: Vector3)
    requires IsAffine(b.mat)
    ensures TransformVector(Concat(a, b), v) == TransformVector(a, TransformVector(b, v))
  {
    MulV4Assoc(a.mat, b.mat, v.Extend(0.0));
    assert b.mat.MulV(v.Extend(0.0)) == TransformVector(b, v).Extend(0.0);
  }

  lemma ConcatAssociative(a: AffineMatrix3, b: AffineMatrix3, c: AffineMatrix3)
    ensures Concat(Concat(a, b), c) == Concat(a, Concat(b, c))
  {
    MulM4Assoc(a.mat, b.mat, c.mat);
  }

  /** The product of affine matrices is affine. */
  lemma ConcatAffine(a: AffineMatrix3, b: AffineMatrix3)
    requires IsAffine(a.mat) && IsAffine(b.mat)
    ensures IsAffine(Concat(a, b).mat)
  {
  }

  // ---- inverse ----

  /** With a sound matrix inverse, the inverse composes with the transform to the identity. */
  lemma InvertConcat(a: AffineMatrix3, matInvert: Matrix4 -> Option<Matrix4>)
    requires SoundInverse(matInvert) && Invert(a, matInvert).Some?
    ensures Concat(a, Invert(a, matInvert).value) == Identity
    ensures Concat(Invert(a, matInvert).value, a) == Identity
  {
    assert IsInverse(a.mat, matInvert(a.mat).value);
  }

  /** A sound matrix inverse finds the only two-sided inverse there is. */
  lemma InvertUnique(a: AffineMatrix3, matInvert: Matrix4 -> Option<Matrix4>, n: Matrix4)
    requires SoundInverse(matInvert) && Invert(a, matInvert).Some? && IsInverse(a.mat, n)
    ensures Invert(a, matInvert).value.mat == n
  {
    InverseUnique(a.mat, matInvert(a.mat).value, n);
  }

  /** When `Concat(a, b)` is the identity, `a` undoes `b`: the image of a point under `b`
      has a finite image under `a`, and it is the point again. */
  lemma UndoesPoint(a: AffineMatrix3, b: AffineMatrix3, p: Point3)
    requires Concat(a, b) == Identity && FiniteImage(b, p)
    ensures FiniteImage(a, TransformPoint(b, p))
    ensures TransformPoint(a, TransformPoint(b, p)) == p
  {
    var h := b.mat.MulV(p.ToHomogeneous());
    RehomogenizeScale(h);
    MulV4Scale(a.mat, h, 1.0 / h.w);
    MulV4Assoc(a.mat, b.mat, p.ToHomogeneous());
    MulV4Identity(p.ToHomogeneous());
    assert a.mat.MulV(TransformPoint(b, p).ToHomogeneous()) == p.ToHomogeneous().MulS(1.0 / h.w);
    ConcatComposes(a, b, p);
    IdentityNeutral(p, Zero3);
  }

  /** The inverse undoes the transform on either side, wherever the inner division is defined. */
  lemma InvertUndoes(a: AffineMatrix3, matInvert: Matrix4 -> Option<Matrix4>, p: Point3)
    requires SoundInverse(matInvert) && Invert(a, matInvert).Some?
    ensures FiniteImage(a, p) ==>
              && FiniteImage(Invert(a, matInvert).value, TransformPoint(a, p))
              && TransformPoint(Invert(a, matInvert).value, TransformPoint(a, p)) == p
    ensures FiniteImage(Invert(a, matInvert).value, p) ==>
              && FiniteImage(a, TransformPoint(Invert(a, matInvert).value, p))
              && TransformPoint(a, TransformPoint(Invert(a, matInvert).value, p)) == p
  {
    var u := Invert(a, matInvert).value;
    InvertConcat(a, matInvert);
    if FiniteImage(a, p) {
      UndoesPoint(u, a, p);
    }
    if FiniteImage(u, p) {
      UndoesPoint(a, u, p);
    }
  }

  /** The inverse undoes directions too, when the matrix is affine. */
  lemma InvertUndoesVector(a: AffineMatrix3, matInvert: Matrix4 -> Option<Matrix4>, v: Vector3)
    requires SoundInverse(matInvert) && Invert(a, matInvert).Some? && IsAffine(a.mat)
    ensures TransformVector(Invert(a, matInvert).value, TransformVector(a, v)) == v
  {
    var u := Invert(a, matInvert).value;
    InvertConcat(a, matInvert);
    ConcatComposesVector(u, a, v);
    IdentityNeutral(Origin3, v);
  }

  /** The receiver of the in-place default methods `concat_self` and `invert_self`. */
  class MutableTransform {
    var value: AffineMatrix3

    constructor (a: AffineMatrix3)
      ensures value == a
    {
      value := a;
    }

    method ConcatSelf(other: AffineMatrix3)
      modifies this
      ensures value == Concat(old(value), other)
      ensures forall p :: FiniteImage(other, p) && FiniteImage(old(value), TransformPoint(other, p)) ==>
                FiniteImage(value, p) && TransformPoint(value, p) == TransformPoint(old(value), TransformPoint(other, p))
    {
      value := Concat(value, other);
      forall p | FiniteImage(other, p) && FiniteImage(old(value), TransformPoint(other, p))
        ensures FiniteImage(value, p) && TransformPoint(value, p) == TransformPoint(old(value), TransformPoint(other, p))
      {
        ConcatComposes(old(value), other, p);
      }
    }

    /** The source unwraps the inverse and panics when there is none. */
    method InvertSelf(matInvert: Matrix4 -> Option<Matrix4>)
      requires Invert(value, matInvert).Some?
      modifies this
      ensures Invert(old(value), matInvert) == Some(value)
      ensures SoundInverse(matInvert) ==> Concat(value, old(value)) == Identity && Concat(old(value), value) == Identity
    {
      value := Invert(value, matInvert).value;
      if SoundInverse(matInvert) {
        InvertConcat(old(value), matInvert);
      }
    }
  }
}
