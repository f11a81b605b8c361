/** Stand-ins for the vector and point types that the transforms consume:
    exact real coordinates, with the operations the transform code calls
    (add, scale by a scalar, extend/truncate, point minus point, point plus vector,
    homogeneous coordinates). */
module Vectors {

  datatype Vector2 = Vector2(x: real, y: real) {
    function Add(o: Vector2): Vector2 { Vector2(x + o.x, y + o.y) }
    function MulS(k: real): Vector2 { Vector2(x * k, y * k) }
    function Extend(z: real): Vector3 { Vector3(x, y, z) }
  }

  datatype Vector3 = Vector3(x: real, y: real, z: real) {
    function Add(o: Vector3): Vector3 { Vector3(x + o.x, y + o.y, z + o.z) }
    function MulS(k: real): Vector3 { Vector3(x * k, y * k, z * k) }
    function Dot(o: Vector3): real { x * o.x + y * o.y + z * o.z }
    function Extend(w: real): Vector4 { Vector4(x, y, z, w) }
    function Truncate(): Vector2 { Vector2(x, y) }
  }

  datatype Vector4 = Vector4(x: real, y: real, z: real, w: real) {
    function Add(o: Vector4): Vector4 { Vector4(x + o.x, y + o.y, z + o.z, w + o.w) }
    function MulS(k: real): Vector4 { Vector4(x * k, y * k, z * k, w * k) }
    function Dot(o: Vector4): real { x * o.x + y * o.y + z * o.z + w * o.w }
    function Truncate(): Vector3 { Vector3(x, y, z) }
  }

  // ---- scaling laws, stated once so that callers need no nonlinear arithmetic ----

  const Zero2: Vector2 := Vector2(0.0, 0.0)
  const Zero3: Vector3 := Vector3(0.0, 0.0, 0.0)

  /** Scaling by `k` and then by `m` is scaling by `m * k`. */
  lemma MulSMulS2(v: Vector2, k: real, m: real)
    ensures v.MulS(k).MulS(m) == v.MulS(m * k)
  {
  }

  lemma MulSSwap2(v: Vector2, k: real, m: real)
    ensures v.MulS(k).MulS(m) == v.MulS(m).MulS(k)
  {
  }

  lemma MulSAdd2(u: Vector2, v: Vector2, k: real)
    ensures u.Add(v).MulS(k) == u.MulS(k).Add(v.MulS(k))
  {
  }

  /** Scaling by `-s` and then by the reciprocal of `s` negates. */
  lemma MulSNegInverse2(v: Vector2, s: real, k: real)
    requires s * k == 1.0
    ensures v.MulS(-s).MulS(k) == v.MulS(-1.0)
  {
  }

  lemma MulSCancel2(v: Vector2, k: real)
    ensures v.MulS(k).Add(v.MulS(-k)) == Zero2 && v.MulS(-1.0).Add(v) == Zero2
  {
  }

  lemma MulSMulS3(v: Vector3, k: real, m: real)
    ensures v.MulS(k).MulS(m) == v.MulS(m * k)
  {
  }

  lemma MulSSwap3(v: Vector3, k: real, m: real)
    ensures v.MulS(k).MulS(m) == v.MulS(m).MulS(k)
  {
  }

  lemma MulSAdd3(u: Vector3, v: Vector3, k: real)
    ensures u.Add(v).MulS(k) == u.MulS(k).Add(v.MulS(k))
  {
  }

  lemma MulSNegInverse3(v: Vector3, s: real, k: real)
    requires s * k == 1.0
    ensures v.MulS(-s).MulS(k) == v.MulS(-1.0)
  {
  }

  lemma MulSCancel3(v: Vector3, k: real)
    ensures v.MulS(k).Add(v.MulS(-k)) == Zero3 && v.MulS(-1.0).Add(v) == Zero3
  {
  }

  /** The vector with every component equal to `k` (`Vector::from_value`). */
  function FromValue2(k: real): Vector2 { Vector2(k, k) }
  function FromValue3(k: real): Vector3 { Vector3(k, k, k) }

  datatype Point2 = Point2(x: real, y: real) {
    function SubP(o: Point2): Vector2 { Vector2(x - o.x, y - o.y) }
    function AddV(v: Vector2): Point2 { Point2(x + v.x, y + v.y) }
    function MulS(k: real): Point2 { Point2(x * k, y * k) }
    function ToVec(): Vector2 { Vector2(x, y) }
    function ToHomogeneous(): Vector3 { Vector3(x, y, 1.0) }
  }

  datatype Point3 = Point3(x: real, y: real, z: real) {
    function SubP(o: Point3): Vector3 { Vector3(x - o.x, y - o.y, z - o.z) }
    function AddV(v: Vector3): Point3 { Point3(x + v.x, y + v.y, z + v.z) }
    function MulS(k: real): Point3 { Point3(x * k, y * k, z * k) }
    function ToVec(): Vector3 { Vector3(x, y, z) }
    function ToHomogeneous(): Vector4 { Vector4(x, y, z, 1.0) }
  }

  const Origin2: Point2 := Point2(0.0, 0.0)
  const Origin3: Point3 := Point3(0.0, 0.0, 0.0)

  function PointFromVec2(v: Vector2): Point2 { Point2(v.x, v.y) }
  function PointFromVec3(v: Vector3): Point3 { Point3(v.x, v.y, v.z) }

  /** Perspective division: the point whose homogeneous coordinates are `v`. */
  function PointFromHomogeneous3(v: Vector4): Point3
    requires v.w != 0.0
  {
    var e := v.Truncate().MulS(1.0 / v.w);
    Point3(e.x, e.y, e.z)
  }

  /** A half-line: an origin point and a direction vector. */
  datatype Ray2 = Ray2(origin: Point2, direction: Vector2)
  datatype Ray3 = Ray3(origin: Point3, direction: Vector3)
}
