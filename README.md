# Affine transforms of cgmath, modelled in Dafny

This project models the transform algebra of cgmath's `src/transform.rs` over exact real
arithmetic. Three parts are modelled:

- **The `Transform` contract and its defaults.** `transform_ray` maps the ray's origin as a
  point and its direction as a vector. `transform_as_point` treats a vector as the point it
  reaches from the origin. `concat_self` and `invert_self` replace the receiver.
- **`Decomposed`.** A uniform scale, a rotation and a displacement. A point `p` maps to
  `rot(p * scale) + disp` and a vector `v` to `rot(v * scale)`. Composition and inversion are
  closed forms that never build a matrix. `to_matrix3` (plane) and `to_matrix4` (space)
  convert it to a homogeneous matrix, and `decompose` splits it into its parts. The two
  instances are the modules `Planar` and `Spatial`.
- **`AffineMatrix3`.** One homogeneous 4x4 matrix, column-major, whose column `w` is the
  translation (module `Affine`). A vector is extended with w = 0, multiplied and truncated.
  A point is extended with w = 1, multiplied and divided by w. Composition is the matrix
  product.

`Decomposed` is generic over its rotation type, as in the source. The rotation trait
(`identity`, `rotate_vector`, `concat`, `invert`, `to_matrix2`/`to_matrix3`) is a record of
functions (`Rotations.Rotation2`, `Rotations.Rotation3`). `IsRotation2` and `IsRotation3` state
the laws the transform code relies on:

- the rotation is linear;
- `concat(a, b)` rotates by `b` and then by `a`;
- `invert` undoes a rotation on either side;
- rotations form a group under `concat`;
- a rotation's matrix acts as the rotation does.

Every lemma about `Decomposed` holds for every rotation type that satisfies these laws. Two
concrete rotation types are proved to satisfy them:

- unit pairs (cos, sin) of a planar angle, `UnitRot2IsRotation`;
- turns about the z axis, `AxialRot3IsRotation`.

The modules:

- `Vectors` and `Matrices` are the vector, point and matrix operations that the transforms
  call.
- `Transforms` holds `Option` and the approximate-zero test.
- `Planar`, `Spatial` and `Affine` are the three transform representations.

## Composition order

`a.concat(b)` applies `b` first and then `a`: `concat(a, b)(p) == a(b(p))`. For `Decomposed`
this follows from the new displacement, `a.transform_as_point(b.disp)`, and the rotation
`a.rot.concat(b.rot)`. For `AffineMatrix3` it follows from the column-vector product
`a.mat * b.mat`.

The doc comment says only that the result "has the effects of both". Reading
`a.concat(b)` as "a, then b" does not match the code; the model follows the code.
`Planar.ConcatOrder` shows the difference for a quarter turn `a` and a unit shift `b`. It
holds for any rotation type with a quarter turn, and `Rotations.QuarterTurn2` provides one.
It also shows that composition does not commute.

## Model

| member | source | states |
|---|---|---|
| Planar.LookAt | src/transform.rs:103-112 | the transform has scale 1 and the rotation the rotation type's look-at gives for (center - eye, up) |
| Planar.LookAtMaps | src/transform.rs:103-112 | the look-at transform maps the eye to the origin and the centre to the rotated viewing direction |
| Planar.IdentityNeutral | src/transform.rs:94-100 | the identity maps every point and every vector to itself |
| Planar.ConcatIdentity | src/transform.rs:124-130 | composing with the identity on either side gives the transform back |
| Planar.PointAsVector | src/transform.rs:115-122 | a point maps as its coordinate vector maps, plus the displacement: vectors are not displaced, points are |
| Planar.TransformAsPointAddsDisp | src/transform.rs:53-55 | transform_as_point(v) is transform_vector(v) + disp |
| Planar.PointDifference | src/transform.rs:115-122 | the difference of two mapped points is the mapped difference vector |
| Planar.ConcatComposesVector | src/transform.rs:124-130 | the composite maps a vector as the inner and then the outer transform do |
| Planar.ConcatComposes | src/transform.rs:124-130 | concat(a, b) maps every point p to a(b(p)) |
| Planar.ConcatAssociative | src/transform.rs:124-130 | concat is associative, component by component |
| Planar.ConcatOrder | src/transform.rs:124-130 | with a quarter turn and a unit shift, concat(a, b) is a after b, differs from b after a, and differs from concat(b, a) |
| Planar.RayPointsMap | src/transform.rs:47-49 | the point at parameter k on a ray maps to the point at parameter k on the mapped ray |
| Planar.RayConcat | src/transform.rs:47-49 | mapping a ray by concat(a, b) is mapping it by b and then by a |
| Planar.Invert | src/transform.rs:132-145 | absent exactly when the scale is approximately zero; otherwise scale 1/scale, the inverted rotation, and displacement -(1/scale) * rot⁻¹(disp) |
| Planar.InvertDisplacement | src/transform.rs:136-144 | each transform sends the other's displacement to zero |
| Planar.InvertConcat | src/transform.rs:132-145 | the inverse composed with the transform, on either side, is the identity |
| Planar.InvertUndoes | src/transform.rs:132-145 | u(t(p)) == p and t(u(p)) == p for every point when u is the inverse of t |
| Planar.HomogeneousBlock | src/transform.rs:155-159 | the matrix of a transform has the scaled rotation matrix as its linear block and (disp, 1) as its last column |
| Planar.ToMatrix3 | src/transform.rs:155-159 | the matrix built the source's way is the matrix whose columns are the images of the basis vectors and of the origin |
| Planar.HomogeneousVector | src/transform.rs:155-159 | the matrix applied to (v, 0) gives (transform_vector(v), 0) |
| Planar.HomogeneousPoint | src/transform.rs:155-159 | the matrix applied to (p, 1) gives (transform_point(p), 1) |
| Planar.HomogeneousConcat | src/transform.rs:155-159 | the matrix of concat(a, b) is the product of the matrices of a and b |
| Planar.HomogeneousIdentity | src/transform.rs:155-159 | the matrix of the identity is the identity matrix |
| Planar.HomogeneousInvert | src/transform.rs:155-159 | the matrix of the inverse is a two-sided inverse of the matrix |
| Planar.Decompose | src/transform.rs:262-264 | the scale is broadcast into every component, and the parts rebuild the transform |
| Planar.MutableTransform.ConcatSelf | src/transform.rs:66-68 | the receiver becomes concat(self, other) and maps p to self(other(p)) |
| Planar.MutableTransform.InvertSelf | src/transform.rs:73-75 | the receiver becomes the inverse, which undoes the old transform |
| Spatial.LookAt | src/transform.rs:103-112 | the transform has scale 1 and the rotation the rotation type's look-at gives for (center - eye, up) |
| Spatial.LookAtMaps | src/transform.rs:103-112 | the look-at transform maps the eye to the origin and the centre to the rotated viewing direction |
| Spatial.IdentityNeutral | src/transform.rs:94-100 | the identity maps every point and every vector to itself |
| Spatial.ConcatIdentity | src/transform.rs:124-130 | composing with the identity on either side gives the transform back |
| Spatial.PointAsVector | src/transform.rs:115-122 | a point maps as its coordinate vector maps, plus the displacement |
| Spatial.TransformAsPointAddsDisp | src/transform.rs:53-55 | transform_as_point(v) is transform_vector(v) + disp |
| Spatial.PointDifference | src/transform.rs:115-122 | the difference of two mapped points is the mapped difference vector |
| Spatial.ConcatComposesVector | src/transform.rs:124-130 | the composite maps a vector as the inner and then the outer transform do |
| Spatial.ConcatComposes | src/transform.rs:124-130 | concat(a, b) maps every point p to a(b(p)) |
| Spatial.ConcatAssociative | src/transform.rs:124-130 | concat is associative, component by component |
| Spatial.RayPointsMap | src/transform.rs:47-49 | the point at parameter k on a ray maps to the point at parameter k on the mapped ray |
| Spatial.RayConcat | src/transform.rs:47-49 | mapping a ray by concat(a, b) is mapping it by b and then by a |
| Spatial.Invert | src/transform.rs:132-145 | absent exactly when the scale is approximately zero; otherwise scale 1/scale, the inverted rotation, and displacement -(1/scale) * rot⁻¹(disp) |
| Spatial.InvertDisplacement | src/transform.rs:136-144 | each transform sends the other's displacement to zero |
| Spatial.InvertConcat | src/transform.rs:132-145 | the inverse composed with the transform, on either side, is the identity |
| Spatial.InvertUndoes | src/transform.rs:132-145 | u(t(p)) == p and t(u(p)) == p for every point when u is the inverse of t |
| Spatial.HomogeneousBlock | src/transform.rs:166-170 | the matrix of a transform has the scaled rotation matrix as its linear block and (disp, 1) as its last column |
| Spatial.ToMatrix4 | src/transform.rs:166-170 | the matrix built the source's way is affine, has (disp, 1) as column w, and its columns are the images of the basis vectors and of the origin |
| Spatial.HomogeneousVector | src/transform.rs:166-170 | the matrix applied to (v, 0) gives (transform_vector(v), 0) |
| Spatial.HomogeneousPoint | src/transform.rs:166-170 | the matrix applied to (p, 1) gives (transform_point(p), 1) |
| Spatial.HomogeneousConcat | src/transform.rs:166-170 | the matrix of concat(a, b) is the product of the matrices of a and b |
| Spatial.HomogeneousIdentity | src/transform.rs:166-170 | the matrix of the identity is the identity matrix |
| Spatial.HomogeneousInvert | src/transform.rs:166-170 | the matrix of the inverse is a two-sided inverse of the matrix |
| Spatial.MatrixAgrees | src/transform.rs:216-218 | the matrix transform built from to_matrix4 maps points (dividing by w = 1) and vectors as the decomposed transform does |
| Spatial.Decompose | src/transform.rs:262-264 | the scale is broadcast into every component, and the parts rebuild the transform |
| Spatial.MutableTransform.ConcatSelf | src/transform.rs:66-68 | the receiver becomes concat(self, other) and maps p to self(other(p)) |
| Spatial.MutableTransform.InvertSelf | src/transform.rs:73-75 | the receiver becomes the inverse, which undoes the old transform |
| Affine.IdentityNeutral | src/transform.rs:201-203 | the identity matrix maps every point and vector to itself |
| Affine.ConcatIdentity | src/transform.rs:221-223 | composing with the identity on either side gives the transform back |
| Affine.VectorIgnoresTranslation | src/transform.rs:211-213 | transform_vector does not depend on the translation column |
| Affine.VectorAdd | src/transform.rs:211-213 | transform_vector is additive |
| Affine.VectorScale | src/transform.rs:211-213 | transform_vector commutes with scaling |
| Affine.AffineImageFinite | src/transform.rs:216-218 | an affine matrix gives every point an image with w = 1 |
| Affine.AffinePoint | src/transform.rs:216-218 | on an affine matrix, a point maps as its coordinate vector does, plus the translation column |
| Affine.AsPointAddsTranslation | src/transform.rs:53-55 | on an affine matrix, transform_as_point(v) is transform_vector(v) + the translation |
| Affine.RayPointsMap | src/transform.rs:47-49 | on an affine matrix, the point at parameter k on a ray maps to the point at parameter k on the mapped ray |
| Affine.DivideScaled | src/transform.rs:216-218 | perspective division ignores a common nonzero factor |
| Affine.ConcatComposes | src/transform.rs:221-223 | the product a.mat * b.mat maps p to a(b(p)) for any matrices wherever the divisions are defined |
| Affine.ConcatComposesVector | src/transform.rs:221-223 | directions compose in the same order when the inner matrix is affine |
| Affine.ConcatAssociative | src/transform.rs:221-223 | concat is associative |
| Affine.ConcatAffine | src/transform.rs:221-223 | the composite of affine matrices is affine |
| Affine.Invert | src/transform.rs:226-228 | absent exactly when the matrix inverse is absent; otherwise it wraps that inverse |
| Affine.InvertConcat | src/transform.rs:226-228 | with a sound matrix inverse, the inverse composed with the transform, on either side, is the identity |
| Affine.InvertUnique | src/transform.rs:226-228 | with a sound matrix inverse, the inverse is the only two-sided inverse |
| Affine.UndoesPoint | src/transform.rs:226-228 | when concat(a, b) is the identity, a undoes b on every point b maps to a finite point |
| Affine.InvertUndoes | src/transform.rs:226-228 | the inverse undoes the transform on points, on either side |
| Affine.InvertUndoesVector | src/transform.rs:226-228 | on an affine matrix, the inverse undoes the transform on vectors |
| Affine.ToMatrix4 | src/transform.rs:232 | the matrix is returned unchanged |
| Affine.MutableTransform.ConcatSelf | src/transform.rs:66-68 | the receiver becomes concat(self, other) and maps p to self(other(p)) where defined |
| Affine.MutableTransform.InvertSelf | src/transform.rs:73-75 | the receiver becomes the inverse; with a sound matrix inverse it composes with the old value to the identity |
| Rotations.UnitRot2IsRotation | src/transform.rs:115-145 | unit pairs with the angle-sum product satisfy every rotation law the decomposed transform uses |
| Rotations.AxialRot3IsRotation | src/transform.rs:115-145 | turns about the z axis satisfy every rotation law the decomposed transform uses |

## Left out

- Floating point: scalars are exact reals, so there is no rounding and no overflow.
- `approx_eq(scale, 0)` is modelled as `-eps < scale < eps` for a tolerance `eps > 0` passed as a parameter. The library's default tolerance is not modelled.
- `Rotation::look_at` is not part of this model. The decomposed `look_at` takes it as a parameter, any function from (direction, up) to a rotation.
- `Matrix4::invert` is not part of this model. `Affine.Invert` takes it as a parameter. The lemmas about the inverse assume only that every result it returns is a two-sided inverse (`SoundInverse`).
- `AffineMatrix3::look_at` is left out. Its body is only a call to `Matrix4::look_at`, which is not part of this model.
- The vector, point, matrix and rotation libraries are not part of this model. `Vectors`, `Matrices` and the rotation laws stand in for the operations the transforms call. The general rotation types (quaternions, `Basis2`, `Basis3`) are not modelled; unit pairs and turns about the z axis are the concrete witnesses.
- Trigonometric construction of rotations is left out.
- The `Debug` formatting and the derived encoding and decoding are library glue with no logic, so they are left out.
- The marker traits and empty impls are left out: `Transform2`, `Transform3`, `ToComponents2`, `ToComponents3`, the `CompositeTransform` traits, `PhantomFn`.
- Affine.TransformPoint: requires the image to have a nonzero w. The source divides by zero there and yields infinities or NaN under IEEE floats, which reals cannot represent. AffinePoint shows that every affine matrix meets the requirement.
- Affine.ConcatComposesVector: requires the inner matrix to be affine. For a projective inner matrix the source's vector mapping does not compose.
- Planar.MutableTransform.InvertSelf: requires the inverse to exist, where the source panics on `unwrap`. The same holds for `Spatial.MutableTransform.InvertSelf` and `Affine.MutableTransform.InvertSelf`.
- Affine.MutableTransform.InvertSelf: states the identity law only under a sound matrix inverse, because the matrix inverse is a parameter.
- Aliasing of `&mut self` with `other` in `concat_self` is not modelled: `other` is a value.
