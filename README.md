# rusty_ray core, modelled in Dafny

rusty_ray is a small Rust ray tracer and rasteriser. This project models its
hit-finding core:

- the axis-aligned box (`AlignedBox3d`): `extend`, `contains` and the slab
  test `intersects`;
- the bounding-volume hierarchy: `create_node`, which folds a box over a
  triangle slice and halves the slice in input order, and the recursive query
  `recur_intersect`;
- the mesh: `Mesh::new` and the explicit-stack traversal `stack_intersect`
  that answers `Object::intersects` for a mesh;
- the ray–triangle, ray–parallelogram and ray–sphere tests, with the triangle
  centroid and normal;
- the scene-level choice of the nearest object, `find_nearest_object`;
- the rasteriser: `vertex_interpolation`, the shaders, the depth test
  `blending_shader`, and the pixel loops of `rasterize`, which clamp a
  triangle's screen box and write the frame buffer and the z-buffer in place.

All numbers are Dafny `real`. The floating-point steps the code delegates to
nalgebra and libm (the LU solve, the 3x3 inverse, `sqrt` and `normalize`),
together with the IEEE division `1.0 / d` the slab test computes inline, are
the fields of a `Numerics` record. The contracts about them hold
for any such functions. The lemmas that need real arithmetic assume it only at
the arguments they use (`SolvesExactly`, `SqrtExact`, `RecipExact`). A Rust
panic (`panic!`, a failed `unwrap`) is the `Panic` outcome of a `Result`.

Files, one module per source file:

- `vectors.dfy`: `Vec3`, `Mat3`, `Option`, `Result`, `Numerics`.
- `primitives.dfy`: `src/primitives.rs`.
- `datastructures.dfy`: `src/datastructures.rs`.
- `composites.dfy`: `src/composites.rs`.
- `utils.dfy`: `src/utils.rs`.
- `raster.dfy`: `src/raster.rs`.

Where the code departs from what one might expect of a BVH ray tracer, the
model follows the code:

- **Default box.** The default box is `#[derive(Default)]`, so both corners
  are zero, not the ±∞ of an empty box. Every box the builder makes therefore
  contains the origin, and the contracts say so (`AlignedBox3d.Default`,
  `BoundsOfEncloses`).
- **Split axis.** The builder computes a split axis but never uses it, because
  the sort is commented out. The model halves the slice in input order
  (`CreateNode`).
- **Node shape.** `AABBNode` in `src/datastructures.rs` owns a boxed object,
  while `stack_intersect` reads a `node.object_idx` index. The model's `Node`
  carries the index, which is what the traversal uses. `IndicesBelow` states
  that every index is in range.
- **Sphere threshold.** The sphere accepts `t > 0`, not the `1e-6` threshold
  of the triangle and the parallelogram.
- **Parallelogram bounds.** The parallelogram test never bounds `u` and `v`,
  so it is a plane test (`ParallelogramIgnoresBounds`). Its `unwrap` of the
  solve panics on a singular system.
- **Equal-`t` hits.** Among reached hits of equal `t`, the stack traversal
  keeps the one it meets first. Because it pops the right child first, that
  is the last one in left-to-right order. `recur_intersect` keeps the first
  one. Only the `t` agrees (`StackAgreesWithRecursion`, `TieBreaks`).
- **The `.distance` comparison.** `find_nearest_object` compares `.distance`
  on the stored `(Intersection, Normal)` pair. The model compares the
  distance of the stored intersection.
- **The shadowed accumulator.** In `find_nearest_object` the arm
  `Some(closest_intersection) =>` (`src/utils.rs:8`) binds a new immutable
  name that shadows the `mut` accumulator. The assignment at
  `src/utils.rs:11` then targets that binding, which does not compile, and
  read literally it would never replace the first hit. The model assigns the
  accumulator, which is evidently what is meant.

## Model

| member | source | states |
|---|---|---|
| Primitives.FaceRay | src/primitives.rs:268-270 | the normal is kept when it does not point along the ray and negated otherwise; the result never points along the ray |
| Primitives.Centroid | src/primitives.rs:236-238 | the three corners' offsets from the centroid sum to the zero vector |
| Primitives.TriangleNormalOrthogonal | src/primitives.rs:240-244 | the triangle normal, a rescaling of the edge cross product, is orthogonal to both edges from the first corner |
| Primitives.TriangleIntersect | src/primitives.rs:248-276 | no hit when the LU solve fails; a hit exactly when the solution has u ≥ 0, v ≥ 0, u + v < 1 and t ≥ 1e-6; the hit carries that t, the point origin + t·direction and the plane normal or its negation, facing the ray |
| Primitives.TriangleHitInside | src/primitives.rs:249-265 | with an exact solver, a hit point is the combination of the three corners with non-negative weights 1−u−v, u, v |
| Primitives.ParallelRayMisses | src/primitives.rs:250-274 | with an exact solver, a ray parallel to the triangle's plane (direction orthogonal to the edge cross product) gets no hit |
| Primitives.SharedEdgeRejected | src/primitives.rs:262 | a solution on the shared edge u + v = 1 is no hit |
| Primitives.ParallelogramIntersect | src/primitives.rs:190-217 | panics exactly when the solve fails (the `unwrap`); otherwise a hit exactly when t ≥ 1e-6, at origin + t·direction, with the normalised (p2 − p1) × (p3 − p1) or its negation, whichever faces the ray |
| Primitives.ParallelogramIgnoresBounds | src/primitives.rs:197-209 | a solution with u = v = 5, outside the triangle's bounds and the unit square, is still a hit |
| Primitives.SphereIntersect | src/primitives.rs:105-128 | no hit for a negative discriminant or a zero direction; a hit has t > 0, lies at origin + t·direction, and its normal is the normalised offset from the centre |
| Primitives.SphereHitOnSurface | src/primitives.rs:106-118 | with an exact square root, a hit point is at the radius from the centre and t is the −√ root of the quadratic |
| Primitives.SphereHitExactlyWhenRootAhead | src/primitives.rs:104-122 | with an exact square root, the sphere is hit exactly when the discriminant is non-negative, the direction is non-zero and the −√ root is positive, and the hit is at that root |
| Primitives.SphereHitIsNearerRoot | src/primitives.rs:114-116 | the smaller of the two roots chosen by the code is the −√ root, and its leading coefficient is non-zero |
| Primitives.RootOnSurface | src/primitives.rs:106-108 | a root of the quadratic a t² + b t + c built from the ray and sphere is a point at the radius from the centre |
| Primitives.QuadraticRoot | src/primitives.rs:109-115 | either quadratic-formula value with an exact square root is a root |
| Primitives.NearerRoot | src/primitives.rs:114-116 | with a positive leading coefficient the −√ root is not larger than the +√ root |
| Primitives.SphereFromInsideMisses | src/primitives.rs:111-126 | a ray starting strictly inside the sphere gets no hit: the chosen root is behind the origin and the other root is never tried |
| Primitives.UnitSphereScenario | src/primitives.rs:105-123 | the unit sphere seen from (0, 0, 5) along −z is hit at t = 4, point (0, 0, 1) |
| DataStructures.Bounds.Extend | src/datastructures.rs:16-27 | the grown box contains the new point and every point the old box contained |
| DataStructures.Bounds.ExtendTriangle | src/datastructures.rs:29-33 | the grown box contains all three corners and every point the old box contained |
| DataStructures.AlignedBox3d.Default | src/datastructures.rs:5-9 | the default box has zero corners and contains the origin |
| DataStructures.AlignedBox3d.constructor | src/datastructures.rs:12-14 | the box holds the given corners |
| DataStructures.AlignedBox3d.Extend | src/datastructures.rs:16-27 | in place: the new box is the old one grown by the point, contains it and keeps every point the old box contained |
| DataStructures.AlignedBox3d.ExtendTriangle | src/datastructures.rs:29-33 | in place: the new box encloses the triangle and keeps every point the old box contained |
| DataStructures.BoundsOfEncloses | src/datastructures.rs:106-109 | the folded box contains the origin and every corner of every triangle |
| DataStructures.BoundsOfLeast | src/datastructures.rs:106-109 | any box that contains the origin and encloses every triangle contains both corners of the folded box, so the fold is the least such box |
| DataStructures.FoldBounds | src/datastructures.rs:106-109 | the in-place extension loop yields the fold over the slice, which contains the origin and encloses each triangle of the slice |
| DataStructures.JoinBuilt | src/datastructures.rs:130-136 | trees built over the two halves of a range, split at `len / 2` and joined under the union box, form a tree built over the whole range |
| DataStructures.JoinHalved | src/datastructures.rs:130-136 | the same join keeps the halving shape: the root box is the fold of the whole slice and each subtree is halved over its own half |
| DataStructures.CreateNode | src/datastructures.rs:101-137 | panics exactly on an empty slice; otherwise every node is a leaf or has two children, there is one leaf per triangle with the indices in input order, there are n − 1 internal nodes, and every box encloses the triangles below it; recursively (`Halved`), every node's box is the fold of its own slice, a single triangle is a leaf holding its index, and a longer slice is split at `len / 2` into left and right subtrees over the two halves |
| DataStructures.BvhNew | src/datastructures.rs:95-99 | the hierarchy is built and halved over all triangles, panicking exactly when there are none |
| DataStructures.NearerOf | src/datastructures.rs:155-158 | `min_by` over the left then the right result: none only when both are none, never farther than either, and the left one on ties |
| DataStructures.NearerOfConcat | src/datastructures.rs:151-158 | combining the first-nearest hits of two sequences gives the first-nearest hit of their concatenation |
| DataStructures.RecurIntersect | src/datastructures.rs:144-162 | no hit when the node's box rejects the ray or the node is neither a leaf nor has two children; a hit it returns is at t ≥ 1e-6, at origin + t·direction, with a normal facing the ray |
| DataStructures.RecurIntersectIsFirstNearest | src/datastructures.rs:144-162 | `recur_intersect` returns none exactly when no leaf reached through accepted boxes reports a hit, and otherwise the first reached hit of least t |
| DataStructures.SlabAxis | src/datastructures.rs:49-54 | with an exact reciprocal, a parameter whose point lies in an axis slab lies between that axis's two crossings |
| DataStructures.CrossingsX | src/datastructures.rs:49-50 | the x crossings computed as in the code bracket the parameter of a point inside the x slab |
| DataStructures.CrossingsY | src/datastructures.rs:51-52 | the same for y |
| DataStructures.CrossingsZ | src/datastructures.rs:53-54 | the same for z |
| DataStructures.SlabTest | src/datastructures.rs:43-64 | the last step of `intersects` on the six crossings accepts exactly when the entry parameter clipped at zero, max(tmin, 0), lies between the two crossings of every axis |
| DataStructures.ContainsIffExtendKeeps | src/datastructures.rs:35-41 | a box contains a point, axis by axis between min and max, exactly when extending the box by the point leaves it unchanged |
| DataStructures.SlabsOverlap | src/datastructures.rs:56-63 | when one t ≥ 0 lies within all three axis intervals, the rejection (tmax below zero, or tmin above tmax) does not fire |
| DataStructures.IntersectsWhenPointAhead | src/datastructures.rs:43-64 | with exact reciprocals, a box containing a point of the ray at t ≥ 0 passes the slab test |
| Composites.MeshNew | src/composites.rs:13-16 | panics exactly on an empty triangle list; otherwise the mesh keeps the triangles, and its hierarchy is built and halved over exactly them, with every leaf index in range |
| Composites.BuiltIsSearchable | src/composites.rs:76-77 | every leaf index of a hierarchy built over the mesh's triangles indexes a triangle, so `self.triangles[object_idx]` cannot go out of bounds |
| Composites.Closer | src/composites.rs:78-81 | a hit replaces the running best only when it is strictly nearer, and the first hit is always taken |
| Composites.ScanConcat | src/composites.rs:84-87 | offering the hits of a + b from the end equals offering those of b, then those of a |
| Composites.ScanIsLastNearest | src/composites.rs:78-81 | the strict-`<` update offered hits from the end keeps the last hit of least t, and nothing only for no hits |
| Composites.StackIntersect | src/composites.rs:64-93 | the loop returns the last reached hit of least t, and nothing when the root box rejects the ray; the loop invariant ties the running best and the stack to the reached hits of the root |
| Composites.PopTop | src/composites.rs:70-73 | popping the top node splits the pending hits into those below it and its own, and the stack measure drops by its size |
| Composites.LeafStep | src/composites.rs:76-83 | at an accepted leaf the pending hit is the leaf triangle's, offered to the running best with the strict test |
| Composites.PushChildren | src/composites.rs:84-87 | pushing the left then the right child leaves the same hits pending and a smaller stack measure |
| Composites.MeshIntersects | src/composites.rs:97-99 | the mesh query is the stack traversal with the box slab test, so a mesh whose root box rejects the ray is not hit |
| Composites.MeshNormal | src/composites.rs:108-112 | a mesh's normal is the zero vector |
| Composites.StackAgreesWithRecursion | src/composites.rs:97-99 | the stack traversal and `recur_intersect` find a hit for the same rays, at the same t |
| Composites.TieBreaks | src/composites.rs:78-87 | of two hits of equal t, the stack traversal keeps the later one in order and `recur_intersect` the earlier one |
| Composites.MinByFromFirstNearest | src/composites.rs:101-105 | the `min_by` fold from a first-nearest prefix ends on a first-nearest element of the whole sequence |
| Composites.MinBy | src/composites.rs:101-105 | `min_by` on t returns the first hit of least t, and nothing only for no hits |
| Composites.BruteForce | src/composites.rs:101-105 | the brute-force search returns nothing exactly when no triangle is hit; otherwise the hit of one of the triangles, no farther than any triangle's hit |
| Composites.MinByOverTriangles | src/composites.rs:101-105 | the first-nearest of the hits collected over all triangles is a triangle's hit that no other triangle's hit beats, and is absent only when no triangle is hit |
| Composites.BoxConvex | src/datastructures.rs:35-41 | a box that encloses a triangle contains every point of it with non-negative weights |
| Composites.HitTriangleBoxAccepts | src/composites.rs:71-77 | with exact arithmetic, a box enclosing a triangle the ray hits passes the slab test, so pruning never drops a hit |
| Composites.ReachedAllHits | src/composites.rs:70-88 | with exact arithmetic, the hits reached through the slab tests of an enclosing hierarchy are the hits of all its leaves, in order |
| Composites.StackAgreesWithBruteForce | src/composites.rs:97-106 | with exact arithmetic, the hierarchy query on a mesh built by `Mesh::new` finds a hit exactly when the commented-out brute-force search does, at the same t |
| Utils.FindNearestObject | src/utils.rs:2-22 | nothing exactly when no object reports an intersection; otherwise the intersection of an object no other beats, strictly nearer than every earlier hit, paired with that object's normal; the objects are queried once each, in order |
| Utils.FirstNearestUnique | src/utils.rs:9 | at most one object satisfies the winning condition, so the result is determined |
| Utils.TieKeepsEarlier | src/utils.rs:9 | of two objects at equal distance the later one never wins |
| Raster.VertexShader | src/raster.rs:245-268 | the position is moved by minus the camera position and the normal is kept |
| Raster.Diffuse | src/raster.rs:271-276 | the diffuse factor is non-negative and is the absolute cosine of the light direction and the normal, so the clamp at zero after the flip never changes it |
| Raster.FragmentShader | src/raster.rs:270-285 | the fragment sits at the vertex, and its colour minus the ambient colour is the light colour scaled by the diffuse factor |
| Raster.BlendingShader | src/raster.rs:287-299 | a fragment with z above the stored depth gives its colour with alpha 1 and its z; otherwise the old colour and depth are kept; the new depth is the larger of the two, and over negative infinity the fragment always wins |
| Raster.VertexInterpolation | src/raster.rs:165-175 | weights (1,0,0), (0,1,0) and (0,0,1) give exactly the first, second and third vertex |
| Raster.InterpolationKeepsSharedNormal | src/raster.rs:165-175 | with weights summing to one, a normal shared by the three vertices is reproduced |
| Raster.FlatTriangle | src/raster.rs:47-67 | the shader triangle has the mesh triangle's corners, each with the face normal |
| Raster.Ceil | src/raster.rs:107-108 | the ceiling is the least integer not below its argument |
| Raster.AsUsize | src/raster.rs:105-108 | the cast keeps non-negative integers and saturates negative ones to 0 |
| Raster.ClampIndex | src/raster.rs:111-114 | the clamped index is within the buffer, unchanged when it already was, and the last index otherwise |
| Raster.PixelBox | src/raster.rs:98-114 | the clamped box is non-empty and within the buffer: lx ≤ ux < ncols and ly ≤ uy < nrows |
| Raster.BarycentricSystem | src/raster.rs:121-124 | the last row of the system is all ones |
| Raster.MinComponent | src/raster.rs:141 | the least weight is non-negative exactly when all three weights are |
| Raster.InterpolatedAtPixelCentre | src/raster.rs:121-142 | where the inverse is exact at a pixel, the weights sum to one and the interpolated vertex rescales to that pixel's centre |
| Raster.ShadePixel | src/raster.rs:134-156 | the pixel's depth never decreases; the pixel is kept or becomes opaque with a finite depth; it changes only when all weights are non-negative and the interpolated z is at most 1 |
| Raster.DrawTriangle | src/raster.rs:82-159 | panics exactly when the system has no inverse, writing nothing; otherwise every pixel of the clamped box becomes what `ShadePixel` gives for it, frame and z-buffer together, and every other pixel is unchanged; no depth decreases |
| Raster.Rasterize | src/raster.rs:32-163 | panics exactly when there is a triangle and the buffer has no columns, or some prepared triangle's system has no inverse; every frame cell is either unchanged or opaque |

## Left out

- Reading meshes from OFF files (`Mesh::from_off_file`) is file I/O and is not modelled.
- The camera and the per-pixel ray shooting are not part of this model. So are the Blinn–Phong shading of the ray tracer, shadows, the scene's lights, textures, `src/bvh.rs`, `src/main.rs` and `src/image_utils.rs`.
- IEEE-754 behaviour is not modelled: rounding, f32 against f64, infinities and NaN. This includes the infinite reciprocal of a zero direction component in the slab test. The slab-test lemmas assume `RecipExact` for each component, which excludes zero components.
- The sphere's 0/0 NaN for a zero direction is modelled only by its outcome, no hit.
- `BVH::intersects` is the one-line wrapper around `recur_intersect` and is covered by `RecurIntersect`.
- `Triangle::new`, `Sphere::new`, `Ray::new` and `Uniform::new` are plain constructors and are the datatypes' constructors.
- `Program` and `Program::new` (src/raster.rs:222-241) are not modelled: `rasterize` takes a program but never reads it, and calls the free `vertex_shader`, `fragment_shader` and `blending_shader` directly.
- `StackIntersect`: the box test is a parameter. `MeshIntersects` instantiates it with the slab test. This keeps the traversal's proof separate from the slab arithmetic.
- `StackIntersect`: the model keeps no record of which leaves are tested, only of the hits they report.
- `FindNearestObject`: it is generic over the object and intersection types. `Scene`, `Intersection` and `Normal` are not part of this model, because the latter two are not defined in the code.
- `Rasterize`: it requires a square frame buffer. On a non-square buffer the code can index out of bounds and panic; the model does not capture that case.
- `Rasterize`: the zero-column check models a debug build, where `ncols() - 1` on an empty buffer panics.
- `Rasterize`: its own contract states only the panic condition and that every changed cell is opaque. The per-pixel effect and the z-buffer's monotonicity are stated per triangle by `DrawTriangle`, since the z-buffer is local to the function.
- `Rasterize`: the unused `program` argument is dropped.
- `AsUsize`: it does not model the NaN-to-0 cast or saturation at `usize::MAX`. After the clamp, saturation gives the same index as an unbounded integer.
- The vertex shader's identity model matrix and its 4x4 homogeneous product are written out as the translation they compute. The code has no projection step.
