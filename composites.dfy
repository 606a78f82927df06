/**
 * `Mesh`: a triangle list with its bounding volume hierarchy, and the
 * iterative nearest-hit traversal `stack_intersect` that answers
 * `Object::intersects` for it.
 */
module Composites {
  import opened Vectors
  import opened Primitives
  import opened DataStructures

  datatype Mesh = Mesh(triangles: seq<Triangle>, bvh: BVH)

  /** `Mesh::new`: the hierarchy is built over exactly the mesh's own triangles. */
  method MeshNew(triangles: seq<Triangle>) returns (r: Result<Mesh>)
    ensures r.Panic? <==> triangles == []
    ensures r.Ok? ==> r.value.triangles == triangles
    ensures r.Ok? ==> BuiltOver(r.value.bvh.root, triangles, 0, |triangles|)
    ensures r.Ok? ==> Halved(r.value.bvh.root, triangles, 0, |triangles|)
    ensures r.Ok? ==> Searchable(r.value)
  {
    var bvh := BvhNew(triangles);
    if bvh.Panic? {
      return Panic(bvh.reason);
    }
    r := Ok(Mesh(triangles, bvh.value));
    BuiltIsSearchable(triangles, bvh.value.root);
  }

  /** Every leaf of the mesh's hierarchy names one of the mesh's triangles. */
  predicate Searchable(mesh: Mesh) {
    IndicesBelow(mesh.bvh.root, |mesh.triangles|)
  }

  lemma BuiltIsSearchable(triangles: seq<Triangle>, root: Node)
    requires BuiltOver(root, triangles, 0, |triangles|)
    ensures Searchable(Mesh(triangles, BVH(root)))
  {
    forall j | 0 <= j < |Leaves(root)| ensures Leaves(root)[j] < |triangles| {
      assert Leaves(root)[j] == j;
    }
  }

  /**
   * One step of the running best: a hit replaces the current one only when
   * its `t` is strictly smaller (`closest_t` starts at infinity, so the first
   * hit is always taken).
   */
  function Closer(closest: Option<HitPoint>, h: HitPoint): (r: Option<HitPoint>)
    ensures r == closest || r == Some(h)
    ensures closest.None? ==> r == Some(h)
    ensures closest.Some? && h.t < closest.value.t ==> r == Some(h)
    ensures closest.Some? && closest.value.t <= h.t ==> r == closest
  {
    if closest.None? || h.t < closest.value.t then Some(h) else closest
  }

  /**
   * The running best after offering the hits of `hs` from the last to the
   * first, starting from `closest`: the order in which the traversal meets
   * the hits of an in-order sequence.
   */
  function ScanFromEnd(closest: Option<HitPoint>, hs: seq<HitPoint>): Option<HitPoint>
    decreases |hs|
  {
    if hs == [] then closest else Closer(ScanFromEnd(closest, hs[1..]), hs[0])
  }

  lemma {:induction false} ScanConcat(closest: Option<HitPoint>, a: seq<HitPoint>, b: seq<HitPoint>)
    decreases |a|
    ensures ScanFromEnd(closest, a + b) == ScanFromEnd(ScanFromEnd(closest, b), a)
  {
    if a == [] {
      assert a + b == b;
    } else {
      assert (a + b)[1..] == a[1..] + b;
      ScanConcat(closest, a[1..], b);
    }
  }

  /** `r` is the last hit of least `t` in `hs`, or nothing when `hs` is empty. */
  ghost predicate IsLastNearest(hs: seq<HitPoint>, r: Option<HitPoint>) {
    && (r.None? <==> hs == [])
    && (r.Some? ==> exists k :: LastNearestAt(hs, k) && hs[k] == r.value)
  }

  /** Scanning from the end with a strict `<` keeps the last hit of least `t`. */
  lemma {:induction false} ScanIsLastNearest(hs: seq<HitPoint>)
    decreases |hs|
    ensures IsLastNearest(hs, ScanFromEnd(None, hs))
  {
    if hs != [] {
      var rest := hs[1..];
      ScanIsLastNearest(rest);
      var best := ScanFromEnd(None, rest);
      if best.None? {
        assert LastNearestAt(hs, 0);
      } else {
        var k :| LastNearestAt(rest, k) && rest[k] == best.value;
        if hs[0].t < best.value.t {
          assert forall j :: 0 < j < |hs| ==> hs[j] == rest[j - 1];
          assert LastNearestAt(hs, 0);
        } else {
          assert forall j :: 0 < j < |hs| ==> hs[j] == rest[j - 1];
          assert LastNearestAt(hs, k + 1) && hs[k + 1] == best.value;
        }
      }
    }
  }

  /** Every subtree on the stack reaches only valid triangle indices. */
  predicate StackIndicesBelow(stack: seq<Node>, count: nat) {
    forall k :: 0 <= k < |stack| ==> IndicesBelow(stack[k], count)
  }

  /** The hits still to come from the subtrees on the stack, bottom to top, each in order. */
  function StackHits(accepts: Bounds -> bool, n: Numerics, tris: seq<Triangle>, ray: Ray, stack: seq<Node>): seq<HitPoint>
    requires StackIndicesBelow(stack, |tris|)
    decreases |stack|
  {
    if stack == [] then []
    else StackHits(accepts, n, tris, ray, stack[..|stack| - 1]) + Reached(accepts, n, tris, ray, stack[|stack| - 1])
  }

  /** The total size of the subtrees on the stack: the measure that bounds the loop. */
  function StackSize(stack: seq<Node>): nat
    decreases |stack|
  {
    if stack == [] then 0 else StackSize(stack[..|stack| - 1]) + Size(stack[|stack| - 1])
  }

  /**
   * `Mesh::stack_intersect`: pop a node, skip it when its box rejects the
   * ray, test a leaf's triangle against the running best, or push the left
   * then the right child. `accepts` is the box test, `AlignedBox3d::intersects`
   * for the ray in the mesh (see `MeshIntersects`). The result is the last
   * reached hit of least `t`: the nodes are popped right subtree first, and
   * a later hit replaces the running best only when strictly nearer.
   */
  method StackIntersect(accepts: Bounds -> bool, n: Numerics, tris: seq<Triangle>, root: Node, ray: Ray)
      returns (r: Option<HitPoint>)
    requires IndicesBelow(root, |tris|)
    ensures r == ScanFromEnd(None, Reached(accepts, n, tris, ray, root))
    ensures IsLastNearest(Reached(accepts, n, tris, ray, root), r)
    ensures !accepts(root.bbox) ==> r.None?
  {
    var stack := [root];
    var closest: Option<HitPoint> := None;
    assert stack[..0] == [];
    assert StackHits(accepts, n, tris, ray, stack) == [] + Reached(accepts, n, tris, ray, root) == Reached(accepts, n, tris, ray, root);
    while stack != []
      invariant StackIndicesBelow(stack, |tris|)
      invariant ScanFromEnd(closest, StackHits(accepts, n, tris, ray, stack)) == ScanFromEnd(None, Reached(accepts, n, tris, ray, root))
      decreases StackSize(stack)
    {
      var node := stack[|stack| - 1];
      PopTop(accepts, n, tris, ray, stack, closest);
      stack := stack[..|stack| - 1];
      if accepts(node.bbox) {
        if node.objectIdx.Some? {
          var idx := node.objectIdx.value;
          LeafStep(accepts, n, tris, ray, node, closest);
          var hit := TriangleIntersect(n, tris[idx], ray);
          if hit.Some? && (closest.None? || hit.value.t < closest.value.t) {
            closest := hit;
          }
        } else if node.left.Some? && node.right.Some? {
          var rest := stack;
          PushChildren(accepts, n, tris, ray, rest, node);
          stack := rest + [node.left.value, node.right.value];
        }
      }
    }
    r := closest;
    ScanIsLastNearest(Reached(accepts, n, tris, ray, root));
  }

  /** Popping the top of the stack: the popped subtree's hits are offered first. */
  lemma PopTop(accepts: Bounds -> bool, n: Numerics, tris: seq<Triangle>, ray: Ray, stack: seq<Node>, closest: Option<HitPoint>)
    requires stack != [] && StackIndicesBelow(stack, |tris|)
    ensures var rest, node := stack[..|stack| - 1], stack[|stack| - 1];
      && StackIndicesBelow(rest, |tris|) && IndicesBelow(node, |tris|)
      && ScanFromEnd(closest, StackHits(accepts, n, tris, ray, stack))
           == ScanFromEnd(ScanFromEnd(closest, Reached(accepts, n, tris, ray, node)), StackHits(accepts, n, tris, ray, rest))
      && StackSize(stack) == StackSize(rest) + Size(node)
  {
    var rest, node := stack[..|stack| - 1], stack[|stack| - 1];
    ScanConcat(closest, StackHits(accepts, n, tris, ray, rest), Reached(accepts, n, tris, ray, node));
  }

  /** Testing a reached leaf's triangle is one step of the scan. */
  lemma LeafStep(accepts: Bounds -> bool, n: Numerics, tris: seq<Triangle>, ray: Ray, node: Node, before: Option<HitPoint>)
    requires IndicesBelow(node, |tris|)
    requires accepts(node.bbox) && node.objectIdx.Some?
    ensures node.objectIdx.value < |tris|
    ensures var hit := TriangleIntersect(n, tris[node.objectIdx.value], ray);
      ScanFromEnd(before, Reached(accepts, n, tris, ray, node))
        == if hit.Some? && (before.None? || hit.value.t < before.value.t) then hit else before
  {
    assert Leaves(node)[0] == node.objectIdx.value;
    var hs := Reached(accepts, n, tris, ray, node);
    if hs != [] {
      assert hs[1..] == [];
    }
  }

  /** Replacing an accepting internal node on the stack by its two children keeps what is still to come. */
  lemma PushChildren(accepts: Bounds -> bool, n: Numerics, tris: seq<Triangle>, ray: Ray, rest: seq<Node>, node: Node)
    requires StackIndicesBelow(rest, |tris|) && IndicesBelow(node, |tris|)
    requires accepts(node.bbox) && node.objectIdx.None? && node.left.Some? && node.right.Some?
    ensures var stack := rest + [node.left.value, node.right.value];
      && StackIndicesBelow(stack, |tris|)
      && StackHits(accepts, n, tris, ray, stack) == StackHits(accepts, n, tris, ray, rest) + Reached(accepts, n, tris, ray, node)
      && StackSize(stack) < StackSize(rest) + Size(node)
  {
    IndicesBelowChildren(node, |tris|);
    var l, r := node.left.value, node.right.value;
    var stack := rest + [l, r];
    assert stack[..|stack| - 1] == rest + [l];
    assert (rest + [l])[..|rest|] == rest;
  }

  /**
   * `Object::intersects` for a mesh: the stack traversal from the root with
   * the slab test of the ray.
   */
  method MeshIntersects(n: Numerics, mesh: Mesh, ray: Ray) returns (r: Option<HitPoint>)
    requires Searchable(mesh)
    ensures r == ScanFromEnd(None, Reached(BoxTest(n, ray), n, mesh.triangles, ray, mesh.bvh.root))
    ensures !mesh.bvh.root.bbox.Intersects(n, ray) ==> r.None?
  {
    r := StackIntersect(BoxTest(n, ray), n, mesh.triangles, mesh.bvh.root, ray);
  }

  /** `Object::normal` for a mesh: always the zero vector. */
  function MeshNormal(mesh: Mesh, point: Vec3): (r: Vec3)
    ensures r == Vec3(0.0, 0.0, 0.0)
  {
    Zero
  }

  /**
   * The stack traversal and `recur_intersect` see the same reached hits:
   * both find a hit exactly when one exists, and at the same `t`. They can
   * return different hits of equal `t` (see `TieBreaks`).
   */
  lemma StackAgreesWithRecursion(n: Numerics, tris: seq<Triangle>, ray: Ray, root: Node)
    requires IndicesBelow(root, |tris|)
    ensures var s := ScanFromEnd(None, Reached(BoxTest(n, ray), n, tris, ray, root));
      var rc := RecurIntersect(n, tris, ray, root);
      && (s.None? <==> rc.None?)
      && (s.Some? ==> s.value.t == rc.value.t)
  {
    var hs := Reached(BoxTest(n, ray), n, tris, ray, root);
    var s := ScanFromEnd(None, hs);
    var rc := RecurIntersect(n, tris, ray, root);
    ScanIsLastNearest(hs);
    RecurIntersectIsFirstNearest(n, tris, ray, root);
    if s.Some? {
      var k1 :| LastNearestAt(hs, k1) && hs[k1] == s.value;
      var k2 :| FirstNearestAt(hs, k2) && hs[k2] == rc.value;
      assert hs[k1].t <= hs[k2].t && hs[k2].t <= hs[k1].t;
    }
  }

  /**
   * Of two reached hits at the same `t`, the stack traversal keeps the later
   * one in left-to-right order (the first popped), `recur_intersect` the
   * earlier one.
   */
  lemma TieBreaks(h1: HitPoint, h2: HitPoint)
    requires h1.t == h2.t
    ensures ScanFromEnd(None, [h1, h2]) == Some(h2)
    ensures NearerOf(Some(h1), Some(h2)) == Some(h1)
  {
    assert [h1, h2][1..] == [h2];
    assert [h2][1..] == [];
    assert ScanFromEnd(None, [h2]) == Some(h2);
  }

  /** `Iterator::min_by` on `t`: a later hit replaces the running minimum only when strictly nearer. */
  function MinBy(hs: seq<HitPoint>): (r: Option<HitPoint>)
    ensures IsFirstNearest(hs, r)
  {
    if hs == [] then None
    else
      assert FirstNearestAt([hs[0]], 0);
      MinByFromFirstNearest([hs[0]], 0, hs[1..]);
      assert [hs[0]] + hs[1..] == hs;
      Some(MinByFrom(hs[0], hs[1..]))
  }

  function MinByFrom(acc: HitPoint, hs: seq<HitPoint>): HitPoint
    decreases |hs|
  {
    if hs == [] then acc else MinByFrom(if hs[0].t < acc.t then hs[0] else acc, hs[1..])
  }

  lemma {:induction false} MinByFromFirstNearest(done: seq<HitPoint>, k: nat, rest: seq<HitPoint>)
    requires FirstNearestAt(done, k)
    decreases |rest|
    ensures exists j :: FirstNearestAt(done + rest, j) && (done + rest)[j] == MinByFrom(done[k], rest)
  {
    if rest == [] {
      assert done + rest == done;
    } else {
      var x := rest[0];
      var next := done + [x];
      assert next + rest[1..] == done + rest;
      if x.t < done[k].t {
        assert FirstNearestAt(next, |done|);
        MinByFromFirstNearest(next, |done|, rest[1..]);
      } else {
        assert FirstNearestAt(next, k);
        MinByFromFirstNearest(next, k, rest[1..]);
      }
    }
  }

  /** The hits reported by the triangles at the indices `idxs`, in that order. */
  function HitsAt(n: Numerics, tris: seq<Triangle>, ray: Ray, idxs: seq<nat>): seq<HitPoint>
    requires forall j :: 0 <= j < |idxs| ==> idxs[j] < |tris|
    decreases |idxs|
  {
    if idxs == [] then [] else LeafHits(n, tris, ray, idxs[0]) + HitsAt(n, tris, ray, idxs[1..])
  }

  /** The brute-force search over every triangle of the mesh, in list order. */
  function BruteForce(n: Numerics, tris: seq<Triangle>, ray: Ray): (r: Option<HitPoint>)
    ensures r.None? <==> forall i :: 0 <= i < |tris| ==> TriangleIntersect(n, tris[i], ray).None?
    ensures r.Some? ==> forall i :: 0 <= i < |tris| && TriangleIntersect(n, tris[i], ray).Some? ==>
                          r.value.t <= TriangleIntersect(n, tris[i], ray).value.t
    ensures r.Some? ==> exists i :: 0 <= i < |tris| && TriangleIntersect(n, tris[i], ray) == r
  {
    MinByOverTriangles(n, tris, ray);
    MinBy(HitsAt(n, tris, ray, Range(0, |tris|)))
  }

  /** The first nearest of the hits of all triangles is a triangle's hit no other triangle's hit beats. */
  lemma MinByOverTriangles(n: Numerics, tris: seq<Triangle>, ray: Ray)
    ensures var r := MinBy(HitsAt(n, tris, ray, Range(0, |tris|)));
      && (r.None? <==> forall i :: 0 <= i < |tris| ==> TriangleIntersect(n, tris[i], ray).None?)
      && (r.Some? ==> forall i :: 0 <= i < |tris| && TriangleIntersect(n, tris[i], ray).Some? ==>
                        r.value.t <= TriangleIntersect(n, tris[i], ray).value.t)
      && (r.Some? ==> exists i :: 0 <= i < |tris| && TriangleIntersect(n, tris[i], ray) == r)
  {
    var idxs := Range(0, |tris|);
    var hs := HitsAt(n, tris, ray, idxs);
    var r := MinBy(hs);
    if forall i :: 0 <= i < |tris| ==> TriangleIntersect(n, tris[i], ray).None? {
      HitsAtNone(n, tris, ray, idxs);
    } else {
      var i :| 0 <= i < |tris| && TriangleIntersect(n, tris[i], ray).Some?;
      HitsAtHas(n, tris, ray, idxs, i);
    }
    if r.Some? {
      var k :| FirstNearestAt(hs, k) && hs[k] == r.value;
      forall i | 0 <= i < |tris| && TriangleIntersect(n, tris[i], ray).Some?
        ensures r.value.t <= TriangleIntersect(n, tris[i], ray).value.t
      {
        HitsAtHas(n, tris, ray, idxs, i);
      }
      HitsAtFrom(n, tris, ray, idxs, k);
    }
  }

  /** The hit of the triangle at `idxs[j]`, if any, is among the hits collected over `idxs`. */
  lemma {:induction false} HitsAtHas(n: Numerics, tris: seq<Triangle>, ray: Ray, idxs: seq<nat>, j: nat)
    requires forall m :: 0 <= m < |idxs| ==> idxs[m] < |tris|
    requires j < |idxs|
    decreases j
    ensures TriangleIntersect(n, tris[idxs[j]], ray).Some? ==>
              TriangleIntersect(n, tris[idxs[j]], ray).value in HitsAt(n, tris, ray, idxs)
  {
    if j > 0 {
      HitsAtHas(n, tris, ray, idxs[1..], j - 1);
    }
  }

  /** Every hit collected over `idxs` is the hit of one of the triangles at those indices. */
  lemma {:induction false} HitsAtFrom(n: Numerics, tris: seq<Triangle>, ray: Ray, idxs: seq<nat>, k: nat)
    requires forall m :: 0 <= m < |idxs| ==> idxs[m] < |tris|
    requires k < |HitsAt(n, tris, ray, idxs)|
    decreases |idxs|
    ensures exists j :: 0 <= j < |idxs| && TriangleIntersect(n, tris[idxs[j]], ray) == Some(HitsAt(n, tris, ray, idxs)[k])
  {
    var head := LeafHits(n, tris, ray, idxs[0]);
    if k < |head| {
      assert TriangleIntersect(n, tris[idxs[0]], ray) == Some(HitsAt(n, tris, ray, idxs)[k]);
    } else {
      HitsAtFrom(n, tris, ray, idxs[1..], k - |head|);
      var j :| 0 <= j < |idxs[1..]| && TriangleIntersect(n, tris[idxs[1..][j]], ray) == Some(HitsAt(n, tris, ray, idxs[1..])[k - |head|]);
      assert idxs[1..][j] == idxs[j + 1];
    }
  }

  lemma {:induction false} HitsAtConcat(n: Numerics, tris: seq<Triangle>, ray: Ray, a: seq<nat>, b: seq<nat>)
    requires forall j :: 0 <= j < |a| ==> a[j] < |tris|
    requires forall j :: 0 <= j < |b| ==> b[j] < |tris|
    decreases |a|
    ensures HitsAt(n, tris, ray, a + b) == HitsAt(n, tris, ray, a) + HitsAt(n, tris, ray, b)
  {
    if a == [] {
      assert a + b == b;
    } else {
      assert (a + b)[1..] == a[1..] + b;
      HitsAtConcat(n, tris, ray, a[1..], b);
    }
  }

  lemma {:induction false} HitsAtNone(n: Numerics, tris: seq<Triangle>, ray: Ray, idxs: seq<nat>)
    requires forall j :: 0 <= j < |idxs| ==> idxs[j] < |tris| && TriangleIntersect(n, tris[idxs[j]], ray).None?
    decreases |idxs|
    ensures HitsAt(n, tris, ray, idxs) == []
  {
    if idxs != [] {
      HitsAtNone(n, tris, ray, idxs[1..]);
    }
  }

  /** The solver is exact on the system of this triangle and ray. */
  ghost predicate SolveExactFor(n: Numerics, tri: Triangle, ray: Ray) {
    SolvesExactly(n, tri.point1.Minus(tri.point2), tri.point1.Minus(tri.point3),
                  ray.direction, tri.point1.Minus(ray.origin))
  }

  /**
   * Exact arithmetic for this ray and mesh: exact reciprocals of the
   * direction's components (so none is zero) and an exact solver on every
   * triangle's system.
   */
  ghost predicate ExactFor(n: Numerics, tris: seq<Triangle>, ray: Ray) {
    && RecipExact(n, ray.direction.x) && RecipExact(n, ray.direction.y) && RecipExact(n, ray.direction.z)
    && forall i :: 0 <= i < |tris| ==> SolveExactFor(n, tris[i], ray)
  }

  /** One axis of a convex combination of three points inside a slab. */
  lemma ConvexAxis(lo: real, hi: real, a1: real, a2: real, a3: real, u: real, v: real, c: real)
    requires lo <= a1 <= hi && lo <= a2 <= hi && lo <= a3 <= hi
    requires u >= 0.0 && v >= 0.0 && 1.0 - u - v >= 0.0
    requires c == (1.0 - u - v) * a1 + u * a2 + v * a3
    ensures lo <= c <= hi
  {
    var w := 1.0 - u - v;
    Shifted(lo, a1, a2, a3, w, u, v);
    ProductNonneg(w, a1 - lo);
    ProductNonneg(u, a2 - lo);
    ProductNonneg(v, a3 - lo);
    Shifted(hi, a1, a2, a3, w, u, v);
    ProductNonneg(w, hi - a1);
    ProductNonneg(u, hi - a2);
    ProductNonneg(v, hi - a3);
  }

  lemma ProductNonneg(k: real, x: real)
    requires k >= 0.0 && x >= 0.0
    ensures k * x >= 0.0
  {
  }

  /** Shifting every point by `lo` shifts a combination whose weights sum to one by `lo`. */
  lemma Shifted(lo: real, a1: real, a2: real, a3: real, w: real, u: real, v: real)
    requires w + u + v == 1.0
    ensures w * a1 + u * a2 + v * a3 - lo == w * (a1 - lo) + u * (a2 - lo) + v * (a3 - lo)
  {
    assert w * (a1 - lo) == w * a1 - w * lo;
    assert u * (a2 - lo) == u * a2 - u * lo;
    assert v * (a3 - lo) == v * a3 - v * lo;
    assert w * lo + u * lo + v * lo == (w + u + v) * lo;
  }

  /** A box that encloses a triangle contains every point of it. */
  lemma BoxConvex(b: Bounds, tri: Triangle, u: real, v: real)
    requires b.Encloses(tri)
    requires u >= 0.0 && v >= 0.0 && 1.0 - u - v >= 0.0
    ensures b.Contains(Barycentric(tri, u, v))
  {
    ConvexX(b, tri, u, v);
    ConvexY(b, tri, u, v);
    ConvexZ(b, tri, u, v);
  }

  // ConvexX, ConvexY and ConvexZ are one argument written out per axis: with
  // the three axes in one proof obligation, the solver's nonlinear arithmetic
  // comes close to its resource limit on some seeds.
  lemma ConvexX(b: Bounds, tri: Triangle, u: real, v: real)
    requires b.Encloses(tri)
    requires u >= 0.0 && v >= 0.0 && 1.0 - u - v >= 0.0
    ensures b.min.x <= Barycentric(tri, u, v).x <= b.max.x
  {
    BarycentricAt(tri, u, v);
    ConvexAxis(b.min.x, b.max.x, tri.point1.x, tri.point2.x, tri.point3.x, u, v, Barycentric(tri, u, v).x);
  }

  lemma ConvexY(b: Bounds, tri: Triangle, u: real, v: real)
    requires b.Encloses(tri)
    requires u >= 0.0 && v >= 0.0 && 1.0 - u - v >= 0.0
    ensures b.min.y <= Barycentric(tri, u, v).y <= b.max.y
  {
    BarycentricAt(tri, u, v);
    ConvexAxis(b.min.y, b.max.y, tri.point1.y, tri.point2.y, tri.point3.y, u, v, Barycentric(tri, u, v).y);
  }

  lemma ConvexZ(b: Bounds, tri: Triangle, u: real, v: real)
    requires b.Encloses(tri)
    requires u >= 0.0 && v >= 0.0 && 1.0 - u - v >= 0.0
    ensures b.min.z <= Barycentric(tri, u, v).z <= b.max.z
  {
    BarycentricAt(tri, u, v);
    ConvexAxis(b.min.z, b.max.z, tri.point1.z, tri.point2.z, tri.point3.z, u, v, Barycentric(tri, u, v).z);
  }

  /** The three coordinates of the point with weights `(1 - u - v, u, v)` on the corners. */
  lemma BarycentricAt(tri: Triangle, u: real, v: real)
    ensures var q, w := Barycentric(tri, u, v), 1.0 - u - v;
      && q.x == w * tri.point1.x + u * tri.point2.x + v * tri.point3.x
      && q.y == w * tri.point1.y + u * tri.point2.y + v * tri.point3.y
      && q.z == w * tri.point1.z + u * tri.point2.z + v * tri.point3.z
  {
  }

  /** With exact arithmetic, a box enclosing a triangle that the ray hits passes the slab test. */
  lemma HitTriangleBoxAccepts(n: Numerics, b: Bounds, tri: Triangle, ray: Ray)
    requires b.Encloses(tri) && SolveExactFor(n, tri, ray)
    requires RecipExact(n, ray.direction.x) && RecipExact(n, ray.direction.y) && RecipExact(n, ray.direction.z)
    requires TriangleIntersect(n, tri, ray).Some?
    ensures b.Intersects(n, ray)
  {
    TriangleHitInside(n, tri, ray);
    var uvt := SolvePlane(n, tri.point1, tri.point2, tri.point3, ray).value;
    BoxConvex(b, tri, uvt.x, uvt.y);
    IntersectsWhenPointAhead(n, b, ray, uvt.z);
  }

  /**
   * With exact arithmetic, the slab tests of an enclosing hierarchy prune
   * only leaves whose triangles the ray misses: the reached hits are the
   * hits of all leaves, in order.
   */
  lemma {:induction false} ReachedAllHits(n: Numerics, tris: seq<Triangle>, ray: Ray, node: Node)
    requires IndicesBelow(node, |tris|) && Enclosing(node, tris) && ExactFor(n, tris, ray)
    decreases node
    ensures Reached(BoxTest(n, ray), n, tris, ray, node) == HitsAt(n, tris, ray, Leaves(node))
  {
    var idxs := Leaves(node);
    if !node.bbox.Intersects(n, ray) {
      forall j | 0 <= j < |idxs|
        ensures idxs[j] < |tris| && TriangleIntersect(n, tris[idxs[j]], ray).None?
      {
        if TriangleIntersect(n, tris[idxs[j]], ray).Some? {
          HitTriangleBoxAccepts(n, node.bbox, tris[idxs[j]], ray);
        }
      }
      HitsAtNone(n, tris, ray, idxs);
    } else if node.objectIdx.Some? {
      assert idxs[1..] == [];
    } else if node.left.Some? && node.right.Some? {
      IndicesBelowChildren(node, |tris|);
      var l, r := node.left.value, node.right.value;
      ReachedAllHits(n, tris, ray, l);
      ReachedAllHits(n, tris, ray, r);
      HitsAtConcat(n, tris, ray, Leaves(l), Leaves(r));
    }
  }

  /**
   * The mesh query with the hierarchy equals the brute-force search over all
   * triangles in `t` (the brute force keeps the first of equal hits, the
   * traversal the last), when the arithmetic is exact.
   */
  lemma StackAgreesWithBruteForce(n: Numerics, mesh: Mesh, ray: Ray)
    requires BuiltOver(mesh.bvh.root, mesh.triangles, 0, |mesh.triangles|)
    requires ExactFor(n, mesh.triangles, ray)
    ensures Searchable(mesh)
    ensures var s := ScanFromEnd(None, Reached(BoxTest(n, ray), n, mesh.triangles, ray, mesh.bvh.root));
      var bf := BruteForce(n, mesh.triangles, ray);
      && (s.None? <==> bf.None?)
      && (s.Some? ==> s.value.t == bf.value.t)
  {
    var tris, root := mesh.triangles, mesh.bvh.root;
    BuiltIsSearchable(tris, root);
    ReachedAllHits(n, tris, ray, root);
    var hs := Reached(BoxTest(n, ray), n, tris, ray, root);
    assert hs == HitsAt(n, tris, ray, Range(0, |tris|));
    var s := ScanFromEnd(None, hs);
    var bf := BruteForce(n, tris, ray);
    ScanIsLastNearest(hs);
    if s.Some? {
      var k1 :| LastNearestAt(hs, k1) && hs[k1] == s.value;
      var k2 :| FirstNearestAt(hs, k2) && hs[k2] == bf.value;
      assert hs[k1].t <= hs[k2].t && hs[k2].t <= hs[k1].t;
    }
  }
}
