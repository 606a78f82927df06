/**
 * Axis-aligned boxes and the bounding-volume hierarchy over a mesh's
 * triangles: the box that `extend` grows in place, the slab test, the
 * recursive builder that halves the triangle range in input order, and the
 * recursive nearest-hit query.
 *
 * Nodes own an index into the mesh's triangle sequence rather than a copy of
 * the triangle.
 */
module DataStructures {
  import opened Vectors
  import opened Primitives

  /** The value of an `AlignedBox3d`: its two corners. */
  datatype Bounds = Bounds(min: Vec3, max: Vec3) {

    predicate Contains(p: Vec3) {
      && min.x <= p.x <= max.x
      && min.y <= p.y <= max.y
      && min.z <= p.z <= max.z
    }

    /** The box grown by one point: a component-wise min/max with it. */
    function Extend(p: Vec3): (r: Bounds)
      ensures r.Contains(p)
      ensures forall q :: Contains(q) ==> r.Contains(q)
    {
      Bounds(min.MinWith(p), max.MaxWith(p))
    }

    function ExtendTriangle(tri: Triangle): (r: Bounds)
      ensures r.Encloses(tri)
      ensures forall q :: Contains(q) ==> r.Contains(q)
    {
      Extend(tri.point1).Extend(tri.point2).Extend(tri.point3)
    }

    predicate Encloses(tri: Triangle) {
      Contains(tri.point1) && Contains(tri.point2) && Contains(tri.point3)
    }

    /**
     * `AlignedBox3d::intersects`: the slab test, with the reciprocal of each
     * direction component taken from `n.recip`.
     */
    predicate Intersects(n: Numerics, ray: Ray) {
      var o, d := ray.origin, ray.direction;
      SlabTest((min.x - o.x) * n.recip(d.x), (max.x - o.x) * n.recip(d.x),
               (min.y - o.y) * n.recip(d.y), (max.y - o.y) * n.recip(d.y),
               (min.z - o.z) * n.recip(d.z), (max.z - o.z) * n.recip(d.z))
    }
  }

  /**
   * The last step of the slab test on the six plane crossings: the entry
   * `tmin` is the largest per-axis entry, the exit `tmax` the smallest
   * per-axis exit, and the box is missed when `tmax < 0` or `tmin > tmax`.
   */
  predicate SlabTest(tx1: real, tx2: real, ty1: real, ty2: real, tz1: real, tz2: real): (r: bool)
    ensures r <==>
      var t := Max(Max(Max(Min(tx1, tx2), Min(ty1, ty2)), Min(tz1, tz2)), 0.0);
      Brackets(tx1, tx2, t) && Brackets(ty1, ty2, t) && Brackets(tz1, tz2, t)
  {
    var tmin := Max(Max(Min(tx1, tx2), Min(ty1, ty2)), Min(tz1, tz2));
    var tmax := Min(Min(Max(tx1, tx2), Max(ty1, ty2)), Max(tz1, tz2));
    !(tmax < 0.0 || tmin > tmax)
  }

  /** The bounds of the default box, whose corners are both the zero vector. */
  const DefaultBounds := Bounds(Zero, Zero)

  /** The box an `AlignedBox3d` holds while the builder extends it in place. */
  class AlignedBox3d {
    var min: Vec3
    var max: Vec3

    function Value(): Bounds
      reads this
    {
      Bounds(min, max)
    }

    /** `#[derive(Default)]`: both corners are the zero vector, so the box contains the origin. */
    constructor Default()
      ensures Value() == DefaultBounds
      ensures Value().Contains(Zero)
    {
      min, max := Zero, Zero;
    }

    constructor (min: Vec3, max: Vec3)
      ensures Value() == Bounds(min, max)
    {
      this.min, this.max := min, max;
    }

    method Extend(point: Vec3)
      modifies this
      ensures Value() == old(Value()).Extend(point)
      ensures Value().Contains(point)
      ensures forall q :: old(Value()).Contains(q) ==> Value().Contains(q)
    {
      min := Vec3(Min(min.x, point.x), Min(min.y, point.y), Min(min.z, point.z));
      max := Vec3(Max(max.x, point.x), Max(max.y, point.y), Max(max.z, point.z));
    }

    method ExtendTriangle(tri: Triangle)
      modifies this
      ensures Value() == old(Value()).ExtendTriangle(tri)
      ensures Value().Encloses(tri)
      ensures forall q :: old(Value()).Contains(q) ==> Value().Contains(q)
    {
      Extend(tri.point1);
      Extend(tri.point2);
      Extend(tri.point3);
    }
  }

  /**
   * The box the builder's loop computes for a run of triangles: the default
   * box extended by each triangle in turn.
   */
  function BoundsOf(tris: seq<Triangle>): Bounds {
    if tris == [] then DefaultBounds
    else BoundsOf(tris[..|tris| - 1]).ExtendTriangle(tris[|tris| - 1])
  }

  /** The folded box contains the origin and every vertex of every triangle. */
  lemma {:induction false} BoundsOfEncloses(tris: seq<Triangle>)
    ensures BoundsOf(tris).Contains(Zero)
    ensures forall i :: 0 <= i < |tris| ==> BoundsOf(tris).Encloses(tris[i])
  {
    if tris != [] {
      var init := tris[..|tris| - 1];
      BoundsOfEncloses(init);
      forall i | 0 <= i < |tris|
        ensures BoundsOf(tris).Encloses(tris[i])
      {
        if i < |tris| - 1 {
          assert tris[i] == init[i];
        }
      }
    }
  }

  /**
   * The folded box is the smallest one containing the origin and all the
   * vertices: any such box contains both of its corners.
   */
  lemma {:induction false} BoundsOfLeast(tris: seq<Triangle>, b: Bounds)
    requires b.Contains(Zero)
    requires forall i :: 0 <= i < |tris| ==> b.Encloses(tris[i])
    ensures b.Contains(BoundsOf(tris).min) && b.Contains(BoundsOf(tris).max)
  {
    if tris != [] {
      var init := tris[..|tris| - 1];
      forall i | 0 <= i < |init|
        ensures b.Encloses(init[i])
      {
        assert init[i] == tris[i];
      }
      BoundsOfLeast(init, b);
      assert b.Encloses(tris[|tris| - 1]);
    }
  }

  /**
   * `AABBNode`: a box, two optional children and an optional triangle index.
   * The builder makes leaves (index, no children) and internal nodes (two
   * children, no index); the queries also accept any other combination.
   */
  datatype Node = Node(bbox: Bounds, left: Option<Node>, right: Option<Node>, objectIdx: Option<nat>)

  datatype BVH = BVH(root: Node)

  predicate IsLeaf(node: Node) {
    node.objectIdx.Some? && node.left.None? && node.right.None?
  }

  predicate IsInternal(node: Node) {
    node.objectIdx.None? && node.left.Some? && node.right.Some?
  }

  /** Every node is a leaf or an internal node. */
  predicate WellFormed(node: Node)
    decreases node
  {
    IsLeaf(node) ||
    (IsInternal(node) && WellFormed(node.left.value) && WellFormed(node.right.value))
  }

  /** The nodes of the tree, as the size measure of the traversal. */
  function Size(node: Node): nat
    decreases node
  {
    1 + (if node.left.Some? then Size(node.left.value) else 0)
      + (if node.right.Some? then Size(node.right.value) else 0)
  }

  /**
   * The triangle indices the queries can reach, left to right: a node with an
   * index is treated as a leaf, a node with both children as internal.
   */
  function Leaves(node: Node): seq<nat>
    decreases node
  {
    if node.objectIdx.Some? then [node.objectIdx.value]
    else if node.left.Some? && node.right.Some? then Leaves(node.left.value) + Leaves(node.right.value)
    else []
  }

  function InternalCount(node: Node): nat
    decreases node
  {
    if node.objectIdx.Some? then 0
    else if node.left.Some? && node.right.Some? then
      1 + InternalCount(node.left.value) + InternalCount(node.right.value)
    else 0
  }

  /** Every reachable index is valid for a mesh of `count` triangles. */
  predicate IndicesBelow(node: Node, count: nat) {
    forall j :: 0 <= j < |Leaves(node)| ==> Leaves(node)[j] < count
  }

  lemma IndicesBelowChildren(node: Node, count: nat)
    requires IndicesBelow(node, count) && node.objectIdx.None? && node.left.Some? && node.right.Some?
    ensures IndicesBelow(node.left.value, count) && IndicesBelow(node.right.value, count)
  {
    var l, r := Leaves(node.left.value), Leaves(node.right.value);
    assert Leaves(node) == l + r;
    forall j | 0 <= j < |l| ensures l[j] < count {
      assert l[j] == Leaves(node)[j];
    }
    forall j | 0 <= j < |r| ensures r[j] < count {
      assert r[j] == Leaves(node)[|l| + j];
    }
  }

  /**
   * Every node's box contains the origin and every vertex of every triangle
   * below it.
   */
  predicate Enclosing(node: Node, tris: seq<Triangle>)
    decreases node
  {
    && node.bbox.Contains(Zero)
    && (forall j :: 0 <= j < |Leaves(node)| ==>
          Leaves(node)[j] < |tris| && node.bbox.Encloses(tris[Leaves(node)[j]]))
    && (node.left.Some? ==> Enclosing(node.left.value, tris))
    && (node.right.Some? ==> Enclosing(node.right.value, tris))
  }

  /** The indices `lo, lo + 1, ..., hi - 1`. */
  function Range(lo: nat, hi: nat): (r: seq<nat>)
    requires lo <= hi
    ensures |r| == hi - lo && forall j :: 0 <= j < |r| ==> r[j] == lo + j
  {
    seq(hi - lo, j requires 0 <= j < hi - lo => lo + j)
  }

  /** The loop of `create_node` that extends a default box by each triangle of the slice. */
  method FoldBounds(triangles: seq<Triangle>, lo: nat, hi: nat) returns (box: Bounds)
    requires lo <= hi <= |triangles|
    ensures box == BoundsOf(triangles[lo..hi])
    ensures box.Contains(Zero)
    ensures forall i :: lo <= i < hi ==> box.Encloses(triangles[i])
  {
    var bbox := new AlignedBox3d.Default();
    var i := lo;
    while i < hi
      invariant lo <= i <= hi
      invariant bbox.Value() == BoundsOf(triangles[lo..i])
    {
      BoundsOfStep(triangles, lo, i);
      bbox.ExtendTriangle(triangles[i]);
      i := i + 1;
    }
    box := bbox.Value();
    BoundsOfSlice(triangles, lo, hi);
  }

  /** Folding one more triangle into the box of a slice. */
  lemma BoundsOfStep(triangles: seq<Triangle>, lo: nat, i: nat)
    requires lo <= i < |triangles|
    ensures BoundsOf(triangles[lo..i + 1]) == BoundsOf(triangles[lo..i]).ExtendTriangle(triangles[i])
  {
    assert triangles[lo..i + 1][..i - lo] == triangles[lo..i];
  }

  lemma BoundsOfSlice(triangles: seq<Triangle>, lo: nat, hi: nat)
    requires lo <= hi <= |triangles|
    ensures BoundsOf(triangles[lo..hi]).Contains(Zero)
    ensures forall i :: lo <= i < hi ==> BoundsOf(triangles[lo..hi]).Encloses(triangles[i])
  {
    BoundsOfEncloses(triangles[lo..hi]);
    forall i | lo <= i < hi ensures BoundsOf(triangles[lo..hi]).Encloses(triangles[i]) {
      assert triangles[i] == triangles[lo..hi][i - lo];
    }
  }

  /** What `create_node` promises of the tree it builds over `triangles[lo..hi]`. */
  predicate BuiltOver(node: Node, triangles: seq<Triangle>, lo: nat, hi: nat)
    requires lo <= hi <= |triangles|
  {
    && WellFormed(node)
    && (IsLeaf(node) <==> hi - lo == 1)
    && Leaves(node) == Range(lo, hi)
    && InternalCount(node) == hi - lo - 1
    && node.bbox == BoundsOf(triangles[lo..hi])
    && Enclosing(node, triangles)
  }

  /**
   * The shape `create_node` gives the tree over `triangles[lo..hi]`: every
   * node's box is the fold of its own slice, a single triangle makes a leaf
   * holding its index, and a longer slice is split at `len / 2` into a left
   * subtree over the first half and a right subtree over the rest.
   */
  predicate Halved(node: Node, triangles: seq<Triangle>, lo: nat, hi: nat)
    requires lo <= hi <= |triangles|
    decreases hi - lo
  {
    && node.bbox == BoundsOf(triangles[lo..hi])
    && if hi - lo == 1 then
         node.objectIdx == Some(lo) && node.left.None? && node.right.None?
       else
         var mid := lo + (hi - lo) / 2;
         && hi - lo >= 2
         && node.objectIdx.None? && node.left.Some? && node.right.Some?
         && Halved(node.left.value, triangles, lo, mid)
         && Halved(node.right.value, triangles, mid, hi)
  }

  /** Joining the trees built over the two halves of a range under the box of their union. */
  lemma JoinBuilt(triangles: seq<Triangle>, lo: nat, mid: nat, hi: nat, box: Bounds, left: Node, right: Node)
    requires lo < mid < hi <= |triangles| && mid == lo + (hi - lo) / 2
    requires BuiltOver(left, triangles, lo, mid) && BuiltOver(right, triangles, mid, hi)
    requires box == BoundsOf(triangles[lo..hi]) && box.Contains(Zero)
    requires forall i :: lo <= i < hi ==> box.Encloses(triangles[i])
    ensures BuiltOver(Node(box, Some(left), Some(right), None), triangles, lo, hi)
  {
    var node := Node(box, Some(left), Some(right), None);
    assert Leaves(node) == Range(lo, mid) + Range(mid, hi);
    assert Leaves(node) == Range(lo, hi);
    forall j | 0 <= j < |Leaves(node)|
      ensures Leaves(node)[j] < |triangles| && node.bbox.Encloses(triangles[Leaves(node)[j]])
    {
      assert Leaves(node)[j] == lo + j;
    }
  }

  /** The same join keeps the halving shape: each subtree's box is its own half's fold. */
  lemma JoinHalved(triangles: seq<Triangle>, lo: nat, mid: nat, hi: nat, box: Bounds, left: Node, right: Node)
    requires lo + 2 <= hi <= |triangles| && mid == lo + (hi - lo) / 2
    requires Halved(left, triangles, lo, mid) && Halved(right, triangles, mid, hi)
    requires box == BoundsOf(triangles[lo..hi])
    ensures Halved(Node(box, Some(left), Some(right), None), triangles, lo, hi)
  {
  }

  /**
   * `BVH::create_node` on the slice `triangles[lo..hi]`: fold the slice into
   * a default box, make a leaf for one triangle, or split at `len / 2` in
   * input order and recurse on both halves. An empty slice panics.
   */
  method CreateNode(triangles: seq<Triangle>, lo: nat, hi: nat) returns (r: Result<Node>)
    requires lo <= hi <= |triangles|
    decreases hi - lo
    ensures r.Panic? <==> lo == hi
    ensures r.Ok? ==> BuiltOver(r.value, triangles, lo, hi)
    ensures r.Ok? ==> Halved(r.value, triangles, lo, hi)
  {
    if lo == hi {
      return Panic("Cannot create an AABBNode with no triangles.");
    }
    var box := FoldBounds(triangles, lo, hi);
    if hi - lo == 1 {
      var leaf := Node(box, None, None, Some(lo));
      assert Leaves(leaf) == Range(lo, hi);
      return Ok(leaf);
    }
    var mid := lo + (hi - lo) / 2;
    var left := CreateNode(triangles, lo, mid);
    var right := CreateNode(triangles, mid, hi);
    JoinBuilt(triangles, lo, mid, hi, box, left.value, right.value);
    JoinHalved(triangles, lo, mid, hi, box, left.value, right.value);
    r := Ok(Node(box, Some(left.value), Some(right.value), None));
  }

  /** `BVH::new`: the tree over all of the triangles. */
  method BvhNew(triangles: seq<Triangle>) returns (r: Result<BVH>)
    ensures r.Panic? <==> triangles == []
    ensures r.Ok? ==> BuiltOver(r.value.root, triangles, 0, |triangles|)
    ensures r.Ok? ==> Halved(r.value.root, triangles, 0, |triangles|)
    ensures r.Ok? ==> r.value.root.bbox == BoundsOf(triangles)
  {
    var root := CreateNode(triangles, 0, |triangles|);
    assert triangles[0..|triangles|] == triangles;
    if root.Panic? {
      return Panic(root.reason);
    }
    return Ok(BVH(root.value));
  }

  /** `min_by` on `t` over the left result, then the right: ties keep the left. */
  function NearerOf(a: Option<HitPoint>, b: Option<HitPoint>): (r: Option<HitPoint>)
    ensures r.None? <==> a.None? && b.None?
    ensures r.Some? ==> r == a || r == b
    ensures a.Some? && r.Some? ==> r.value.t <= a.value.t
    ensures b.Some? && r.Some? ==> r.value.t <= b.value.t
    ensures a.Some? && b.Some? && a.value.t <= b.value.t ==> r == a
  {
    match (a, b)
    case (None, _) => b
    case (_, None) => a
    case (Some(x), Some(y)) => if y.t < x.t then b else a
  }

  /** The hit a leaf's triangle reports, as a sequence of zero or one hits. */
  function LeafHits(n: Numerics, tris: seq<Triangle>, ray: Ray, i: nat): seq<HitPoint>
    requires i < |tris|
  {
    match TriangleIntersect(n, tris[i], ray)
    case Some(h) => [h]
    case None => []
  }

  /** The box test of a ray, as a function of the box. */
  function BoxTest(n: Numerics, ray: Ray): Bounds -> bool {
    (b: Bounds) => b.Intersects(n, ray)
  }

  /**
   * The hits of the leaves reached through ancestors whose boxes `accepts`
   * (the leaf's own box included), left to right.
   */
  function Reached(accepts: Bounds -> bool, n: Numerics, tris: seq<Triangle>, ray: Ray, node: Node): seq<HitPoint>
    requires IndicesBelow(node, |tris|)
    decreases node
  {
    if !accepts(node.bbox) then []
    else if node.objectIdx.Some? then
      assert Leaves(node)[0] == node.objectIdx.value;
      LeafHits(n, tris, ray, node.objectIdx.value)
    else if node.left.Some? && node.right.Some? then
      IndicesBelowChildren(node, |tris|);
      Reached(accepts, n, tris, ray, node.left.value) + Reached(accepts, n, tris, ray, node.right.value)
    else []
  }

  /** `recur_intersect`. */
  function RecurIntersect(n: Numerics, tris: seq<Triangle>, ray: Ray, node: Node): (r: Option<HitPoint>)
    requires IndicesBelow(node, |tris|)
    decreases node
    ensures !node.bbox.Intersects(n, ray) ==> r.None?
    ensures node.objectIdx.None? && (node.left.None? || node.right.None?) ==> r.None?
    ensures r.Some? ==>
      && r.value.t >= Epsilon
      && r.value.point == ray.At(r.value.t)
      && r.value.normal.Dot(ray.direction) <= 0.0
  {
    if !node.bbox.Intersects(n, ray) then None
    else if node.objectIdx.Some? then
      assert Leaves(node)[0] == node.objectIdx.value;
      TriangleIntersect(n, tris[node.objectIdx.value], ray)
    else if node.left.Some? && node.right.Some? then
      IndicesBelowChildren(node, |tris|);
      NearerOf(RecurIntersect(n, tris, ray, node.left.value), RecurIntersect(n, tris, ray, node.right.value))
    else None
  }

  /** `hs[k]` has the least `t` of `hs`. */
  predicate NearestAt(hs: seq<HitPoint>, k: int) {
    0 <= k < |hs| && forall j :: 0 <= j < |hs| ==> hs[k].t <= hs[j].t
  }

  /** `hs[k]` is the first hit with the least `t`. */
  predicate FirstNearestAt(hs: seq<HitPoint>, k: int) {
    NearestAt(hs, k) && forall j :: 0 <= j < k ==> hs[k].t < hs[j].t
  }

  /** `hs[k]` is the last hit with the least `t`. */
  predicate LastNearestAt(hs: seq<HitPoint>, k: int) {
    NearestAt(hs, k) && forall j :: k < j < |hs| ==> hs[k].t < hs[j].t
  }

  /** `r` is the first nearest hit of `hs`, or nothing when `hs` is empty. */
  ghost predicate IsFirstNearest(hs: seq<HitPoint>, r: Option<HitPoint>) {
    && (r.None? <==> hs == [])
    && (r.Some? ==> exists k :: FirstNearestAt(hs, k) && hs[k] == r.value)
  }

  /** Preferring the left on ties keeps the first nearest hit of the concatenation. */
  lemma NearerOfConcat(hl: seq<HitPoint>, hr: seq<HitPoint>, a: Option<HitPoint>, b: Option<HitPoint>)
    requires IsFirstNearest(hl, a) && IsFirstNearest(hr, b)
    ensures IsFirstNearest(hl + hr, NearerOf(a, b))
  {
    if a.Some? && (b.None? || a.value.t <= b.value.t) {
      var k :| FirstNearestAt(hl, k) && hl[k] == a.value;
      if b.Some? {
        var kr :| FirstNearestAt(hr, kr) && hr[kr] == b.value;
      }
      FirstNearestInPrefix(hl, hr, k);
    } else if b.Some? {
      var k :| FirstNearestAt(hr, k) && hr[k] == b.value;
      if a.Some? {
        var kl :| FirstNearestAt(hl, kl) && hl[kl] == a.value;
      }
      FirstNearestInSuffix(hl, hr, k);
    }
  }

  /** A first nearest hit of the left part that no right hit beats is first nearest overall. */
  lemma FirstNearestInPrefix(hl: seq<HitPoint>, hr: seq<HitPoint>, k: int)
    requires FirstNearestAt(hl, k)
    requires forall j :: 0 <= j < |hr| ==> hl[k].t <= hr[j].t
    ensures FirstNearestAt(hl + hr, k) && (hl + hr)[k] == hl[k]
  {
  }

  /** A first nearest hit of the right part strictly below every left hit is first nearest overall. */
  lemma FirstNearestInSuffix(hl: seq<HitPoint>, hr: seq<HitPoint>, k: int)
    requires FirstNearestAt(hr, k)
    requires forall j :: 0 <= j < |hl| ==> hr[k].t < hl[j].t
    ensures FirstNearestAt(hl + hr, |hl| + k) && (hl + hr)[|hl| + k] == hr[k]
  {
  }

  /**
   * `recur_intersect` returns no hit exactly when no reached leaf reports one,
   * and otherwise the leftmost reached hit of least `t`.
   */
  lemma {:induction false} RecurIntersectIsFirstNearest(n: Numerics, tris: seq<Triangle>, ray: Ray, node: Node)
    requires IndicesBelow(node, |tris|)
    decreases node
    ensures IsFirstNearest(Reached(BoxTest(n, ray), n, tris, ray, node), RecurIntersect(n, tris, ray, node))
  {
    if node.bbox.Intersects(n, ray) {
      if node.objectIdx.Some? {
        var hs := Reached(BoxTest(n, ray), n, tris, ray, node);
        if hs != [] {
          assert FirstNearestAt(hs, 0);
        }
      } else if node.left.Some? && node.right.Some? {
        IndicesBelowChildren(node, |tris|);
        var l, rt := node.left.value, node.right.value;
        RecurIntersectIsFirstNearest(n, tris, ray, l);
        RecurIntersectIsFirstNearest(n, tris, ray, rt);
        NearerOfConcat(Reached(BoxTest(n, ray), n, tris, ray, l), Reached(BoxTest(n, ray), n, tris, ray, rt),
                       RecurIntersect(n, tris, ray, l), RecurIntersect(n, tris, ray, rt));
      }
    }
  }

  /** `t` lies between the two crossings `t1` and `t2`, in either order. */
  predicate Brackets(t1: real, t2: real, t: real) {
    Min(t1, t2) <= t <= Max(t1, t2)
  }

  /** One axis of the slab test: the parameter of a point inside the slab lies between the two crossings. */
  lemma SlabAxis(lo: real, hi: real, o: real, d: real, inv: real, t: real)
    requires inv * d == 1.0
    requires lo <= o + t * d && o + t * d <= hi
    ensures Min((lo - o) * inv, (hi - o) * inv) <= t <= Max((lo - o) * inv, (hi - o) * inv)
  {
    assert d * inv == 1.0;
    assert t == (t * d) * inv;
    if d > 0.0 {
      assert inv > 0.0;
      assert (lo - o) * inv <= (t * d) * inv;
      assert (t * d) * inv <= (hi - o) * inv;
    } else {
      assert inv < 0.0;
      assert (lo - o) * inv >= (t * d) * inv;
      assert (t * d) * inv >= (hi - o) * inv;
    }
  }

  /**
   * With exact reciprocals of a direction that has no zero component, the
   * slab test accepts every ray that passes through a point of the box at a
   * non-negative parameter.
   */
  lemma IntersectsWhenPointAhead(n: Numerics, b: Bounds, ray: Ray, t: real)
    requires RecipExact(n, ray.direction.x) && RecipExact(n, ray.direction.y) && RecipExact(n, ray.direction.z)
    requires t >= 0.0 && b.Contains(ray.At(t))
    ensures b.Intersects(n, ray)
  {
    ContainsAlong(b, ray, t);
    var tx1, tx2 := CrossingsX(n, b, ray, t);
    var ty1, ty2 := CrossingsY(n, b, ray, t);
    var tz1, tz2 := CrossingsZ(n, b, ray, t);
    SlabsOverlap(tx1, tx2, ty1, ty2, tz1, tz2, t);
    IntersectsFromCrossings(n, b, ray, tx1, tx2, ty1, ty2, tz1, tz2);
  }

  /** A box contains a point exactly when extending it by that point leaves it unchanged. */
  lemma ContainsIffExtendKeeps(b: Bounds, p: Vec3)
    ensures b.Contains(p) <==> b.Extend(p) == b
  {
    if b.Extend(p) == b {
      assert b.Extend(p).Contains(p);
    }
  }

  // CrossingsX, CrossingsY and CrossingsZ are one argument written out per
  // axis: with the three axes in one proof obligation the solver's
  // nonlinear arithmetic runs out of resource.

  /** The two crossings of the X slab bracket `t`. */
  lemma CrossingsX(n: Numerics, b: Bounds, ray: Ray, t: real) returns (t1: real, t2: real)
    requires RecipExact(n, ray.direction.x)
    requires b.min.x <= ray.origin.x + t * ray.direction.x <= b.max.x
    ensures t1 == (b.min.x - ray.origin.x) * n.recip(ray.direction.x)
    ensures t2 == (b.max.x - ray.origin.x) * n.recip(ray.direction.x)
    ensures Brackets(t1, t2, t)
  {
    t1, t2 := CrossingsAround(n, b.min.x, b.max.x, ray.origin.x, ray.direction.x, t);
  }

  /** The two crossings of the Y slab bracket `t`. */
  lemma CrossingsY(n: Numerics, b: Bounds, ray: Ray, t: real) returns (t1: real, t2: real)
    requires RecipExact(n, ray.direction.y)
    requires b.min.y <= ray.origin.y + t * ray.direction.y <= b.max.y
    ensures t1 == (b.min.y - ray.origin.y) * n.recip(ray.direction.y)
    ensures t2 == (b.max.y - ray.origin.y) * n.recip(ray.direction.y)
    ensures Brackets(t1, t2, t)
  {
    t1, t2 := CrossingsAround(n, b.min.y, b.max.y, ray.origin.y, ray.direction.y, t);
  }

  /** The two crossings of the Z slab bracket `t`. */
  lemma CrossingsZ(n: Numerics, b: Bounds, ray: Ray, t: real) returns (t1: real, t2: real)
    requires RecipExact(n, ray.direction.z)
    requires b.min.z <= ray.origin.z + t * ray.direction.z <= b.max.z
    ensures t1 == (b.min.z - ray.origin.z) * n.recip(ray.direction.z)
    ensures t2 == (b.max.z - ray.origin.z) * n.recip(ray.direction.z)
    ensures Brackets(t1, t2, t)
  {
    t1, t2 := CrossingsAround(n, b.min.z, b.max.z, ray.origin.z, ray.direction.z, t);
  }

  lemma IntersectsFromCrossings(n: Numerics, b: Bounds, ray: Ray,
                                tx1: real, tx2: real, ty1: real, ty2: real, tz1: real, tz2: real)
    requires tx1 == (b.min.x - ray.origin.x) * n.recip(ray.direction.x)
    requires tx2 == (b.max.x - ray.origin.x) * n.recip(ray.direction.x)
    requires ty1 == (b.min.y - ray.origin.y) * n.recip(ray.direction.y)
    requires ty2 == (b.max.y - ray.origin.y) * n.recip(ray.direction.y)
    requires tz1 == (b.min.z - ray.origin.z) * n.recip(ray.direction.z)
    requires tz2 == (b.max.z - ray.origin.z) * n.recip(ray.direction.z)
    requires SlabTest(tx1, tx2, ty1, ty2, tz1, tz2)
    ensures b.Intersects(n, ray)
  {
  }

  lemma ContainsAlong(b: Bounds, ray: Ray, t: real)
    requires b.Contains(ray.At(t))
    ensures b.min.x <= ray.origin.x + t * ray.direction.x <= b.max.x
    ensures b.min.y <= ray.origin.y + t * ray.direction.y <= b.max.y
    ensures b.min.z <= ray.origin.z + t * ray.direction.z <= b.max.z
  {
  }

  /** The two plane crossings of one axis, which bracket the parameter of a point inside the slab. */
  lemma CrossingsAround(n: Numerics, lo: real, hi: real, o: real, d: real, t: real) returns (t1: real, t2: real)
    requires RecipExact(n, d)
    requires lo <= o + t * d <= hi
    ensures t1 == (lo - o) * n.recip(d) && t2 == (hi - o) * n.recip(d)
    ensures Brackets(t1, t2, t)
  {
    SlabAxis(lo, hi, o, d, n.recip(d), t);
    t1, t2 := (lo - o) * n.recip(d), (hi - o) * n.recip(d);
  }

  /** Three slabs whose crossing intervals share a parameter `t >= 0` pass the final test. */
  lemma SlabsOverlap(tx1: real, tx2: real, ty1: real, ty2: real, tz1: real, tz2: real, t: real)
    requires t >= 0.0
    requires Brackets(tx1, tx2, t) && Brackets(ty1, ty2, t) && Brackets(tz1, tz2, t)
    ensures SlabTest(tx1, tx2, ty1, ty2, tz1, tz2)
  {
  }
}
