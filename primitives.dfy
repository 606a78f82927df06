/**
 * Rays, hit records and the three primitive intersection tests of the ray
 * tracer: triangle, parallelogram and sphere. Each test is straight-line
 * arithmetic; the linear solve, the square root and `normalize` come from a
 * `Numerics` record of given functions.
 */
module Primitives {
  import opened Vectors

  /** Smallest accepted hit distance for triangles and parallelograms (`1e-6`). */
  const Epsilon: real := 0.000001

  datatype Ray = Ray(origin: Vec3, direction: Vec3) {
    /** The point `origin + t * direction`. */
    function At(t: real): Vec3 { origin.Plus(direction.Scale(t)) }
  }

  datatype HitPoint = HitPoint(t: real, point: Vec3, normal: Vec3)

  datatype Triangle = Triangle(point1: Vec3, point2: Vec3, point3: Vec3)

  datatype Sphere = Sphere(center: Vec3, radius: real)

  datatype Parallelogram = Parallelogram(point1: Vec3, point2: Vec3, point3: Vec3)

  /** The normal flipped, if needed, so that it does not point along the ray. */
  function FaceRay(normal: Vec3, ray: Ray): (r: Vec3)
    ensures r == normal || r == normal.Neg()
    ensures r.Dot(ray.direction) <= 0.0
    ensures normal.Dot(ray.direction) <= 0.0 ==> r == normal
  {
    NegDot(normal, ray.direction);
    if normal.Dot(ray.direction) > 0.0 then normal.Neg() else normal
  }

  /** The average of the three vertices: the offsets from it sum to zero. */
  function Centroid(tri: Triangle): (c: Vec3)
    ensures tri.point1.Minus(c).Plus(tri.point2.Minus(c)).Plus(tri.point3.Minus(c)) == Zero
  {
    tri.point1.Plus(tri.point2).Plus(tri.point3).Scale(1.0 / 3.0)
  }

  /** The unit plane normal `normalize((p2 - p1) x (p3 - p1))`. */
  function TriangleNormal(n: Numerics, tri: Triangle): Vec3 {
    n.normalize(tri.point2.Minus(tri.point1).Cross(tri.point3.Minus(tri.point1)))
  }

  /**
   * When `normalize` rescales the edge cross product by some factor `k` (as a
   * normalisation does), the triangle normal is orthogonal to both edges
   * from `point1`, so it is perpendicular to the triangle's plane.
   */
  lemma TriangleNormalOrthogonal(n: Numerics, tri: Triangle, k: real)
    requires var c := tri.point2.Minus(tri.point1).Cross(tri.point3.Minus(tri.point1));
      n.normalize(c) == c.Scale(k)
    ensures TriangleNormal(n, tri).Dot(tri.point2.Minus(tri.point1)) == 0.0
    ensures TriangleNormal(n, tri).Dot(tri.point3.Minus(tri.point1)) == 0.0
  {
    var e1, e2 := tri.point2.Minus(tri.point1), tri.point3.Minus(tri.point1);
    CrossOrthogonal(e1, e2);
    ScaleDot(e1.Cross(e2), k, e1);
    ScaleDot(e1.Cross(e2), k, e2);
  }

  /**
   * The system `u (p1 - p2) + v (p1 - p3) + t d = p1 - o` that the triangle and
   * parallelogram tests hand to the LU solver, solved for `(u, v, t)`.
   */
  function SolvePlane(n: Numerics, p1: Vec3, p2: Vec3, p3: Vec3, ray: Ray): Option<Vec3> {
    n.solve(p1.Minus(p2), p1.Minus(p3), ray.direction, p1.Minus(ray.origin))
  }

  /** The triangle acceptance rule on a solution `(u, v, t)`. */
  predicate InsideTriangle(uvt: Vec3) {
    uvt.x >= 0.0 && uvt.y >= 0.0 && uvt.x + uvt.y < 1.0 && uvt.z >= Epsilon
  }

  function TriangleIntersect(n: Numerics, tri: Triangle, ray: Ray): (r: Option<HitPoint>)
    ensures SolvePlane(n, tri.point1, tri.point2, tri.point3, ray).None? ==> r.None?
    ensures r.Some? <==>
      var s := SolvePlane(n, tri.point1, tri.point2, tri.point3, ray);
      s.Some? && InsideTriangle(s.value)
    ensures r.Some? ==>
      var uvt := SolvePlane(n, tri.point1, tri.point2, tri.point3, ray).value;
      && r.value.t == uvt.z
      && r.value.point == ray.At(uvt.z)
      && r.value.normal.Dot(ray.direction) <= 0.0
      && (r.value.normal == TriangleNormal(n, tri) || r.value.normal == TriangleNormal(n, tri).Neg())
  {
    match SolvePlane(n, tri.point1, tri.point2, tri.point3, ray)
    case None => None
    case Some(uvt) =>
      var u, v, t := uvt.x, uvt.y, uvt.z;
      if u < 0.0 || v < 0.0 || u + v >= 1.0 || t < Epsilon then None
      else Some(HitPoint(t, ray.At(t), FaceRay(TriangleNormal(n, tri), ray)))
  }

  /** The barycentric point `(1 - u - v) p1 + u p2 + v p3`. */
  function Barycentric(tri: Triangle, u: real, v: real): Vec3 {
    tri.point1.Scale(1.0 - u - v).Plus(tri.point2.Scale(u)).Plus(tri.point3.Scale(v))
  }

  /**
   * With an exact solver, an accepted triangle hit lies inside the triangle:
   * it is the convex combination of the vertices with weights
   * `(1 - u - v, u, v)`, the first strictly positive.
   */
  lemma TriangleHitInside(n: Numerics, tri: Triangle, ray: Ray)
    requires SolvesExactly(n, tri.point1.Minus(tri.point2), tri.point1.Minus(tri.point3),
                           ray.direction, tri.point1.Minus(ray.origin))
    ensures var r := TriangleIntersect(n, tri, ray);
      r.Some? ==>
        var uvt := SolvePlane(n, tri.point1, tri.point2, tri.point3, ray).value;
        && 1.0 - uvt.x - uvt.y > 0.0 && uvt.x >= 0.0 && uvt.y >= 0.0
        && r.value.point == Barycentric(tri, uvt.x, uvt.y)
  {
    var r := TriangleIntersect(n, tri, ray);
    if r.Some? {
      var uvt := SolvePlane(n, tri.point1, tri.point2, tri.point3, ray).value;
      var p1, p2, p3, o, d := tri.point1, tri.point2, tri.point3, ray.origin, ray.direction;
      var u, v, t := uvt.x, uvt.y, uvt.z;
      assert p1.Minus(p2).Scale(u).Plus(p1.Minus(p3).Scale(v)).Plus(d.Scale(t)) == p1.Minus(o);
      BarycentricAxis(u, v, t, p1.x, p2.x, p3.x, o.x, d.x);
      BarycentricAxis(u, v, t, p1.y, p2.y, p3.y, o.y, d.y);
      BarycentricAxis(u, v, t, p1.z, p2.z, p3.z, o.z, d.z);
    }
  }

  /** One axis of the triangle system, solved for the hit point. */
  lemma BarycentricAxis(u: real, v: real, t: real, a1: real, a2: real, a3: real, o: real, d: real)
    requires u * (a1 - a2) + v * (a1 - a3) + t * d == a1 - o
    ensures o + t * d == (1.0 - u - v) * a1 + u * a2 + v * a3
  {
    assert u * (a1 - a2) == u * a1 - u * a2;
    assert v * (a1 - a3) == v * a1 - v * a3;
    assert (1.0 - u - v) * a1 == a1 - u * a1 - v * a1;
  }

  /**
   * With an exact solver, a ray parallel to the triangle's plane (direction
   * orthogonal to the plane normal) never hits it, wherever it starts.
   */
  lemma ParallelRayMisses(n: Numerics, tri: Triangle, ray: Ray)
    requires SolvesExactly(n, tri.point1.Minus(tri.point2), tri.point1.Minus(tri.point3),
                           ray.direction, tri.point1.Minus(ray.origin))
    requires ray.direction.Dot(tri.point2.Minus(tri.point1).Cross(tri.point3.Minus(tri.point1))) == 0.0
    ensures TriangleIntersect(n, tri, ray).None?
  {
    var c1, c2, d := tri.point1.Minus(tri.point2), tri.point1.Minus(tri.point3), ray.direction;
    assert c1.Cross(c2) == tri.point2.Minus(tri.point1).Cross(tri.point3.Minus(tri.point1));
    DetOfCyclic(c1, c2, d);
    assert Det(c1, c2, d) == 0.0;
    assert SolvePlane(n, tri.point1, tri.point2, tri.point3, ray).None?;
  }

  /**
   * The boundary `u + v = 1` is shared by two triangles of a mesh and belongs
   * to neither: a solution on it is rejected however large `t` is.
   */
  lemma SharedEdgeRejected(n: Numerics, tri: Triangle, ray: Ray)
    requires var s := SolvePlane(n, tri.point1, tri.point2, tri.point3, ray);
      s.Some? && s.value.x + s.value.y == 1.0
    ensures TriangleIntersect(n, tri, ray).None?
  {
  }

  /**
   * `Parallelogram::intersects`: the same system as the triangle, but the
   * solve is unwrapped (a singular system panics) and only `t` is checked.
   */
  function ParallelogramIntersect(n: Numerics, pg: Parallelogram, ray: Ray): (r: Result<Option<HitPoint>>)
    ensures r.Panic? <==> SolvePlane(n, pg.point1, pg.point2, pg.point3, ray).None?
    ensures r.Ok? ==>
      var t := SolvePlane(n, pg.point1, pg.point2, pg.point3, ray).value.z;
      && (r.value.Some? <==> t >= Epsilon)
      && (r.value.Some? ==>
            var normal := n.normalize(pg.point2.Minus(pg.point1).Cross(pg.point3.Minus(pg.point1)));
            && r.value.value.t == t && r.value.value.point == ray.At(t)
            && (r.value.value.normal == normal || r.value.value.normal == normal.Neg())
            && r.value.value.normal.Dot(ray.direction) <= 0.0)
  {
    match SolvePlane(n, pg.point1, pg.point2, pg.point3, ray)
    case None => Panic("called `Option::unwrap()` on a `None` value")
    case Some(uvt) =>
      var t := uvt.z;
      if t < Epsilon then Ok(None)
      else
        var normal := n.normalize(pg.point2.Minus(pg.point1).Cross(pg.point3.Minus(pg.point1)));
        Ok(Some(HitPoint(t, ray.At(t), FaceRay(normal, ray))))
  }

  /**
   * The parallelogram test behaves as an unbounded plane: a solution far
   * outside the parallelogram (here `u = 5`) is still a hit.
   */
  lemma ParallelogramIgnoresBounds(n: Numerics, pg: Parallelogram, ray: Ray)
    requires SolvePlane(n, pg.point1, pg.point2, pg.point3, ray) == Some(Vec3(5.0, 5.0, 1.0))
    ensures ParallelogramIntersect(n, pg, ray).Ok?
    ensures ParallelogramIntersect(n, pg, ray).value.Some?
    ensures !InsideTriangle(Vec3(5.0, 5.0, 1.0))
  {
  }

  /** The coefficients `(a, b, c)` of `a t^2 + b t + c = 0` for a ray and a sphere. */
  function SphereQuadratic(s: Sphere, ray: Ray): (real, real, real) {
    var oc := ray.origin.Minus(s.center);
    (ray.direction.Dot(ray.direction), 2.0 * ray.direction.Dot(oc), oc.Dot(oc) - s.radius * s.radius)
  }

  function Discriminant(s: Sphere, ray: Ray): real {
    var (a, b, c) := SphereQuadratic(s, ray);
    b * b - 4.0 * a * c
  }

  /**
   * `Sphere::intersects`. A zero direction makes both roots `0/0`, a NaN that
   * fails the `t > 0` test, so it is no hit.
   */
  function SphereIntersect(n: Numerics, s: Sphere, ray: Ray): (r: Option<HitPoint>)
    ensures Discriminant(s, ray) < 0.0 ==> r.None?
    ensures ray.direction == Zero ==> r.None?
    ensures r.Some? ==>
      && r.value.t > 0.0
      && r.value.point == ray.At(r.value.t)
      && r.value.normal == n.normalize(r.value.point.Minus(s.center))
  {
    var (a, b, c) := SphereQuadratic(s, ray);
    var discriminant := Discriminant(s, ray);
    if discriminant < 0.0 then None
    else if a == 0.0 then None
    else
      var t1 := (-b + n.sqrt(discriminant)) / (2.0 * a);
      var t2 := (-b - n.sqrt(discriminant)) / (2.0 * a);
      var t := if t1 < t2 then t1 else t2;
      if t > 0.0 then
        var point := ray.At(t);
        Some(HitPoint(t, point, n.normalize(point.Minus(s.center))))
      else None
  }

  /** A root of `a t^2 + b t + c` given by the quadratic formula with an exact square root. */
  lemma QuadraticRoot(a: real, b: real, c: real, sq: real, t: real)
    requires a != 0.0 && sq * sq == b * b - 4.0 * a * c
    requires t == (-b + sq) / (2.0 * a) || t == (-b - sq) / (2.0 * a)
    ensures a * t * t + b * t + c == 0.0
  {
    var e := 2.0 * a * t + b;
    assert e == sq || e == -sq;
    assert e * e == sq * sq;
    assert e * e == 4.0 * a * a * t * t + 4.0 * a * b * t + b * b;
    assert 4.0 * a * (a * t * t + b * t + c) == 0.0;
  }

  /** `|oc + t d|^2` expanded as a quadratic in `t`. */
  lemma SquaredDistanceAlong(oc: Vec3, d: Vec3, t: real)
    ensures oc.Plus(d.Scale(t)).Dot(oc.Plus(d.Scale(t)))
         == d.Dot(d) * t * t + 2.0 * d.Dot(oc) * t + oc.Dot(oc)
  {
    assert (oc.x + t * d.x) * (oc.x + t * d.x) == d.x * d.x * t * t + 2.0 * d.x * oc.x * t + oc.x * oc.x;
    assert (oc.y + t * d.y) * (oc.y + t * d.y) == d.y * d.y * t * t + 2.0 * d.y * oc.y * t + oc.y * oc.y;
    assert (oc.z + t * d.z) * (oc.z + t * d.z) == d.z * d.z * t * t + 2.0 * d.z * oc.z * t + oc.z * oc.z;
  }

  /**
   * With an exact square root, a sphere hit lies on the sphere's surface, and
   * it is the nearer of the two intersections along the ray.
   */
  lemma SphereHitOnSurface(n: Numerics, s: Sphere, ray: Ray)
    requires SqrtExact(n, Discriminant(s, ray))
    ensures var r := SphereIntersect(n, s, ray);
      r.Some? ==>
        (var p := r.value.point.Minus(s.center);
         p.Dot(p) == s.radius * s.radius) &&
        (var (a, b, c) := SphereQuadratic(s, ray);
         r.value.t == (-b - n.sqrt(Discriminant(s, ray))) / (2.0 * a))
  {
    var r := SphereIntersect(n, s, ray);
    if r.Some? {
      var (a, b, c) := SphereQuadratic(s, ray);
      var t, sq := r.value.t, n.sqrt(Discriminant(s, ray));
      SphereHitIsNearerRoot(n, s, ray);
      QuadraticRoot(a, b, c, sq, t);
      RootOnSurface(s, ray, a, b, c, t);
    }
  }

  /** A sphere hit is at the `-sqrt` root of a quadratic with a positive leading coefficient. */
  lemma SphereHitIsNearerRoot(n: Numerics, s: Sphere, ray: Ray)
    requires SqrtExact(n, Discriminant(s, ray))
    requires SphereIntersect(n, s, ray).Some?
    ensures var (a, b, c) := SphereQuadratic(s, ray);
      && a != 0.0
      && n.sqrt(Discriminant(s, ray)) * n.sqrt(Discriminant(s, ray)) == b * b - 4.0 * a * c
      && SphereIntersect(n, s, ray).value.t == (-b - n.sqrt(Discriminant(s, ray))) / (2.0 * a)
      && SphereIntersect(n, s, ray).value.point == ray.At(SphereIntersect(n, s, ray).value.t)
  {
    SphereHitExactlyWhenRootAhead(n, s, ray);
  }

  /**
   * With an exact square root, exactly the rays whose nearer (`-sqrt`) root is
   * real and strictly ahead of the origin hit the sphere, and they hit it there.
   */
  lemma SphereHitExactlyWhenRootAhead(n: Numerics, s: Sphere, ray: Ray)
    requires SqrtExact(n, Discriminant(s, ray))
    ensures var (a, b, c) := SphereQuadratic(s, ray);
      var d := Discriminant(s, ray);
      && (SphereIntersect(n, s, ray).Some? <==>
            d >= 0.0 && a != 0.0 && (-b - n.sqrt(d)) / (2.0 * a) > 0.0)
      && (SphereIntersect(n, s, ray).Some? ==>
            SphereIntersect(n, s, ray).value.t == (-b - n.sqrt(d)) / (2.0 * a))
  {
    var (a, b, c) := SphereQuadratic(s, ray);
    var d := Discriminant(s, ray);
    assert a == ray.direction.Dot(ray.direction);
    if d >= 0.0 && a != 0.0 {
      NearerRoot(a, b, n.sqrt(d));
    }
  }

  /** A root of the sphere's quadratic is a point of the ray on the sphere's surface. */
  lemma RootOnSurface(s: Sphere, ray: Ray, a: real, b: real, c: real, t: real)
    requires (a, b, c) == SphereQuadratic(s, ray) && a * t * t + b * t + c == 0.0
    ensures var p := ray.At(t).Minus(s.center); p.Dot(p) == s.radius * s.radius
  {
    var oc := ray.origin.Minus(s.center);
    SquaredDistanceAlong(oc, ray.direction, t);
    assert ray.At(t).Minus(s.center) == oc.Plus(ray.direction.Scale(t));
  }

  /** With a positive leading coefficient, the `-sqrt` root is the smaller one. */
  lemma NearerRoot(a: real, b: real, sq: real)
    requires a >= 0.0 && a != 0.0 && sq >= 0.0
    ensures (-b - sq) / (2.0 * a) <= (-b + sq) / (2.0 * a)
  {
    var k := 1.0 / (2.0 * a);
    assert k > 0.0;
    assert (-b - sq) / (2.0 * a) == (-b - sq) * k;
    assert (-b + sq) / (2.0 * a) == (-b + sq) * k;
    assert (-b + sq) * k - (-b - sq) * k == 2.0 * sq * k;
  }

  /**
   * A ray starting strictly inside a sphere never hits it: the nearer root is
   * behind the origin, and the farther root is never considered.
   */
  lemma SphereFromInsideMisses(n: Numerics, s: Sphere, ray: Ray)
    requires SqrtExact(n, Discriminant(s, ray))
    requires var oc := ray.origin.Minus(s.center); oc.Dot(oc) < s.radius * s.radius
    ensures SphereIntersect(n, s, ray).None?
  {
    var (a, b, c) := SphereQuadratic(s, ray);
    if Discriminant(s, ray) >= 0.0 && a != 0.0 {
      var sq := n.sqrt(Discriminant(s, ray));
      assert a > 0.0 by {
        assert a == ray.direction.Dot(ray.direction);
      }
      assert c < 0.0;
      assert 4.0 * a * c < 0.0;
      assert sq * sq > b * b;
      assert sq > b && sq > -b;
      assert (-b - sq) / (2.0 * a) < 0.0;
      assert (-b - sq) / (2.0 * a) <= (-b + sq) / (2.0 * a);
    }
  }

  /** The unit sphere at the origin seen from `(0, 0, 5)` looking down `-z` is hit at `t = 4`. */
  lemma UnitSphereScenario(n: Numerics)
    requires n.sqrt(4.0) == 2.0
    ensures SphereIntersect(n, Sphere(Zero, 1.0), Ray(Vec3(0.0, 0.0, 5.0), Vec3(0.0, 0.0, -1.0)))
         == Some(HitPoint(4.0, Vec3(0.0, 0.0, 1.0), n.normalize(Vec3(0.0, 0.0, 1.0))))
  {
    var s, ray := Sphere(Zero, 1.0), Ray(Vec3(0.0, 0.0, 5.0), Vec3(0.0, 0.0, -1.0));
    assert SphereQuadratic(s, ray) == (1.0, -10.0, 24.0);
    assert Discriminant(s, ray) == 4.0;
    assert ray.At(4.0) == Vec3(0.0, 0.0, 1.0);
  }
}
