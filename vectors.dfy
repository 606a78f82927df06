/**
 * The small part of linear algebra the renderer uses (nalgebra's Vector3 and
 * Matrix3), over exact reals, together with the Option and panic-carrying
 * result types and the floating-point steps that the model keeps abstract.
 */
module Vectors {

  datatype Option<+T> = None | Some(value: T)

  /** A Rust `panic!` or failed `unwrap()` is modelled as the `Panic` outcome. */
  datatype Result<+T> = Ok(value: T) | Panic(reason: string)

  function Min(a: real, b: real): real { if a <= b then a else b }
  function Max(a: real, b: real): real { if a >= b then a else b }

  datatype Vec3 = Vec3(x: real, y: real, z: real) {
    function Plus(o: Vec3): Vec3 { Vec3(x + o.x, y + o.y, z + o.z) }
    function Minus(o: Vec3): Vec3 { Vec3(x - o.x, y - o.y, z - o.z) }
    function Scale(s: real): Vec3 { Vec3(s * x, s * y, s * z) }
    function Neg(): Vec3 { Vec3(-x, -y, -z) }
    function Dot(o: Vec3): real { x * o.x + y * o.y + z * o.z }
    function Cross(o: Vec3): Vec3 {
      Vec3(y * o.z - z * o.y, z * o.x - x * o.z, x * o.y - y * o.x)
    }
    /** Component-wise minimum and maximum, as `f32::min`/`f32::max` per axis. */
    function MinWith(o: Vec3): Vec3 { Vec3(Min(x, o.x), Min(y, o.y), Min(z, o.z)) }
    function MaxWith(o: Vec3): Vec3 { Vec3(Max(x, o.x), Max(y, o.y), Max(z, o.z)) }
  }

  const Zero := Vec3(0.0, 0.0, 0.0)

  /** A 3x3 matrix stored by rows. */
  datatype Mat3 = Mat3(row0: Vec3, row1: Vec3, row2: Vec3) {
    function Apply(v: Vec3): Vec3 { Vec3(row0.Dot(v), row1.Dot(v), row2.Dot(v)) }
  }

  /** The matrix whose columns are c1, c2, c3. */
  function FromColumns(c1: Vec3, c2: Vec3, c3: Vec3): Mat3 {
    Mat3(Vec3(c1.x, c2.x, c3.x), Vec3(c1.y, c2.y, c3.y), Vec3(c1.z, c2.z, c3.z))
  }

  /** The determinant of the matrix with columns c1, c2, c3. */
  function Det(c1: Vec3, c2: Vec3, c3: Vec3): real { c1.Dot(c2.Cross(c3)) }

  /**
   * The floating-point steps the renderer delegates to nalgebra and libm, kept
   * abstract: `solve(c1, c2, c3, b)` is `Matrix3::from_columns(&[c1, c2, c3]).lu().solve(&b)`,
   * `inverse` is `try_inverse`, and `recip(x)` is `1.0 / x`.
   */
  datatype Numerics = Numerics(
    solve: (Vec3, Vec3, Vec3, Vec3) -> Option<Vec3>,
    inverse: Mat3 -> Option<Mat3>,
    sqrt: real -> real,
    normalize: Vec3 -> Vec3,
    recip: real -> real)

  /**
   * The solver behaves as exact arithmetic on this one system: it reports
   * failure exactly when the matrix is singular, and otherwise returns the
   * solution.
   */
  ghost predicate SolvesExactly(n: Numerics, c1: Vec3, c2: Vec3, c3: Vec3, b: Vec3) {
    match n.solve(c1, c2, c3, b)
    case None => Det(c1, c2, c3) == 0.0
    case Some(s) => Det(c1, c2, c3) != 0.0 && c1.Scale(s.x).Plus(c2.Scale(s.y)).Plus(c3.Scale(s.z)) == b
  }

  /** `sqrt` is exact at this argument. */
  ghost predicate SqrtExact(n: Numerics, v: real) {
    v >= 0.0 ==> n.sqrt(v) >= 0.0 && n.sqrt(v) * n.sqrt(v) == v
  }

  /** The reciprocal is exact at this argument: `recip(v) * v == 1`, so `v` is not zero. */
  ghost predicate RecipExact(n: Numerics, v: real) {
    n.recip(v) * v == 1.0
  }

  lemma NegDot(a: Vec3, b: Vec3)
    ensures a.Neg().Dot(b) == -a.Dot(b)
  {
    assert (-a.x) * b.x == -(a.x * b.x);
    assert (-a.y) * b.y == -(a.y * b.y);
    assert (-a.z) * b.z == -(a.z * b.z);
  }

  /** The cross product is orthogonal to both of its factors. */
  lemma CrossOrthogonal(a: Vec3, b: Vec3)
    ensures a.Cross(b).Dot(a) == 0.0 && a.Cross(b).Dot(b) == 0.0
  {
    assert (a.y * b.z - a.z * b.y) * a.x + (a.z * b.x - a.x * b.z) * a.y + (a.x * b.y - a.y * b.x) * a.z == 0.0;
    assert (a.y * b.z - a.z * b.y) * b.x + (a.z * b.x - a.x * b.z) * b.y + (a.x * b.y - a.y * b.x) * b.z == 0.0;
  }

  /** Scaling a vector scales its dot products. */
  lemma ScaleDot(a: Vec3, k: real, b: Vec3)
    ensures a.Scale(k).Dot(b) == k * a.Dot(b)
  {
    assert (k * a.x) * b.x + (k * a.y) * b.y + (k * a.z) * b.z == k * (a.x * b.x + a.y * b.y + a.z * b.z);
  }

  lemma DetOfCyclic(c1: Vec3, c2: Vec3, c3: Vec3)
    ensures Det(c1, c2, c3) == c3.Dot(c1.Cross(c2))
  {
  }
}
