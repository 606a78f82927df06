/**
 * The rasteriser: every mesh triangle is turned into a shader triangle, moved
 * by the vertex shader, and then drawn by scanning the pixels of its clamped
 * screen box. A pixel whose barycentric weights are all non-negative and
 * whose interpolated depth is at most 1 is shaded by the fragment shader and
 * passed through the depth test of the blending shader, which writes the
 * frame buffer and the z-buffer together.
 *
 * The frame buffer is an `array2` indexed `[row, column]`, as nalgebra's
 * `DMatrix` is indexed `(row, column)`.
 */
module Raster {
  import opened Vectors
  import opened Primitives
  import opened Composites

  datatype Vec4 = Vec4(x: real, y: real, z: real, w: real)

  /** A z-buffer entry: `f64::NEG_INFINITY` before any fragment was accepted there. */
  datatype Depth = NegInfinity | Finite(z: real)

  /** `z > d`, with every real above negative infinity. */
  predicate Above(z: real, d: Depth) {
    d.NegInfinity? || z > d.z
  }

  /** `a >= b` on depths. */
  predicate AtLeast(a: Depth, b: Depth) {
    b.NegInfinity? || (a.Finite? && a.z >= b.z)
  }

  datatype Vertex = Vertex(position: Vec3, normal: Vec3)

  datatype ShaderTriangle = ShaderTriangle(v0: Vertex, v1: Vertex, v2: Vertex)

  datatype Fragment = Fragment(position: Vec3, color: Vec3)

  datatype Uniform = Uniform(cameraPos: Vec3, ambientColor: Vec3, lightPos: Vec3, lightColor: Vec3)

  function Abs(x: real): real { if x < 0.0 then -x else x }

  /** The view transform: a translation by minus the camera position; the normal is kept. */
  function VertexShader(v: Vertex, u: Uniform): (r: Vertex)
    ensures r.position.Plus(u.cameraPos) == v.position
    ensures r.normal == v.normal
  {
    Vertex(v.position.Minus(u.cameraPos), v.normal)
  }

  function LightDirection(n: Numerics, v: Vertex, u: Uniform): Vec3 {
    n.normalize(u.lightPos.Minus(v.position))
  }

  /**
   * The diffuse factor: the normal is flipped towards the light before the dot
   * product, so the later clamp at zero never changes the value and the factor
   * is the absolute cosine.
   */
  function Diffuse(n: Numerics, v: Vertex, u: Uniform): (d: real)
    ensures d >= 0.0
    ensures d == Abs(LightDirection(n, v, u).Dot(n.normalize(v.normal)))
  {
    var light := LightDirection(n, v, u);
    var normal := n.normalize(v.normal);
    var facing := if light.Dot(normal) < 0.0 then normal.Neg() else normal;
    NegDot(normal, light);
    assert light.Dot(facing) == normal.Dot(light) || light.Dot(facing) == -normal.Dot(light);
    Max(light.Dot(facing), 0.0)
  }

  /** Diffuse plus ambient lighting; the fragment sits where the vertex does. */
  function FragmentShader(n: Numerics, v: Vertex, u: Uniform): (f: Fragment)
    ensures f.position == v.position
    ensures f.color.Minus(u.ambientColor) == u.lightColor.Scale(Diffuse(n, v, u))
  {
    Fragment(v.position, u.lightColor.Scale(Diffuse(n, v, u)).Plus(u.ambientColor))
  }

  /**
   * The depth test: a fragment strictly nearer the viewer (larger z) than the
   * stored depth replaces colour (with alpha 1) and depth; otherwise both are
   * kept.
   */
  function BlendingShader(f: Fragment, oldColor: Vec4, oldZ: Depth): (r: (Vec4, Depth))
    ensures Above(f.position.z, oldZ) ==> r == (Vec4(f.color.x, f.color.y, f.color.z, 1.0), Finite(f.position.z))
    ensures !Above(f.position.z, oldZ) ==> r == (oldColor, oldZ)
    ensures AtLeast(r.1, oldZ) && AtLeast(r.1, Finite(f.position.z))
    ensures r.1 == oldZ || r.1 == Finite(f.position.z)
    ensures oldZ.NegInfinity? ==> r.0.w == 1.0 && r.1 == Finite(f.position.z)
  {
    var color := Vec4(f.color.x, f.color.y, f.color.z, 1.0);
    var z := f.position.z;
    if Above(z, oldZ) then (color, Finite(z)) else (oldColor, oldZ)
  }

  /** The vertex with barycentric weights `b` over the triangle (position and normal). */
  function VertexInterpolation(tri: ShaderTriangle, b: Vec3): (r: Vertex)
    ensures b == Vec3(1.0, 0.0, 0.0) ==> r == tri.v0
    ensures b == Vec3(0.0, 1.0, 0.0) ==> r == tri.v1
    ensures b == Vec3(0.0, 0.0, 1.0) ==> r == tri.v2
  {
    ScaleUnits(tri.v0.position); ScaleUnits(tri.v1.position); ScaleUnits(tri.v2.position);
    ScaleUnits(tri.v0.normal); ScaleUnits(tri.v1.normal); ScaleUnits(tri.v2.normal);
    Vertex(tri.v0.position.Scale(b.x).Plus(tri.v1.position.Scale(b.y)).Plus(tri.v2.position.Scale(b.z)),
           tri.v0.normal.Scale(b.x).Plus(tri.v1.normal.Scale(b.y)).Plus(tri.v2.normal.Scale(b.z)))
  }

  /** Scaling by one keeps a vector, scaling by zero gives the zero vector, and adding zero keeps it. */
  lemma ScaleUnits(p: Vec3)
    ensures p.Scale(1.0) == p && p.Scale(0.0) == Zero && p.Plus(Zero) == p && Zero.Plus(p) == p
  {
  }

  /** With weights summing to one, a normal shared by all three vertices is reproduced. */
  lemma InterpolationKeepsSharedNormal(tri: ShaderTriangle, b: Vec3)
    requires tri.v0.normal == tri.v1.normal == tri.v2.normal
    requires b.x + b.y + b.z == 1.0
    ensures VertexInterpolation(tri, b).normal == tri.v0.normal
  {
    var m := tri.v0.normal;
    assert m.x * b.x + m.x * b.y + m.x * b.z == m.x * (b.x + b.y + b.z);
    assert m.y * b.x + m.y * b.y + m.y * b.z == m.y * (b.x + b.y + b.z);
    assert m.z * b.x + m.z * b.y + m.z * b.z == m.z * (b.x + b.y + b.z);
  }

  /** The shader triangle built for a mesh triangle: its corners, all with the face normal. */
  function FlatTriangle(n: Numerics, tri: Triangle): (st: ShaderTriangle)
    ensures st.v0.position == tri.point1 && st.v1.position == tri.point2 && st.v2.position == tri.point3
    ensures st.v0.normal == st.v1.normal == st.v2.normal == TriangleNormal(n, tri)
  {
    var normal := TriangleNormal(n, tri);
    ShaderTriangle(Vertex(tri.point1, normal), Vertex(tri.point2, normal), Vertex(tri.point3, normal))
  }

  /** The vertex shader applied to each corner. */
  function ShadeCorners(st: ShaderTriangle, u: Uniform): ShaderTriangle {
    ShaderTriangle(VertexShader(st.v0, u), VertexShader(st.v1, u), VertexShader(st.v2, u))
  }

  /** The triangle that is drawn for a mesh triangle. */
  function Prepared(n: Numerics, u: Uniform, tri: Triangle): ShaderTriangle {
    ShadeCorners(FlatTriangle(n, tri), u)
  }

  /** A coordinate in -1..1 rescaled to 0..size pixels. */
  function ToPixel(c: real, size: nat): real {
    (c + 1.0) / 2.0 * size as real
  }

  function Ceil(x: real): (r: int)
    ensures (r - 1) as real < x <= r as real
  {
    -((-x).Floor)
  }

  /** `f as usize` on an integral float: negative values saturate to 0. */
  function AsUsize(f: int): (r: nat)
    ensures f >= 0 ==> r == f
    ensures f < 0 ==> r == 0
  {
    if f < 0 then 0 else f
  }

  /** `k.max(0).min(size - 1)` on `usize`. */
  function ClampIndex(k: nat, size: nat): (r: nat)
    requires size >= 1
    ensures r < size
    ensures k < size ==> r == k
    ensures k >= size ==> r == size - 1
  {
    if k < size - 1 then k else size - 1
  }

  function Min3(v: Vec3): real { Min(Min(v.x, v.y), v.z) }
  function Max3(v: Vec3): real { Max(Max(v.x, v.y), v.z) }

  /** The three corners' x coordinates scaled by the column count, and their y by the row count. */
  function ScaledX(st: ShaderTriangle, cols: nat): Vec3 {
    Vec3(ToPixel(st.v0.position.x, cols), ToPixel(st.v1.position.x, cols), ToPixel(st.v2.position.x, cols))
  }

  function ScaledY(st: ShaderTriangle, rows: nat): Vec3 {
    Vec3(ToPixel(st.v0.position.y, rows), ToPixel(st.v1.position.y, rows), ToPixel(st.v2.position.y, rows))
  }

  /** An inclusive pixel range `lx..=ux` by `ly..=uy`. */
  datatype PixelRect = PixelRect(lx: nat, ly: nat, ux: nat, uy: nat) {
    predicate Has(i: int, j: int) { lx <= i <= ux && ly <= j <= uy }
  }

  /** The screen box of a triangle, floored and ceiled, then clamped to the buffer. */
  function PixelBox(st: ShaderTriangle, cols: nat, rows: nat): (r: PixelRect)
    requires cols >= 1 && rows >= 1
    ensures r.lx <= r.ux < cols && r.ly <= r.uy < rows
  {
    var xs := ScaledX(st, cols);
    var ys := ScaledY(st, rows);
    PixelRect(ClampIndex(AsUsize(Min3(xs).Floor), cols), ClampIndex(AsUsize(Min3(ys).Floor), rows),
              ClampIndex(AsUsize(Ceil(Max3(xs))), cols), ClampIndex(AsUsize(Ceil(Max3(ys))), rows))
  }

  /**
   * The matrix whose inverse maps a pixel `(x, y, 1)` to barycentric weights:
   * the scaled corners as columns, with the last row set to ones.
   */
  function BarycentricSystem(st: ShaderTriangle, cols: nat, rows: nat): (a: Mat3)
    ensures a.row2 == Vec3(1.0, 1.0, 1.0)
  {
    Mat3(ScaledX(st, cols), ScaledY(st, rows), Vec3(1.0, 1.0, 1.0))
  }

  /** The centre of pixel `(i, j)` in homogeneous screen coordinates. */
  function PixelCentre(i: nat, j: nat): Vec3 {
    Vec3(i as real + 0.5, j as real + 0.5, 1.0)
  }

  /** nalgebra's `min()` over the components, compared with zero. */
  function MinComponent(v: Vec3): (m: real)
    ensures m >= 0.0 <==> v.x >= 0.0 && v.y >= 0.0 && v.z >= 0.0
  {
    Min3(v)
  }

  /**
   * Where the inverse is exact at a pixel, the weights sum to one and the
   * interpolated vertex maps back onto that pixel's centre.
   */
  lemma InterpolatedAtPixelCentre(st: ShaderTriangle, cols: nat, rows: nat, inv: Mat3, i: nat, j: nat)
    requires BarycentricSystem(st, cols, rows).Apply(inv.Apply(PixelCentre(i, j))) == PixelCentre(i, j)
    ensures var b := inv.Apply(PixelCentre(i, j));
            b.x + b.y + b.z == 1.0
    ensures var v := VertexInterpolation(st, inv.Apply(PixelCentre(i, j)));
            ToPixel(v.position.x, cols) == i as real + 0.5 && ToPixel(v.position.y, rows) == j as real + 0.5
  {
    var b := inv.Apply(PixelCentre(i, j));
    var a := BarycentricSystem(st, cols, rows);
    assert a.row2.Dot(b) == 1.0;
    assert b.x + b.y + b.z == 1.0;
    assert a.row0.Dot(b) == i as real + 0.5 && a.row1.Dot(b) == j as real + 0.5;
    var v := VertexInterpolation(st, b);
    InterpolatedPosition(st, b);
    CentreAxis(st.v0.position.x, st.v1.position.x, st.v2.position.x, a.row0, b, cols, v.position.x);
    CentreAxis(st.v0.position.y, st.v1.position.y, st.v2.position.y, a.row1, b, rows, v.position.y);
  }

  /** The interpolated position, coordinate by coordinate. */
  lemma InterpolatedPosition(st: ShaderTriangle, b: Vec3)
    ensures var p := VertexInterpolation(st, b).position;
            && p.x == st.v0.position.x * b.x + st.v1.position.x * b.y + st.v2.position.x * b.z
            && p.y == st.v0.position.y * b.x + st.v1.position.y * b.y + st.v2.position.y * b.z
  {
    var p0, p1, p2 := st.v0.position.Scale(b.x), st.v1.position.Scale(b.y), st.v2.position.Scale(b.z);
    assert p0.x == st.v0.position.x * b.x && p1.x == st.v1.position.x * b.y && p2.x == st.v2.position.x * b.z;
    assert p0.y == st.v0.position.y * b.x && p1.y == st.v1.position.y * b.y && p2.y == st.v2.position.y * b.z;
  }

  /** One axis of the lemma above: rescaling commutes with an affine combination. */
  lemma CentreAxis(c0: real, c1: real, c2: real, scaled: Vec3, b: Vec3, size: nat, c: real)
    requires scaled == Vec3(ToPixel(c0, size), ToPixel(c1, size), ToPixel(c2, size))
    requires b.x + b.y + b.z == 1.0
    requires c == c0 * b.x + c1 * b.y + c2 * b.z
    ensures scaled.Dot(b) == ToPixel(c, size)
  {
    var h := size as real / 2.0;
    assert ToPixel(c0, size) == (c0 + 1.0) * h;
    assert ToPixel(c1, size) == (c1 + 1.0) * h;
    assert ToPixel(c2, size) == (c2 + 1.0) * h;
    assert ToPixel(c, size) == (c + 1.0) * h;
    calc {
      (c0 + 1.0) * h * b.x + (c1 + 1.0) * h * b.y + (c2 + 1.0) * h * b.z;
      h * ((c0 * b.x + c1 * b.y + c2 * b.z) + (b.x + b.y + b.z));
      (c + 1.0) * h;
    }
  }

  /**
   * What drawing a triangle does to the pixel `(i, j)`: the fragment is blended
   * in when all weights are non-negative and the interpolated depth is at most
   * one, and the pixel is left alone otherwise.
   */
  function ShadePixel(n: Numerics, st: ShaderTriangle, inv: Mat3, u: Uniform, i: nat, j: nat,
                      oldColor: Vec4, oldZ: Depth): (r: (Vec4, Depth))
    ensures AtLeast(r.1, oldZ)
    ensures r == (oldColor, oldZ) || (r.0.w == 1.0 && r.1.Finite?)
    ensures r != (oldColor, oldZ) ==>
              && MinComponent(inv.Apply(PixelCentre(i, j))) >= 0.0
              && VertexInterpolation(st, inv.Apply(PixelCentre(i, j))).position.z <= 1.0
  {
    var bary := inv.Apply(PixelCentre(i, j));
    if MinComponent(bary) >= 0.0 then
      var v := VertexInterpolation(st, bary);
      if v.position.z <= 1.0 then BlendingShader(FragmentShader(n, v, u), oldColor, oldZ)
      else (oldColor, oldZ)
    else (oldColor, oldZ)
  }

  /** The frame buffer and the z-buffer have the same shape. */
  predicate SameShape(frame: array2<Vec4>, zbuf: array2<Depth>) {
    frame.Length0 == zbuf.Length0 && frame.Length1 == zbuf.Length1
  }

  /**
   * Draws one triangle: the matrix inverse is unwrapped (a singular system
   * panics before anything is written), then every pixel of the clamped box
   * is updated as `ShadePixel` says and every other pixel is left alone.
   */
  method DrawTriangle(n: Numerics, st: ShaderTriangle, u: Uniform, frame: array2<Vec4>, zbuf: array2<Depth>)
    returns (ok: bool)
    requires SameShape(frame, zbuf) && frame.Length0 == frame.Length1 >= 1
    modifies frame, zbuf
    ensures ok <==> n.inverse(BarycentricSystem(st, frame.Length1, frame.Length0)).Some?
    ensures !ok ==> unchanged(frame) && unchanged(zbuf)
    ensures ok ==>
      var inv := n.inverse(BarycentricSystem(st, frame.Length1, frame.Length0)).value;
      var box := PixelBox(st, frame.Length1, frame.Length0);
      forall a, b :: 0 <= a < frame.Length0 && 0 <= b < frame.Length1 ==>
        (frame[a, b], zbuf[a, b]) ==
          if box.Has(a, b) then ShadePixel(n, st, inv, u, a, b, old(frame[a, b]), old(zbuf[a, b]))
          else (old(frame[a, b]), old(zbuf[a, b]))
    ensures forall a, b :: 0 <= a < frame.Length0 && 0 <= b < frame.Length1 ==> AtLeast(zbuf[a, b], old(zbuf[a, b]))
  {
    var cols, rows := frame.Length1, frame.Length0;
    var box := PixelBox(st, cols, rows);
    var inverse := n.inverse(BarycentricSystem(st, cols, rows));
    if inverse.None? {
      return false;
    }
    var inv := inverse.value;
    for i := box.lx to box.ux + 1
      invariant forall a, b :: 0 <= a < rows && 0 <= b < cols ==>
        (frame[a, b], zbuf[a, b]) ==
          if box.lx <= a < i && box.ly <= b <= box.uy then ShadePixel(n, st, inv, u, a, b, old(frame[a, b]), old(zbuf[a, b]))
          else (old(frame[a, b]), old(zbuf[a, b]))
    {
      for j := box.ly to box.uy + 1
        invariant forall a, b :: 0 <= a < rows && 0 <= b < cols ==>
          (frame[a, b], zbuf[a, b]) ==
            if (box.lx <= a < i && box.ly <= b <= box.uy) || (a == i && box.ly <= b < j)
            then ShadePixel(n, st, inv, u, a, b, old(frame[a, b]), old(zbuf[a, b]))
            else (old(frame[a, b]), old(zbuf[a, b]))
      {
        var bary := inv.Apply(PixelCentre(i, j));
        if MinComponent(bary) >= 0.0 {
          var v := VertexInterpolation(st, bary);
          if v.position.z <= 1.0 {
            var fragment := FragmentShader(n, v, u);
            var blend := BlendingShader(fragment, frame[i, j], zbuf[i, j]);
            frame[i, j] := blend.0;
            zbuf[i, j] := blend.1;
          }
        }
      }
    }
    ok := true;
  }

  /**
   * A cell the z-buffer has not accepted a fragment for still holds its
   * original colour, and a cell it has holds an opaque colour.
   */
  ghost predicate Coherent(frame: array2<Vec4>, zbuf: array2<Depth>, original: seq<seq<Vec4>>)
    reads frame, zbuf
    requires SameShape(frame, zbuf)
  {
    forall a, b :: 0 <= a < frame.Length0 && 0 <= b < frame.Length1 ==>
      && (zbuf[a, b].NegInfinity? ==> a < |original| && b < |original[a]| && frame[a, b] == original[a][b])
      && (zbuf[a, b].Finite? ==> frame[a, b].w == 1.0)
  }

  /** The contents of a frame buffer, row by row. */
  ghost function Contents(frame: array2<Vec4>): (c: seq<seq<Vec4>>)
    reads frame
    ensures |c| == frame.Length0
    ensures forall a :: 0 <= a < frame.Length0 ==> |c[a]| == frame.Length1
    ensures forall a, b :: 0 <= a < frame.Length0 && 0 <= b < frame.Length1 ==> c[a][b] == frame[a, b]
  {
    seq(frame.Length0, a requires 0 <= a < frame.Length0 reads frame =>
      seq(frame.Length1, b requires 0 <= b < frame.Length1 reads frame => frame[a, b]))
  }

  /**
   * Renders the mesh into the frame buffer, starting from a z-buffer at
   * negative infinity. It panics when the buffer has no columns (the clamp's
   * `ncols() - 1` underflows) or when a drawn triangle's system has no
   * inverse; triangles drawn before the panic stay drawn.
   */
  method Rasterize(n: Numerics, mesh: Mesh, u: Uniform, frame: array2<Vec4>) returns (r: Result<()>)
    requires frame.Length0 == frame.Length1
    modifies frame
    ensures r.Panic? <==>
      && |mesh.triangles| > 0
      && (|| frame.Length1 == 0
          || exists k :: 0 <= k < |mesh.triangles| &&
               n.inverse(BarycentricSystem(Prepared(n, u, mesh.triangles[k]), frame.Length1, frame.Length0)).None?)
    ensures forall a, b :: 0 <= a < frame.Length0 && 0 <= b < frame.Length1 ==>
              frame[a, b] == old(frame[a, b]) || frame[a, b].w == 1.0
  {
    ghost var original := Contents(frame);
    var zbuf := new Depth[frame.Length0, frame.Length1]((_, _) => NegInfinity);
    var triangles: seq<ShaderTriangle> := [];
    for k := 0 to |mesh.triangles|
      invariant |triangles| == k
      invariant forall m :: 0 <= m < k ==> triangles[m] == FlatTriangle(n, mesh.triangles[m])
    {
      triangles := triangles + [FlatTriangle(n, mesh.triangles[k])];
    }
    for k := 0 to |triangles|
      invariant |triangles| == |mesh.triangles|
      invariant forall m :: 0 <= m < k ==> triangles[m] == Prepared(n, u, mesh.triangles[m])
      invariant forall m :: k <= m < |triangles| ==> triangles[m] == FlatTriangle(n, mesh.triangles[m])
    {
      var st := triangles[k];
      triangles := triangles[k := ShaderTriangle(VertexShader(st.v0, u), VertexShader(st.v1, u), VertexShader(st.v2, u))];
    }
    for k := 0 to |triangles|
      invariant |triangles| == |mesh.triangles|
      invariant forall m :: 0 <= m < |triangles| ==> triangles[m] == Prepared(n, u, mesh.triangles[m])
      invariant k > 0 ==> frame.Length1 > 0
      invariant forall m :: 0 <= m < k ==>
        n.inverse(BarycentricSystem(Prepared(n, u, mesh.triangles[m]), frame.Length1, frame.Length0)).Some?
      invariant Coherent(frame, zbuf, original)
      invariant forall a, b :: 0 <= a < frame.Length0 && 0 <= b < frame.Length1 ==> original[a][b] == old(frame[a, b])
    {
      if frame.Length1 == 0 {
        return Panic("attempt to subtract with overflow");
      }
      var ok := DrawTriangle(n, triangles[k], u, frame, zbuf);
      if !ok {
        return Panic("called `Option::unwrap()` on a `None` value");
      }
    }
    r := Ok(());
  }
}
