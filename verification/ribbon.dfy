/** The buffer-building part of `RenderTrail`: from the first `n` display
    points it builds a camera-facing quad strip with two vertices per point,
    a UV and a colour per vertex and two triangles per pair of neighbouring
    points. */
module Ribbon {
  import opened Vectors
  import opened DisplayStore

  datatype Color = Color(r: real, g: real, b: real, a: real)

  datatype Uv = Uv(u: real, v: real)

  datatype Mesh = Mesh(vertices: seq<Vec3>, uvs: seq<Uv>, colors: seq<Color>, triangles: seq<int>)

  /** The mesh after `mesh.Clear()`. */
  const EmptyMesh: Mesh := Mesh([], [], [], [])

  /** What `RenderTrail` may read without a null dereference or an index out
      of range: no points at all, or at least two live points in range. */
  predicate Renderable(dp: seq<Slot>, n: int) {
    n == 0 || (2 <= n <= |dp| && forall i :: 0 <= i < n ==> dp[i].Live?)
  }

  function Position(dp: seq<Slot>, i: int): Vec3
    requires 0 <= i < |dp| && dp[i].Live?
  {
    dp[i].point.position
  }

  /** The tangent used at point `i`: towards the next point, except at the
      last point, which reuses the segment arriving from the one before. */
  function PathDirection(dp: seq<Slot>, n: int, i: int): Vec3
    requires 2 <= n <= |dp| && forall k :: 0 <= k < n ==> dp[k].Live?
    requires 0 <= i < n
  {
    if i != n - 1 then Sub(Position(dp, i + 1), Position(dp, i))
    else Sub(Position(dp, i), Position(dp, i - 1))
  }

  /** The two buffer entries of point `i`: index `2i` on the left edge of
      the ribbon and `2i + 1` on the right edge. */
  function LeftOf<T>(s: seq<T>, i: int): T
    requires 0 <= i && 2 * i + 1 < |s|
  {
    s[2 * i]
  }

  function RightOf<T>(s: seq<T>, i: int): T
    requires 0 <= i && 2 * i + 1 < |s|
  {
    s[2 * i + 1]
  }

  /** The longitudinal texture coordinate of point `i` out of `n`. */
  function Ratio(i: int, n: int): real
    requires n >= 2
  {
    (i as real) / ((n - 1) as real)
  }

  /** The six indices that point `i` (1 <= i < n) adds to the triangle list. */
  function Quad(tri: seq<int>, i: int): seq<int>
    requires 1 <= i && 6 * i <= |tri|
  {
    tri[6 * (i - 1)..6 * i]
  }

  /** The triangle list of a strip of `n` points: for every point after the
      first, the triangles (2i-2, 2i-1, 2i) and (2i, 2i-1, 2i+1). */
  predicate IsStrip(tri: seq<int>, n: int) {
    |tri| == (if n <= 0 then 0 else 6 * (n - 1)) &&
    forall i :: 1 <= i < n ==> Quad(tri, i) == [2 * i - 2, 2 * i - 1, 2 * i, 2 * i, 2 * i - 1, 2 * i + 1]
  }

  /** Every entry of a strip's triangle list names one of its `2n` vertices. */
  lemma StripIndicesInRange(tri: seq<int>, n: int)
    requires IsStrip(tri, n)
    ensures forall k :: 0 <= k < |tri| ==> 0 <= tri[k] < 2 * n
  {
    forall k | 0 <= k < |tri|
      ensures 0 <= tri[k] < 2 * n
    {
      var i := k / 6 + 1;
      assert Quad(tri, i)[k % 6] == tri[k];
    }
  }

  /** Every one of the `2n` vertices of a strip of at least two points is
      used by some triangle. */
  lemma StripUsesEveryVertex(tri: seq<int>, n: int)
    requires n >= 2 && IsStrip(tri, n)
    ensures forall v :: 0 <= v < 2 * n ==> v in tri
  {
    forall v | 0 <= v < 2 * n
      ensures v in tri
    {
      var i := v / 2;
      if v == 0 {
        assert Quad(tri, 1)[0] == tri[0];
      } else if v == 1 {
        assert Quad(tri, 1)[1] == tri[1];
      } else if v % 2 == 0 {
        assert Quad(tri, i)[2] == tri[6 * (i - 1) + 2];
      } else {
        assert Quad(tri, i)[5] == tri[6 * (i - 1) + 5];
      }
    }
  }

  /** Triangle `t` of a list (entries `3t .. 3t+2`) runs along the directed
      edge from vertex `a` to vertex `b`. */
  predicate HasEdge(tri: seq<int>, t: int, a: int, b: int)
    requires 0 <= t && 3 * t + 3 <= |tri|
  {
    (tri[3 * t] == a && tri[3 * t + 1] == b) ||
    (tri[3 * t + 1] == a && tri[3 * t + 2] == b) ||
    (tri[3 * t + 2] == a && tri[3 * t] == b)
  }

  /** Triangles `t` and `t + 1` share an edge that they run along in
      opposite directions. */
  ghost predicate SharesReversedEdge(tri: seq<int>, t: int)
    requires 0 <= t && 3 * t + 6 <= |tri|
  {
    exists a, b :: HasEdge(tri, t, a, b) && HasEdge(tri, t + 1, b, a)
  }

  /** The winding of a strip is consistent: every triangle uses three
      distinct vertices, and each triangle shares an edge with the next one,
      traversed in the opposite direction, so all faces are oriented alike. */
  lemma StripWindingIsConsistent(tri: seq<int>, n: int)
    requires n >= 2 && IsStrip(tri, n)
    ensures forall t :: 0 <= t < 2 * (n - 1) ==>
              tri[3 * t] != tri[3 * t + 1] && tri[3 * t + 1] != tri[3 * t + 2] && tri[3 * t] != tri[3 * t + 2]
    ensures forall t :: 0 <= t < 2 * (n - 1) - 1 ==> SharesReversedEdge(tri, t)
  {
    forall t | 0 <= t < 2 * (n - 1)
      ensures tri[3 * t] != tri[3 * t + 1] && tri[3 * t + 1] != tri[3 * t + 2] && tri[3 * t] != tri[3 * t + 2]
    {
      var i := t / 2 + 1;
      var q := Quad(tri, i);
      var base := 3 * (t % 2);
      assert tri[3 * t] == q[base] && tri[3 * t + 1] == q[base + 1] && tri[3 * t + 2] == q[base + 2];
    }
    forall t | 0 <= t < 2 * (n - 1) - 1
      ensures SharesReversedEdge(tri, t)
    {
      var i := t / 2 + 1;
      var q := Quad(tri, i);
      if t % 2 == 0 {
        // (2i-2, 2i-1, 2i) then (2i, 2i-1, 2i+1): shared edge 2i-1 -> 2i
        assert tri[3 * t + 1] == q[1] && tri[3 * t + 2] == q[2];
        assert tri[3 * t + 3] == q[3] && tri[3 * t + 4] == q[4];
        assert HasEdge(tri, t, 2 * i - 1, 2 * i) && HasEdge(tri, t + 1, 2 * i, 2 * i - 1);
      } else {
        // (2i, 2i-1, 2i+1) then (2i, 2i+1, 2i+2): shared edge 2i+1 -> 2i
        var q2 := Quad(tri, i + 1);
        assert tri[3 * t + 2] == q[5] && tri[3 * t] == q[3];
        assert tri[3 * t + 3] == q2[0] && tri[3 * t + 4] == q2[1];
        assert HasEdge(tri, t, 2 * i + 1, 2 * i) && HasEdge(tri, t + 1, 2 * i, 2 * i + 1);
      }
    }
  }

  /** The texture coordinate runs from 0 at the newest point to 1 at the
      oldest, strictly increasing along the strip. */
  lemma RatioRunsFromZeroToOne(n: int)
    requires n >= 2
    ensures Ratio(0, n) == 0.0 && Ratio(n - 1, n) == 1.0
    ensures forall i, j :: 0 <= i < j < n ==> Ratio(i, n) < Ratio(j, n)
    ensures forall i :: 0 <= i < n ==> 0.0 <= Ratio(i, n) <= 1.0
  {
    var d := (n - 1) as real;
    forall i, j | 0 <= i < j < n
      ensures Ratio(i, n) < Ratio(j, n)
    {
      QuotientIsMonotone(i as real, j as real, d);
    }
    forall i | 0 < i < n - 1
      ensures 0.0 < Ratio(i, n) < 1.0
    {
      QuotientIsMonotone(0.0, i as real, d);
      QuotientIsMonotone(i as real, d, d);
    }
  }

  /** Dividing by a positive number keeps a strict order. */
  lemma QuotientIsMonotone(a: real, b: real, d: real)
    requires a < b && d > 0.0
    ensures a / d < b / d
  {
    assert b / d - a / d == (b - a) / d;
  }

  /** The two edge vertices `position -/+ perpendicular * width * 0.5` of a
      point: centred on the point, `width` apart along `perpendicular`. */
  function EdgeVertices(position: Vec3, perpendicular: Vec3, width: real): (e: (Vec3, Vec3))
    ensures Add(e.0, e.1) == Scale(2.0, position)
    ensures Sub(e.1, e.0) == Scale(width, perpendicular)
  {
    var half := Scale(0.5, Scale(width, perpendicular));
    (Sub(position, half), Add(position, half))
  }

  /** The UVs of the first `count` points of a strip of `n`: `(Ratio, 0)` on
      the left edge and `(Ratio, 1)` on the right. */
  predicate UvsFit(uvs: seq<Uv>, n: int, count: int)
    requires n >= 2 && 0 <= count && 2 * count <= |uvs|
  {
    forall i :: 0 <= i < count ==>
      LeftOf(uvs, i) == Uv(Ratio(i, n), 0.0) && RightOf(uvs, i) == Uv(Ratio(i, n), 1.0)
  }

  /** The vertices of the first `count` points: each pair is centred on its
      display point and spans `width` along the perpendicular of the path
      direction and the direction to the camera. */
  predicate VerticesFit(vertices: seq<Vec3>, dp: seq<Slot>, n: int, count: int,
                        cameraPos: Vec3, width: real, perpendicular: (Vec3, Vec3) -> Vec3)
    requires 2 <= n <= |dp| && forall k :: 0 <= k < n ==> dp[k].Live?
    requires 0 <= count <= n && 2 * count <= |vertices|
  {
    forall i :: 0 <= i < count ==>
      Add(LeftOf(vertices, i), RightOf(vertices, i)) == Scale(2.0, Position(dp, i)) &&
      Sub(RightOf(vertices, i), LeftOf(vertices, i))
        == Scale(width, perpendicular(PathDirection(dp, n, i), Sub(cameraPos, Position(dp, i))))
  }

  /** Appending one pair to a buffer of `i` pairs keeps the earlier pairs. */
  lemma AppendPair<T>(s: seq<T>, a: T, b: T, i: int)
    requires 0 <= i && |s| == 2 * i
    ensures forall k :: 0 <= k < i ==>
              LeftOf(s + [a, b], k) == LeftOf(s, k) && RightOf(s + [a, b], k) == RightOf(s, k)
    ensures LeftOf(s + [a, b], i) == a && RightOf(s + [a, b], i) == b
  {
  }

  /** Appending the quad of point `i` extends a strip of `i` points by one. */
  lemma AppendQuad(tri: seq<int>, i: int)
    requires 1 <= i && IsStrip(tri, i)
    ensures IsStrip(tri + [2 * i - 2, 2 * i - 1, 2 * i, 2 * i, 2 * i - 1, 2 * i + 1], i + 1)
  {
    var t := tri + [2 * i - 2, 2 * i - 1, 2 * i, 2 * i, 2 * i - 1, 2 * i + 1];
    forall k | 1 <= k < i
      ensures Quad(t, k) == Quad(tri, k)
    {
    }
    assert Quad(t, i) == [2 * i - 2, 2 * i - 1, 2 * i, 2 * i, 2 * i - 1, 2 * i + 1];
  }

  /** The edge vertices of point `i` as the loop body of `RenderTrail`
      computes them: the path direction runs to the next point, or from the
      previous one at the last point. */
  function PointEdges(dp: seq<Slot>, n: int, i: int, cameraPos: Vec3, width: real,
                      perpendicular: (Vec3, Vec3) -> Vec3): (e: (Vec3, Vec3))
    requires 2 <= n <= |dp| && forall k :: 0 <= k < n ==> dp[k].Live?
    requires 0 <= i < n
    ensures Add(e.0, e.1) == Scale(2.0, Position(dp, i))
    ensures Sub(e.1, e.0)
              == Scale(width, perpendicular(PathDirection(dp, n, i), Sub(cameraPos, Position(dp, i))))
  {
    var from := if i != n - 1 then Position(dp, i) else Position(dp, i - 1);
    var to := if i != n - 1 then Position(dp, i + 1) else Position(dp, i);
    var pointDir := Sub(to, from);
    var vectorToCamera := Sub(cameraPos, Position(dp, i));
    EdgeVertices(Position(dp, i), perpendicular(pointDir, vectorToCamera), width)
  }

  /** Appending the UVs of point `i` extends a fitting prefix by one point. */
  lemma ExtendUvs(uvs: seq<Uv>, n: int, i: int)
    requires n >= 2 && 0 <= i && |uvs| == 2 * i
    requires UvsFit(uvs, n, i)
    ensures UvsFit(uvs + [Uv(Ratio(i, n), 0.0), Uv(Ratio(i, n), 1.0)], n, i + 1)
  {
    AppendPair(uvs, Uv(Ratio(i, n), 0.0), Uv(Ratio(i, n), 1.0), i);
  }

  /** Appending the edge vertices of point `i` extends a fitting prefix by one point. */
  lemma ExtendVertices(vertices: seq<Vec3>, dp: seq<Slot>, n: int, i: int,
                       cameraPos: Vec3, width: real, perpendicular: (Vec3, Vec3) -> Vec3)
    requires 2 <= n <= |dp| && forall k :: 0 <= k < n ==> dp[k].Live?
    requires 0 <= i < n && |vertices| == 2 * i
    requires VerticesFit(vertices, dp, n, i, cameraPos, width, perpendicular)
    ensures var e := PointEdges(dp, n, i, cameraPos, width, perpendicular);
            VerticesFit(vertices + [e.0, e.1], dp, n, i + 1, cameraPos, width, perpendicular)
  {
    var e := PointEdges(dp, n, i, cameraPos, width, perpendicular);
    AppendPair(vertices, e.0, e.1, i);
  }

  /** The index, UV, colour and vertex buffers of `RenderTrail` for the
      first `n` slots of `dp`. `perpendicular` stands for
      `Vector3.Cross(pointDir, vectorToCamera).normalized`. The source writes
      each buffer in increasing index order, so appending builds the same
      arrays. */
  method RenderTrail(dp: seq<Slot>, n: int, cameraPos: Vec3, width: real, color: Color,
                     perpendicular: (Vec3, Vec3) -> Vec3)
    returns (m: Mesh)
    requires Renderable(dp, n)
    ensures n == 0 ==> m == EmptyMesh
    ensures |m.vertices| == 2 * n && |m.uvs| == 2 * n && |m.colors| == 2 * n
    ensures IsStrip(m.triangles, n)
    ensures forall k :: 0 <= k < |m.triangles| ==> 0 <= m.triangles[k] < 2 * n
    ensures forall k :: 0 <= k < |m.colors| ==> m.colors[k] == color
    ensures n >= 2 ==> UvsFit(m.uvs, n, n)
    ensures n >= 2 ==> VerticesFit(m.vertices, dp, n, n, cameraPos, width, perpendicular)
  {
    if n == 0 {
      return EmptyMesh;
    }
    var vertices: seq<Vec3> := [];
    var uvs: seq<Uv> := [];
    var colors: seq<Color> := [];
    var triangles: seq<int> := [];
    var pointRatio := 1.0 / ((n - 1) as real);
    var i := 0;
    while i < n
      invariant 0 <= i <= n
      invariant |vertices| == 2 * i && |uvs| == 2 * i && |colors| == 2 * i
      invariant IsStrip(triangles, i)
      invariant forall k :: 0 <= k < |colors| ==> colors[k] == color
      invariant UvsFit(uvs, n, i)
      invariant VerticesFit(vertices, dp, n, i, cameraPos, width, perpendicular)
    {
      var ratio := (i as real) * pointRatio;
      assert ratio == Ratio(i, n);
      colors := colors + [color, color];

      var edges := PointEdges(dp, n, i, cameraPos, width, perpendicular);
      ExtendVertices(vertices, dp, n, i, cameraPos, width, perpendicular);
      ExtendUvs(uvs, n, i);
      vertices := vertices + [edges.0, edges.1];
      uvs := uvs + [Uv(ratio, 0.0), Uv(ratio, 1.0)];

      if i > 0 {
        var vertIndex := i * 2;
        AppendQuad(triangles, i);
        triangles := triangles + [vertIndex - 2, vertIndex - 1, vertIndex - 0,
                                  vertIndex + 0, vertIndex - 1, vertIndex + 1];
      }
      i := i + 1;
    }
    m := Mesh(vertices, uvs, colors, triangles);
    StripIndicesInRange(triangles, n);
  }
}
