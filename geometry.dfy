/** The geometric value types of the triangulator: points with `i32`
    coordinates, edges compared as unordered pairs, triangles compared as
    unordered triples, and the circumcircle / in-circle predicate.

    The source evaluates the circumcircle in `f64`; here it is evaluated in
    exact arithmetic: the coordinates become `real`s, the centre is the
    source's quotient, and the radius is kept squared. */
module Geometry {
  import opened Errors

  const I32_MIN: int := -0x8000_0000
  const I32_MAX: int := 0x7fff_ffff

  /** Rust's `i32`. */
  type Int32 = x: int | -0x8000_0000 <= x <= 0x7fff_ffff

  // ---------------------------------------------------------------------
  // Points and their derived order
  // ---------------------------------------------------------------------

  datatype Point = Point(x: Int32, y: Int32)

  /** The order `#[derive(PartialOrd, Ord)]` gives `Point`: lexicographic
      by `x`, then by `y` (field declaration order). */
  predicate PointLe(p: Point, q: Point) {
    p.x < q.x || (p.x == q.x && p.y <= q.y)
  }

  lemma PointLeIsTotalOrder(p: Point, q: Point, r: Point)
    ensures PointLe(p, p)
    ensures PointLe(p, q) && PointLe(q, p) ==> p == q
    ensures PointLe(p, q) && PointLe(q, r) ==> PointLe(p, r)
    ensures PointLe(p, q) || PointLe(q, p)
  {
  }

  predicate Sorted(s: seq<Point>) {
    forall i, j :: 0 <= i < j < |s| ==> PointLe(s[i], s[j])
  }

  /** The pair `(p, q)` in non-decreasing order. */
  function MinMax(p: Point, q: Point): (r: (Point, Point))
    ensures PointLe(r.0, r.1)
    ensures r == (p, q) || r == (q, p)
  {
    if PointLe(p, q) then (p, q) else (q, p)
  }

  lemma MinMaxFirstPermutes(a: Point, b: Point, c: Point)
    ensures var r := MinMax(a, b); multiset([r.0, r.1, c]) == multiset([a, b, c])
  {
    var r := MinMax(a, b);
    if r != (a, b) { assert r == (b, a); }
  }

  lemma MinMaxLastPermutes(a: Point, b: Point, c: Point)
    ensures var r := MinMax(b, c); multiset([a, r.0, r.1]) == multiset([a, b, c])
  {
    var r := MinMax(b, c);
    if r != (b, c) { assert r == (c, b); }
  }

  /** The three compare-exchange steps of `Network3` only permute the array. */
  lemma NetworkPermutes(a: Point, b: Point, c: Point)
    ensures var r := MinMax(a, b); var q := MinMax(r.1, c); var o := MinMax(r.0, q.0);
      multiset([o.0, o.1, q.1]) == multiset([a, b, c])
  {
    var r := MinMax(a, b);
    var q := MinMax(r.1, c);
    MinMaxFirstPermutes(a, b, c);
    MinMaxLastPermutes(r.0, r.1, c);
    MinMaxFirstPermutes(r.0, q.0, q.1);
  }

  /** Sorting three points by three compare-exchange steps, each of which
      swaps two vertices. It is a proof device: each step is a vertex swap
      that keeps the circumcircle (`CircumcircleOfSorted`). */
  function Network3(a: Point, b: Point, c: Point): (r: seq<Point>)
    ensures |r| == 3
  {
    var r := MinMax(a, b);
    var q := MinMax(r.1, c);
    var o := MinMax(r.0, q.0);
    [o.0, o.1, q.1]
  }

  /** `Network3` returns a sorted permutation of its input. */
  lemma Network3Sorts(a: Point, b: Point, c: Point)
    ensures Sorted(Network3(a, b, c))
    ensures multiset(Network3(a, b, c)) == multiset([a, b, c])
  {
    NetworkPermutes(a, b, c);
  }

  /** `p` inserted into the sorted `s` before the first element above it. */
  function Insert(p: Point, s: seq<Point>): (r: seq<Point>)
    ensures |r| == |s| + 1
  {
    if s == [] || PointLe(p, s[0]) then [p] + s else [s[0]] + Insert(p, s[1..])
  }

  /** `sort_unstable` on a vertex array, as an insertion sort. Any sort gives
      the same array, because a sorted arrangement of a multiset under a
      total order is unique (`SortedUnique`). */
  function SortPoints(s: seq<Point>): (r: seq<Point>)
    ensures |r| == |s|
  {
    if s == [] then [] else Insert(s[0], SortPoints(s[1..]))
  }

  /** Insertion adds exactly one occurrence of `p`. */
  lemma {:induction false} InsertPermutes(p: Point, s: seq<Point>)
    ensures multiset(Insert(p, s)) == multiset(s) + multiset{p}
  {
    if s != [] && !PointLe(p, s[0]) {
      InsertPermutes(p, s[1..]);
      assert s == [s[0]] + s[1..];
    }
  }

  /** The least element of a sorted sequence comes first. */
  lemma SortedHeadIsLeast(s: seq<Point>, x: Point)
    requires Sorted(s) && x in s
    ensures PointLe(s[0], x)
  {
    var j :| 0 <= j < |s| && s[j] == x;
    if j == 0 {
      PointLeIsTotalOrder(x, x, x);
    }
  }

  /** Insertion keeps a sequence sorted. */
  lemma {:induction false} InsertSorted(p: Point, s: seq<Point>)
    requires Sorted(s)
    ensures Sorted(Insert(p, s))
  {
    var r := Insert(p, s);
    if s == [] {
    } else if PointLe(p, s[0]) {
      forall j | 1 <= j < |r|
        ensures PointLe(p, r[j])
      {
        assert r[j] == s[j - 1];
        PointLeIsTotalOrder(p, s[0], s[j - 1]);
      }
    } else {
      var rest := Insert(p, s[1..]);
      InsertSorted(p, s[1..]);
      InsertPermutes(p, s[1..]);
      assert r == [s[0]] + rest;
      forall j | 0 <= j < |rest|
        ensures PointLe(s[0], rest[j])
      {
        assert rest[j] in multiset(rest);
        if rest[j] == p {
          PointLeIsTotalOrder(s[0], p, p);
        } else {
          assert rest[j] in s[1..];
          var k :| 0 <= k < |s[1..]| && s[1..][k] == rest[j];
          assert s[k + 1] == rest[j];
        }
      }
    }
  }

  /** `SortPoints` returns a sorted permutation of its input. */
  lemma {:induction false} SortPointsSorts(s: seq<Point>)
    ensures Sorted(SortPoints(s))
    ensures multiset(SortPoints(s)) == multiset(s)
  {
    if s != [] {
      SortPointsSorts(s[1..]);
      InsertSorted(s[0], SortPoints(s[1..]));
      InsertPermutes(s[0], SortPoints(s[1..]));
      assert s == [s[0]] + s[1..];
    }
  }

  /** Two sorted sequences holding the same multiset of points are equal. */
  lemma {:induction false} SortedUnique(s: seq<Point>, t: seq<Point>)
    requires Sorted(s) && Sorted(t)
    requires multiset(s) == multiset(t)
    ensures s == t
    decreases |s|
  {
    assert |s| == |multiset(s)| == |multiset(t)| == |t|;
    if |s| > 0 {
      assert s[0] in multiset(t) && t[0] in multiset(s);
      SortedHeadIsLeast(t, s[0]);
      SortedHeadIsLeast(s, t[0]);
      PointLeIsTotalOrder(s[0], t[0], t[0]);
      assert s == [s[0]] + s[1..];
      assert t == [t[0]] + t[1..];
      assert s[0] == t[0];
      assert multiset(s[1..]) == multiset(s) - multiset{s[0]} by {
        assert multiset(s) == multiset([s[0]]) + multiset(s[1..]);
      }
      assert multiset(t[1..]) == multiset(t) - multiset{t[0]} by {
        assert multiset(t) == multiset([t[0]]) + multiset(t[1..]);
      }
      SortedUnique(s[1..], t[1..]);
    }
  }

  // ---------------------------------------------------------------------
  // Edges
  // ---------------------------------------------------------------------

  datatype Edge = Edge(a: Point, b: Point)

  /** `impl PartialEq for Edge`: the same endpoints in either order. */
  predicate EdgeEq(e: Edge, f: Edge) {
    (e.a == f.a && e.b == f.b) || (e.a == f.b && e.b == f.a)
  }

  /** Edge equality is symmetric in the endpoints and an equivalence. */
  lemma EdgeEqIsEquivalence(e: Edge, f: Edge, g: Edge)
    ensures EdgeEq(Edge(e.a, e.b), Edge(e.b, e.a))
    ensures EdgeEq(e, e)
    ensures EdgeEq(e, f) ==> EdgeEq(f, e)
    ensures EdgeEq(e, f) && EdgeEq(f, g) ==> EdgeEq(e, g)
  {
  }

  /** Edge equality is equality of the endpoint multisets. */
  lemma EdgeEqIffSameEndpoints(e: Edge, f: Edge)
    ensures EdgeEq(e, f) <==> multiset{e.a, e.b} == multiset{f.a, f.b}
  {
    if multiset{e.a, e.b} == multiset{f.a, f.b} {
      assert e.a in multiset{f.a, f.b};
      if e.a == f.a {
        assert multiset{e.b} == multiset{e.a, e.b} - multiset{e.a};
        assert multiset{f.b} == multiset{f.a, f.b} - multiset{f.a};
        assert e.b in multiset{f.b};
      } else {
        assert multiset{e.b} == multiset{e.a, e.b} - multiset{e.a};
        assert multiset{f.a} == multiset{f.a, f.b} - multiset{f.b};
        assert e.b in multiset{f.a};
      }
    }
  }

  // ---------------------------------------------------------------------
  // Triangles
  // ---------------------------------------------------------------------

  datatype Triangle = Triangle(a: Point, b: Point, c: Point)

  /** `Triangle::new([a, b, c])`: the vertices are kept in the given order. */
  function New(vertices: seq<Point>): (t: Triangle)
    requires |vertices| == 3
    ensures Points(t) == vertices
  {
    Triangle(vertices[0], vertices[1], vertices[2])
  }

  /** `Triangle::points`: the vertex array in construction order. */
  function Points(t: Triangle): seq<Point> {
    [t.a, t.b, t.c]
  }

  /** `Triangle::edges`: the sides (a, b), (b, c), (c, a). */
  function Edges(t: Triangle): (r: seq<Edge>)
    ensures |r| == 3
  {
    [Edge(t.a, t.b), Edge(t.b, t.c), Edge(t.c, t.a)]
  }

  /** `Triangle::contains_edge`: some side equals `e` under `EdgeEq`. */
  predicate ContainsEdge(t: Triangle, e: Edge) {
    EdgeEq(Edges(t)[0], e) || EdgeEq(Edges(t)[1], e) || EdgeEq(Edges(t)[2], e)
  }

  /** `impl PartialEq for Triangle`: sort both vertex arrays and compare. */
  predicate TriangleEq(t: Triangle, u: Triangle) {
    SortPoints(Points(t)) == SortPoints(Points(u))
  }

  /** `Vec::<Triangle>::contains`: some element equals `t` under `TriangleEq`. */
  predicate ContainsTriangle(s: seq<Triangle>, t: Triangle) {
    exists i :: 0 <= i < |s| && TriangleEq(s[i], t)
  }

  /** Some triangle of `s` is collinear, so it has no circumcircle. */
  predicate HasDegenerate(s: seq<Triangle>) {
    exists i :: 0 <= i < |s| && Collinear(s[i])
  }

  /** Triangle equality is equality of the vertex multisets, so it ignores
      any permutation of the vertices. */
  lemma TriangleEqIffSameVertices(t: Triangle, u: Triangle)
    ensures TriangleEq(t, u) <==> multiset(Points(t)) == multiset(Points(u))
  {
    SortPointsSorts(Points(t));
    SortPointsSorts(Points(u));
    if multiset(Points(t)) == multiset(Points(u)) {
      SortedUnique(SortPoints(Points(t)), SortPoints(Points(u)));
    }
  }

  /** Every triangle contains each of its own sides. */
  lemma ContainsOwnSides(t: Triangle)
    ensures forall i :: 0 <= i < 3 ==> ContainsEdge(t, Edges(t)[i])
  {
  }

  /** The number of times `p` occurs among the vertices. */
  lemma VertexCount(t: Triangle, p: Point)
    ensures multiset(Points(t))[p]
         == (if t.a == p then 1 else 0) + (if t.b == p then 1 else 0) + (if t.c == p then 1 else 0)
  {
    assert multiset(Points(t)) == multiset{t.a} + multiset{t.b} + multiset{t.c};
  }

  /** A triangle contains an edge exactly when the edge's two endpoints are
      among its vertices, counted with multiplicity. */
  lemma ContainsEdgeIffSubMultiset(t: Triangle, e: Edge)
    ensures ContainsEdge(t, e) <==> multiset{e.a, e.b} <= multiset(Points(t))
  {
    var m := multiset(Points(t));
    VertexCount(t, e.a);
    VertexCount(t, e.b);
    if ContainsEdge(t, e) {
      forall p ensures multiset{e.a, e.b}[p] <= m[p] {
        VertexCount(t, p);
      }
    }
  }

  /** Equal triangles contain exactly the same edges. */
  lemma EqualTrianglesContainSameEdges(t: Triangle, u: Triangle, e: Edge)
    requires TriangleEq(t, u)
    ensures ContainsEdge(t, e) <==> ContainsEdge(u, e)
  {
    TriangleEqIffSameVertices(t, u);
    ContainsEdgeIffSubMultiset(t, e);
    ContainsEdgeIffSubMultiset(u, e);
  }

  /** Containment depends on an edge only up to `EdgeEq`. */
  lemma ContainsEdgeRespectsEdgeEq(t: Triangle, e: Edge, f: Edge)
    requires EdgeEq(e, f)
    ensures ContainsEdge(t, e) <==> ContainsEdge(t, f)
  {
  }

  // ---------------------------------------------------------------------
  // Circumcircle
  // ---------------------------------------------------------------------

  /** A circle given by its centre and its SQUARED radius. */
  datatype Circle = Circle(ux: real, uy: real, radiusSq: real)

  /** The orientation test: the integer cross product of b - a and c - a. */
  function Cross(t: Triangle): int {
    (t.b.x - t.a.x) * (t.c.y - t.a.y) - (t.b.y - t.a.y) * (t.c.x - t.a.x)
  }

  /** The three vertices lie on one line. */
  predicate Collinear(t: Triangle) {
    Cross(t) == 0
  }

  /** p1 (q2 - q3) + p2 (q3 - q1) + p3 (q1 - q2), the determinant of the
      3x3 matrix whose rows are (p_i, q_i, 1). The determinant `d` and the
      two numerators of the centre are all of this shape. */
  function Alt(p1: real, p2: real, p3: real, q1: real, q2: real, q3: real): real {
    p1 * (q2 - q3) + p2 * (q3 - q1) + p3 * (q1 - q2)
  }

  /** Exchanging two rows negates the determinant. */
  lemma AltSwap(p1: real, p2: real, p3: real, q1: real, q2: real, q3: real)
    ensures Alt(p2, p1, p3, q2, q1, q3) == -Alt(p1, p2, p3, q1, q2, q3)
    ensures Alt(p1, p3, p2, q1, q3, q2) == -Alt(p1, p2, p3, q1, q2, q3)
  {
  }

  /** The polynomial identity behind "the centre is equidistant from the
      vertices", with n_i standing for the squared norm of vertex i. */
  lemma AltIdentity(n1: real, n2: real, n3: real, x1: real, x2: real, x3: real,
                    y1: real, y2: real, y3: real)
    ensures Alt(n1, n2, n3, y1, y2, y3) * (x2 - x1) + Alt(x1, x2, x3, n1, n2, n3) * (y2 - y1)
         == Alt(x1, x2, x3, y1, y2, y3) * (n2 - n1)
  {
  }

  /** The vertex coordinates as the `f64` values the source computes with:
      (x1, y1) is a, (x2, y2) is b, (x3, y3) is c. */
  function Coords(t: Triangle): (real, real, real, real, real, real) {
    (t.a.x as real, t.a.y as real, t.b.x as real, t.b.y as real, t.c.x as real, t.c.y as real)
  }

  /** The value `d` of `circumcircle`. */
  function Determinant(t: Triangle): real {
    var (x1, y1, x2, y2, x3, y3) := Coords(t);
    2.0 * (x1 * (y2 - y3) + x2 * (y3 - y1) + x3 * (y1 - y2))
  }

  /** The numerator of the centre's x coordinate, `ux * d`. */
  function CenterNumX(t: Triangle): real {
    var (x1, y1, x2, y2, x3, y3) := Coords(t);
    (x1 * x1 + y1 * y1) * (y2 - y3) + (x2 * x2 + y2 * y2) * (y3 - y1) + (x3 * x3 + y3 * y3) * (y1 - y2)
  }

  /** The numerator of the centre's y coordinate, `uy * d`. */
  function CenterNumY(t: Triangle): real {
    var (x1, y1, x2, y2, x3, y3) := Coords(t);
    (x1 * x1 + y1 * y1) * (x3 - x2) + (x2 * x2 + y2 * y2) * (x1 - x3) + (x3 * x3 + y3 * y3) * (x2 - x1)
  }

  /** The squared length of the vector (dx, dy). */
  function SqNorm(dx: real, dy: real): real {
    dx * dx + dy * dy
  }

  /** The squared distance from `p` to the point (ux, uy). */
  function SqDist(p: Point, ux: real, uy: real): real {
    SqNorm(p.x as real - ux, p.y as real - uy)
  }

  /** `d` is twice the integer cross product, so `d == 0` is exactly the
      collinearity test. */
  lemma DeterminantIsTwiceCross(t: Triangle)
    ensures Determinant(t) == 2.0 * Cross(t) as real
  {
    var (x1, y1, x2, y2, x3, y3) := Coords(t);
    assert Cross(t) as real == (x2 - x1) * (y3 - y1) - (y2 - y1) * (x3 - x1);
  }

  /** `Triangle::circumcircle`: fails exactly when the vertices are
      collinear; otherwise the centre is the weighted sum divided by `d`
      and the radius is measured to vertex `a`. */
  function Circumcircle(t: Triangle): (r: Result<Circle>)
    ensures r.Err? <==> Collinear(t)
  {
    DeterminantIsTwiceCross(t);
    var d := Determinant(t);
    if d == 0.0 then Err
    else
      var ux := CenterNumX(t) / d;
      var uy := CenterNumY(t) / d;
      Ok(Circle(ux, uy, SqDist(t.a, ux, uy)))
  }

  /** `Triangle::point_in_circumcircle`: fails exactly when `circumcircle`
      fails; otherwise the boundary counts as inside. The source compares
      `sqrt` distances; comparing squares is the same test. */
  function PointInCircumcircle(t: Triangle, p: Point): (r: Result<bool>)
    ensures r.Err? <==> Collinear(t)
  {
    match Circumcircle(t)
    case Err => Err
    case Ok(c) => Ok(SqDist(p, c.ux, c.uy) <= c.radiusSq)
  }

  /** `d` as twice the determinant of the coordinates. */
  lemma DeterminantAsAlt(t: Triangle)
    ensures var (x1, y1, x2, y2, x3, y3) := Coords(t);
      Determinant(t) == 2.0 * Alt(x1, x2, x3, y1, y2, y3)
  {
  }

  /** The numerator of `ux` as a determinant with the squared norms. */
  lemma CenterNumXAsAlt(t: Triangle)
    ensures var (x1, y1, x2, y2, x3, y3) := Coords(t);
      CenterNumX(t) == Alt(SqNorm(x1, y1), SqNorm(x2, y2), SqNorm(x3, y3), y1, y2, y3)
  {
  }

  /** The numerator of `uy` as a determinant with the squared norms. */
  lemma CenterNumYAsAlt(t: Triangle)
    ensures var (x1, y1, x2, y2, x3, y3) := Coords(t);
      CenterNumY(t) == Alt(x1, x2, x3, SqNorm(x1, y1), SqNorm(x2, y2), SqNorm(x3, y3))
  {
  }

  /** The numerators and `d` in the shape of `Alt`. */
  lemma CircumcircleTermsAsAlt(t: Triangle)
    ensures var (x1, y1, x2, y2, x3, y3) := Coords(t);
      var (n1, n2, n3) := (SqNorm(x1, y1), SqNorm(x2, y2), SqNorm(x3, y3));
      && Determinant(t) == 2.0 * Alt(x1, x2, x3, y1, y2, y3)
      && CenterNumX(t) == Alt(n1, n2, n3, y1, y2, y3)
      && CenterNumY(t) == Alt(x1, x2, x3, n1, n2, n3)
  {
    DeterminantAsAlt(t);
    CenterNumXAsAlt(t);
    CenterNumYAsAlt(t);
  }

  /** The two identities `AltIdentity` gives for the centre numerators,
      stated with d = 2 D. */
  lemma CenterNumeratorIdentities(x1: real, y1: real, x2: real, y2: real, x3: real, y3: real,
                                  n1: real, n2: real, n3: real, d: real, nx: real, ny: real)
    requires d == 2.0 * Alt(x1, x2, x3, y1, y2, y3)
    requires nx == Alt(n1, n2, n3, y1, y2, y3) && ny == Alt(x1, x2, x3, n1, n2, n3)
    ensures nx * (x2 - x1) + ny * (y2 - y1) == (d / 2.0) * (n2 - n1)
    ensures nx * (x3 - x1) + ny * (y3 - y1) == (d / 2.0) * (n3 - n1)
  {
    AltIdentity(n1, n2, n3, x1, x2, x3, y1, y2, y3);
    AltIdentity(n1, n3, n2, x1, x3, x2, y1, y3, y2);
    AltSwap(n1, n2, n3, y1, y2, y3);
    AltSwap(x1, x2, x3, n1, n2, n3);
    AltSwap(x1, x2, x3, y1, y2, y3);
  }

  lemma DivTimes(n: real, d: real)
    requires d != 0.0
    ensures (n / d) * d == n
  {
  }

  /** If u * d = nx, v * d = ny and nx (qx - px) + ny (qy - py) equals
      d / 2 times the difference of the squared norms of q and p, then
      (u, v) is as far from q as from p. */
  lemma EquidistantFromIdentity(u: real, v: real, d: real, nx: real, ny: real,
                                px: real, py: real, qx: real, qy: real)
    requires d != 0.0 && u == nx / d && v == ny / d
    requires nx * (qx - px) + ny * (qy - py) == (d / 2.0) * (SqNorm(qx, qy) - SqNorm(px, py))
    ensures SqNorm(qx - u, qy - v) == SqNorm(px - u, py - v)
  {
    DivTimes(nx, d);
    DivTimes(ny, d);
    var k := u * (qx - px) + v * (qy - py);
    var h := (SqNorm(qx, qy) - SqNorm(px, py)) / 2.0;
    assert d * k == nx * (qx - px) + ny * (qy - py);
    assert d * k == d * h;
    assert k == h;
    assert (qx - u) * (qx - u) - (px - u) * (px - u) == qx * qx - px * px - 2.0 * u * (qx - px);
    assert (qy - v) * (qy - v) - (py - v) * (py - v) == qy * qy - py * py - 2.0 * v * (qy - py);
  }

  /** The exact centre (nx / d, ny / d) is equidistant from the three points. */
  lemma CenterEquidistantReal(x1: real, y1: real, x2: real, y2: real, x3: real, y3: real,
                              d: real, nx: real, ny: real, u: real, v: real)
    requires d == 2.0 * Alt(x1, x2, x3, y1, y2, y3) && d != 0.0
    requires nx == Alt(SqNorm(x1, y1), SqNorm(x2, y2), SqNorm(x3, y3), y1, y2, y3)
    requires ny == Alt(x1, x2, x3, SqNorm(x1, y1), SqNorm(x2, y2), SqNorm(x3, y3))
    requires u == nx / d && v == ny / d
    ensures SqNorm(x2 - u, y2 - v) == SqNorm(x1 - u, y1 - v)
    ensures SqNorm(x3 - u, y3 - v) == SqNorm(x1 - u, y1 - v)
  {
    CenterNumeratorIdentities(x1, y1, x2, y2, x3, y3, SqNorm(x1, y1), SqNorm(x2, y2), SqNorm(x3, y3), d, nx, ny);
    EquidistantFromIdentity(u, v, d, nx, ny, x1, y1, x2, y2);
    EquidistantFromIdentity(u, v, d, nx, ny, x1, y1, x3, y3);
  }

  /** The circumcentre is at the same distance from all three vertices. */
  lemma CircumcenterEquidistant(t: Triangle)
    requires !Collinear(t)
    ensures var c := Circumcircle(t).value;
      && SqDist(t.a, c.ux, c.uy) == c.radiusSq
      && SqDist(t.b, c.ux, c.uy) == c.radiusSq
      && SqDist(t.c, c.ux, c.uy) == c.radiusSq
  {
    var c := Circumcircle(t).value;
    var (x1, y1, x2, y2, x3, y3) := Coords(t);
    CircumcircleTermsAsAlt(t);
    CenterEquidistantReal(x1, y1, x2, y2, x3, y3, Determinant(t), CenterNumX(t), CenterNumY(t), c.ux, c.uy);
  }

  /** Every vertex lies on the circumcircle, so the inclusive in-circle test
      accepts each of the triangle's own vertices. */
  lemma VerticesInCircumcircle(t: Triangle)
    requires !Collinear(t)
    ensures PointInCircumcircle(t, t.a) == Ok(true)
    ensures PointInCircumcircle(t, t.b) == Ok(true)
    ensures PointInCircumcircle(t, t.c) == Ok(true)
  {
    CircumcenterEquidistant(t);
  }

  lemma NegateBoth(n: real, d: real)
    requires d != 0.0
    ensures (-n) / (-d) == n / d
  {
  }

  /** Exchanging two vertices negates `d` and both centre numerators. */
  lemma SwapNegatesTerms(t: Triangle, u: Triangle)
    requires u == Triangle(t.b, t.a, t.c) || u == Triangle(t.a, t.c, t.b)
    ensures Determinant(u) == -Determinant(t)
    ensures CenterNumX(u) == -CenterNumX(t)
    ensures CenterNumY(u) == -CenterNumY(t)
  {
    var (x1, y1, x2, y2, x3, y3) := Coords(t);
    var (n1, n2, n3) := (SqNorm(x1, y1), SqNorm(x2, y2), SqNorm(x3, y3));
    CircumcircleTermsAsAlt(t);
    CircumcircleTermsAsAlt(u);
    AltSwap(x1, x2, x3, y1, y2, y3);
    AltSwap(n1, n2, n3, y1, y2, y3);
    AltSwap(x1, x2, x3, n1, n2, n3);
  }

  /** Exchanging the first two vertices changes neither the circumcircle nor
      whether it exists. */
  lemma CircumcircleSwapFirst(a: Point, b: Point, c: Point)
    ensures Circumcircle(Triangle(b, a, c)) == Circumcircle(Triangle(a, b, c))
  {
    var t, u := Triangle(a, b, c), Triangle(b, a, c);
    SwapNegatesTerms(t, u);
    if !Collinear(t) {
      NegateBoth(CenterNumX(t), Determinant(t));
      NegateBoth(CenterNumY(t), Determinant(t));
      CircumcenterEquidistant(t);
    }
  }

  /** Exchanging the last two vertices changes neither the circumcircle nor
      whether it exists. */
  lemma CircumcircleSwapLast(a: Point, b: Point, c: Point)
    ensures Circumcircle(Triangle(a, c, b)) == Circumcircle(Triangle(a, b, c))
  {
    var t, u := Triangle(a, b, c), Triangle(a, c, b);
    SwapNegatesTerms(t, u);
    if !Collinear(t) {
      NegateBoth(CenterNumX(t), Determinant(t));
      NegateBoth(CenterNumY(t), Determinant(t));
    }
  }

  /** The circumcircle of the sorted vertex arrangement is the triangle's own. */
  lemma CircumcircleOfSorted(t: Triangle)
    ensures Circumcircle(New(SortPoints(Points(t)))) == Circumcircle(t)
  {
    var r := MinMax(t.a, t.b);
    CircumcircleSwapFirst(t.a, t.b, t.c);
    var q := MinMax(r.1, t.c);
    CircumcircleSwapLast(r.0, r.1, t.c);
    var o := MinMax(r.0, q.0);
    CircumcircleSwapFirst(r.0, q.0, q.1);
    Network3Sorts(t.a, t.b, t.c);
    SortPointsSorts(Points(t));
    SortedUnique(Network3(t.a, t.b, t.c), SortPoints(Points(t)));
    assert SortPoints(Points(t)) == [o.0, o.1, q.1];
  }

  /** Equal triangles (in the permutation-invariant sense) have the same
      circumcircle, hence the same in-circle answers and the same failures. */
  lemma CircumcirclePermutationInvariant(t: Triangle, u: Triangle, p: Point)
    requires TriangleEq(t, u)
    ensures Circumcircle(t) == Circumcircle(u)
    ensures PointInCircumcircle(t, p) == PointInCircumcircle(u, p)
  {
    CircumcircleOfSorted(t);
    CircumcircleOfSorted(u);
  }
}
