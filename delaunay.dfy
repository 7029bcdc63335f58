/** The Bowyer–Watson incremental triangulator: a super-triangle seeds the
    working list, every input point replaces the triangles whose
    circumcircle holds it by a fan over the boundary of the hole they leave,
    and the triangles touching the super-triangle are dropped at the end. */
module Delaunay {
  import opened Errors
  import opened Geometry
  import opened Lists

  // ---------------------------------------------------------------------
  // Bounding box and super-triangle
  // ---------------------------------------------------------------------

  /** `Iterator::min` over a non-empty sequence of coordinates. */
  function MinOf(s: seq<Int32>): (m: Int32)
    requires |s| > 0
    ensures m in s
    ensures forall i :: 0 <= i < |s| ==> m <= s[i]
    decreases |s|
  {
    if |s| == 1 then s[0]
    else
      assert s == s[..|s| - 1] + [s[|s| - 1]];
      var m := MinOf(s[..|s| - 1]);
      if s[|s| - 1] < m then s[|s| - 1] else m
  }

  /** `Iterator::max` over a non-empty sequence of coordinates. */
  function MaxOf(s: seq<Int32>): (m: Int32)
    requires |s| > 0
    ensures m in s
    ensures forall i :: 0 <= i < |s| ==> s[i] <= m
    decreases |s|
  {
    if |s| == 1 then s[0]
    else
      assert s == s[..|s| - 1] + [s[|s| - 1]];
      var m := MaxOf(s[..|s| - 1]);
      if m < s[|s| - 1] then s[|s| - 1] else m
  }

  /** The `x` coordinates of `points`, in order. */
  function Xs(points: seq<Point>): (r: seq<Int32>)
    ensures |r| == |points|
    decreases |points|
  {
    if points == [] then [] else Xs(points[..|points| - 1]) + [points[|points| - 1].x]
  }

  /** The `y` coordinates of `points`, in order. */
  function Ys(points: seq<Point>): (r: seq<Int32>)
    ensures |r| == |points|
    decreases |points|
  {
    if points == [] then [] else Ys(points[..|points| - 1]) + [points[|points| - 1].y]
  }

  lemma {:induction false} CoordinatesInOrder(points: seq<Point>)
    ensures forall i :: 0 <= i < |points| ==> Xs(points)[i] == points[i].x && Ys(points)[i] == points[i].y
    decreases |points|
  {
    if points != [] {
      CoordinatesInOrder(points[..|points| - 1]);
    }
  }

  /** An axis-aligned box given by its lower-left and upper-right corners. */
  datatype Box = Box(min: Point, max: Point)

  /** The component-wise bounding box of a non-empty point set. */
  function BoundingBox(points: seq<Point>): Box
    requires |points| > 0
  {
    Box(Point(MinOf(Xs(points)), MinOf(Ys(points))), Point(MaxOf(Xs(points)), MaxOf(Ys(points))))
  }

  /** Every point lies within the bounding box, and each of its four bounds
      is attained by some point, so no smaller box holds them all. */
  lemma BoundingBoxIsTight(points: seq<Point>)
    requires |points| > 0
    ensures var b := BoundingBox(points);
      forall i :: 0 <= i < |points| ==>
        b.min.x <= points[i].x <= b.max.x && b.min.y <= points[i].y <= b.max.y
    ensures var b := BoundingBox(points);
      (exists i :: 0 <= i < |points| && points[i].x == b.min.x) &&
      (exists i :: 0 <= i < |points| && points[i].y == b.min.y) &&
      (exists i :: 0 <= i < |points| && points[i].x == b.max.x) &&
      (exists i :: 0 <= i < |points| && points[i].y == b.max.y)
  {
    var xs, ys := Xs(points), Ys(points);
    CoordinatesInOrder(points);
    var i0 :| 0 <= i0 < |xs| && xs[i0] == MinOf(xs);
    var i1 :| 0 <= i1 < |ys| && ys[i1] == MinOf(ys);
    var i2 :| 0 <= i2 < |xs| && xs[i2] == MaxOf(xs);
    var i3 :| 0 <= i3 < |ys| && ys[i3] == MaxOf(ys);
  }

  /** An `i32` addition or subtraction as a release build evaluates it: the
      exact value reduced into the `i32` range modulo 2^32. */
  function Wrap32(v: int): (r: Int32)
    ensures (r - v) % 0x1_0000_0000 == 0
    ensures I32_MIN <= v <= I32_MAX ==> r == v
  {
    var m := v % 0x1_0000_0000;
    if m <= I32_MAX then m else m - 0x1_0000_0000
  }

  /** `(v as f32 / 2.0) as i32`: half of `v`, truncated toward zero. */
  function HalfTowardZero(v: Int32): (r: Int32)
    ensures 0 <= v ==> 2 * r <= v <= 2 * r + 1
    ensures v < 0 ==> 2 * r - 1 <= v <= 2 * r
  {
    if v >= 0 then v / 2
    else
      var h: int := -(v as int) / 2;
      assert 0 <= h <= 0x4000_0000;
      -h
  }

  /** `(base ± f32::INFINITY * (extent as f32)) as i32` for a finite `base`,
      with `positive` choosing the `+`: an infinite value saturates at the
      `i32` bound of its sign, and `INFINITY * 0.0` is NaN, which the cast
      turns into 0. */
  function InfiniteOffset(positive: bool, extent: Int32): Int32 {
    if extent == 0 then 0
    else if (0 < extent) == positive then I32_MAX
    else I32_MIN
  }

  /** The scaffolding triangle built from the bounding box with an infinite
      margin factor; it fails exactly when fewer than three points are given. */
  function SuperTriangle(points: seq<Point>): (r: Result<Triangle>)
    ensures r.Err? <==> |points| < 3
  {
    if |points| < 3 then Err
    else
      var box := BoundingBox(points);
      var width := Wrap32(box.max.x - box.min.x);
      var height := Wrap32(box.max.y - box.min.y);
      var a := Point(HalfTowardZero(Wrap32(box.min.x + box.min.y)), InfiniteOffset(false, height));
      var b := Point(InfiniteOffset(false, width), InfiniteOffset(true, height));
      var c := Point(InfiniteOffset(true, width), InfiniteOffset(true, height));
      Ok(New([a, b, c]))
  }

  /** When the points spread over both axes by at most `i32::MAX`, the
      super-triangle has its apex on the bottom edge of the `i32` plane, at
      half of `min.x + min.y`, and its other two vertices in the top corners,
      and it is not collinear. */
  lemma SpreadSuperTriangle(points: seq<Point>)
    requires |points| >= 3
    requires var box := BoundingBox(points);
      0 < box.max.x - box.min.x <= I32_MAX && 0 < box.max.y - box.min.y <= I32_MAX
    ensures SuperTriangle(points).Ok?
    ensures var box := BoundingBox(points);
      SuperTriangle(points).value.a.x == HalfTowardZero(Wrap32(box.min.x + box.min.y))
    ensures var st := SuperTriangle(points).value;
      st.a.y == I32_MIN && st.b == Point(I32_MIN, I32_MAX) && st.c == Point(I32_MAX, I32_MAX)
    ensures !Collinear(SuperTriangle(points).value)
  {
    var st := SuperTriangle(points).value;
    assert st.a.y == I32_MIN && st.b == Point(I32_MIN, I32_MAX) && st.c == Point(I32_MAX, I32_MAX);
    var k := 0x1_0000_0000 - 1;
    calc {
      Cross(st);
      (I32_MIN - st.a.x) * k - k * (I32_MAX - st.a.x);
      k * (I32_MIN - I32_MAX);
    }
  }

  /** When all points share an `x` or all share a `y`, the infinite margin
      multiplies a zero extent, and the super-triangle comes out collinear. */
  lemma FlatBoxGivesCollinearSuperTriangle(points: seq<Point>)
    requires |points| >= 3
    requires var box := BoundingBox(points); box.min.x == box.max.x || box.min.y == box.max.y
    ensures SuperTriangle(points).Ok? && Collinear(SuperTriangle(points).value)
  {
    var st := SuperTriangle(points).value;
    var box := BoundingBox(points);
    if box.min.x == box.max.x {
      assert st.b == st.c;
    } else {
      assert st.a.y == 0 && st.b.y == 0 && st.c.y == 0;
    }
  }

  // ---------------------------------------------------------------------
  // One insertion step
  // ---------------------------------------------------------------------

  /** The in-circle test taken as a yes/no answer: `t` is bad for `p`. */
  predicate InCircle(t: Triangle, p: Point) {
    PointInCircumcircle(t, p) == Ok(true)
  }

  function InCircleOf(p: Point): Triangle -> bool {
    t => InCircle(t, p)
  }

  function OutsideOf(p: Point): Triangle -> bool {
    t => !InCircle(t, p)
  }

  /** The bad-triangle scan: the working triangles whose circumcircle holds
      `p`, in working-list order; any collinear triangle aborts the scan. */
  function BadTriangles(tris: seq<Triangle>, p: Point): (r: Result<seq<Triangle>>)
    ensures r.Err? <==> HasDegenerate(tris)
  {
    if HasDegenerate(tris) then Err else Ok(Filter(tris, InCircleOf(p)))
  }

  /** A scan that succeeds keeps exactly the working triangles whose
      circumcircle holds `p`. */
  lemma BadTrianglesMembership(tris: seq<Triangle>, p: Point, t: Triangle)
    requires BadTriangles(tris, p).Ok?
    ensures t in BadTriangles(tris, p).value <==> t in tris && InCircle(t, p)
  {
    FilterMembership(tris, InCircleOf(p), t);
  }

  /** `bad.iter().filter(|t| t.contains_edge(e)).count()`: how many entries
      of `bad` contain `e`. */
  function CountContaining(bad: seq<Triangle>, e: Edge): (n: nat)
    ensures n <= |bad|
    decreases |bad|
  {
    if bad == [] then 0
    else CountContaining(bad[..|bad| - 1], e) + (if ContainsEdge(bad[|bad| - 1], e) then 1 else 0)
  }

  function OnceIn(bad: seq<Triangle>): Edge -> bool {
    e => CountContaining(bad, e) == 1
  }

  /** The sides of the triangles `ts`, three per triangle, in order. */
  function Sides(ts: seq<Triangle>): (r: seq<Edge>)
    ensures |r| == 3 * |ts|
    decreases |ts|
  {
    if ts == [] then [] else Sides(ts[..|ts| - 1]) + Edges(ts[|ts| - 1])
  }

  /** An edge is among the sides exactly when it is a side of one of the
      triangles. */
  lemma {:induction false} SidesMembership(ts: seq<Triangle>, e: Edge)
    ensures e in Sides(ts) <==> exists i :: 0 <= i < |ts| && e in Edges(ts[i])
    decreases |ts|
  {
    if ts != [] {
      var n := |ts| - 1;
      SidesMembership(ts[..n], e);
      if e in Sides(ts[..n]) {
        var i :| 0 <= i < n && e in Edges(ts[..n][i]);
        assert ts[i] == ts[..n][i];
      }
      if exists i :: 0 <= i < |ts| && e in Edges(ts[i]) {
        var i :| 0 <= i < |ts| && e in Edges(ts[i]);
        if i < n {
          assert ts[..n][i] == ts[i];
        }
      }
    }
  }

  lemma SidesSnoc(ts: seq<Triangle>, j: nat)
    requires j < |ts|
    ensures Sides(ts[..j + 1]) == Sides(ts[..j]) + Edges(ts[j])
  {
    assert ts[..j + 1][..j] == ts[..j];
  }

  /** The boundary of the polygonal hole: the sides of the bad triangles, in
      order, each kept when exactly one bad triangle contains it. */
  function Boundary(bad: seq<Triangle>): seq<Edge> {
    Filter(Sides(bad), OnceIn(bad))
  }

  /** Every boundary edge is contained in exactly one bad triangle, every
      side of a bad triangle with that property is on the boundary, and an
      edge shared by two or more bad triangles never is. */
  lemma BoundaryExactlyOnce(bad: seq<Triangle>, e: Edge)
    ensures e in Boundary(bad) <==>
      CountContaining(bad, e) == 1 && exists i :: 0 <= i < |bad| && e in Edges(bad[i])
    ensures CountContaining(bad, e) >= 2 ==> e !in Boundary(bad)
  {
    FilterMembership(Sides(bad), OnceIn(bad), e);
    SidesMembership(bad, e);
  }

  function NotIn(bad: seq<Triangle>): Triangle -> bool {
    t => !ContainsTriangle(bad, t)
  }

  /** `retain`: the working triangles equal to no bad triangle, in order. */
  function Retain(tris: seq<Triangle>, bad: seq<Triangle>): seq<Triangle> {
    Filter(tris, NotIn(bad))
  }

  /** After the removal no remaining triangle equals a bad one, and every
      triangle that equals none is kept. */
  lemma RetainMembership(tris: seq<Triangle>, bad: seq<Triangle>, t: Triangle)
    ensures t in Retain(tris, bad) <==> t in tris && !ContainsTriangle(bad, t)
  {
    FilterMembership(tris, NotIn(bad), t);
  }

  /** A triangle equal to a bad triangle has the same circumcircle, so its
      circumcircle holds `p` too. */
  lemma EqualToBadIsInCircle(tris: seq<Triangle>, p: Point, t: Triangle)
    requires BadTriangles(tris, p).Ok? && ContainsTriangle(BadTriangles(tris, p).value, t)
    ensures InCircle(t, p)
  {
    var bad := BadTriangles(tris, p).value;
    var i :| 0 <= i < |bad| && TriangleEq(bad[i], t);
    BadTrianglesMembership(tris, p, bad[i]);
    CircumcirclePermutationInvariant(bad[i], t, p);
  }

  /** A working triangle whose circumcircle holds `p` is itself bad. */
  lemma InCircleIsBad(tris: seq<Triangle>, p: Point, t: Triangle)
    requires BadTriangles(tris, p).Ok? && t in tris && InCircle(t, p)
    ensures ContainsTriangle(BadTriangles(tris, p).value, t)
  {
    var bad := BadTriangles(tris, p).value;
    BadTrianglesMembership(tris, p, t);
    var i :| 0 <= i < |bad| && bad[i] == t;
    assert TriangleEq(bad[i], t);
  }

  /** Removing the bad triangles leaves exactly the triangles whose
      circumcircle does not hold `p`, in their order, so the list shrinks by
      the number of bad triangles. */
  lemma RetainRemovesExactlyBad(tris: seq<Triangle>, p: Point)
    requires BadTriangles(tris, p).Ok?
    ensures var bad := BadTriangles(tris, p).value;
      Retain(tris, bad) == Filter(tris, OutsideOf(p)) && |Retain(tris, bad)| + |bad| == |tris|
  {
    var bad := BadTriangles(tris, p).value;
    forall t | t in tris
      ensures NotIn(bad)(t) == OutsideOf(p)(t)
    {
      if ContainsTriangle(bad, t) {
        EqualToBadIsInCircle(tris, p, t);
      }
      if InCircle(t, p) {
        InCircleIsBad(tris, p, t);
      }
    }
    FilterCongruent(tris, NotIn(bad), OutsideOf(p));
    assert bad == Filter(tris, InCircleOf(p));
    FilterPartition(tris, InCircleOf(p), OutsideOf(p));
  }

  /** Re-triangulation of the hole: one triangle `(u, v, p)` appended per
      boundary edge `(u, v)`, in boundary order. */
  function Refill(tris: seq<Triangle>, polygon: seq<Edge>, p: Point): (r: seq<Triangle>)
    ensures |r| == |tris| + |polygon|
    ensures r[..|tris|] == tris
    ensures forall i :: 0 <= i < |polygon| ==> r[|tris| + i] == Triangle(polygon[i].a, polygon[i].b, p)
    decreases |polygon|
  {
    if polygon == [] then tris
    else
      var n := |polygon| - 1;
      Refill(tris, polygon[..n], p) + [New([polygon[n].a, polygon[n].b, p])]
  }

  /** One iteration of the point loop. */
  function InsertPoint(tris: seq<Triangle>, p: Point): (r: Result<seq<Triangle>>)
    ensures r.Err? <==> HasDegenerate(tris)
  {
    var bad :- BadTriangles(tris, p);
    Ok(Refill(Retain(tris, bad), Boundary(bad), p))
  }

  /** A successful insertion keeps the triangles whose circumcircle does not
      hold `p`, in order, and appends the fan over the hole boundary, so the
      length changes by the boundary size minus the number of bad triangles. */
  lemma InsertPointShape(tris: seq<Triangle>, p: Point)
    requires !HasDegenerate(tris)
    ensures var bad := BadTriangles(tris, p).value;
      InsertPoint(tris, p) == Ok(Refill(Filter(tris, OutsideOf(p)), Boundary(bad), p)) &&
      |InsertPoint(tris, p).value| + |bad| == |tris| + |Boundary(bad)|
  {
    RetainRemovesExactlyBad(tris, p);
  }

  // ---------------------------------------------------------------------
  // The whole run
  // ---------------------------------------------------------------------

  /** The point loop from index `i` on, starting from the list `tris`. */
  function InsertFrom(tris: seq<Triangle>, points: seq<Point>, i: nat): Result<seq<Triangle>>
    requires i <= |points|
    decreases |points| - i
  {
    if i == |points| then Ok(tris)
    else
      var next :- InsertPoint(tris, points[i]);
      InsertFrom(next, points, i + 1)
  }

  /** An insertion that fails ends the run with the error. */
  lemma InsertFromStops(tris: seq<Triangle>, points: seq<Point>, i: nat)
    requires i < |points| && HasDegenerate(tris)
    ensures InsertFrom(tris, points, i) == Err
  {
  }

  /** An insertion that succeeds hands its list to the next point. */
  lemma InsertFromStep(tris: seq<Triangle>, points: seq<Point>, i: nat, next: seq<Triangle>)
    requires i < |points| && InsertPoint(tris, points[i]) == Ok(next)
    ensures InsertFrom(tris, points, i) == InsertFrom(next, points, i + 1)
  {
  }

  /** `t` has a vertex equal to a vertex of `st`. */
  predicate SharesVertex(t: Triangle, st: Triangle) {
    exists v :: v in Points(t) && v in Points(st)
  }

  function Untouched(st: Triangle): Triangle -> bool {
    t => !SharesVertex(t, st)
  }

  /** The triangulation of `points`: seed with the super-triangle, insert
      every point in order, drop the triangles touching the super-triangle. */
  function Triangulate(points: seq<Point>): (r: Result<seq<Triangle>>)
    ensures |points| < 3 ==> r.Err?
  {
    if |points| < 3 then Err
    else
      var st := SuperTriangle(points).value;
      var last :- InsertFrom([st], points, 0);
      Ok(Filter(last, Untouched(st)))
  }

  /** No returned triangle has a vertex of the super-triangle, and every
      triangle of the last working list without one is returned. */
  lemma FinalFilter(points: seq<Point>, t: Triangle)
    requires |points| >= 3
    requires InsertFrom([SuperTriangle(points).value], points, 0).Ok?
    ensures var st := SuperTriangle(points).value;
      var last := InsertFrom([st], points, 0).value;
      Triangulate(points).Ok? &&
      (t in Triangulate(points).value <==> t in last && !SharesVertex(t, st))
  {
    var st := SuperTriangle(points).value;
    FilterMembership(InsertFrom([st], points, 0).value, Untouched(st), t);
  }

  /** A collinear super-triangle makes the first insertion fail, so the whole
      run fails; in particular input points that all share an `x` or all
      share a `y` are rejected. */
  lemma CollinearSuperTriangleFails(points: seq<Point>)
    requires |points| >= 3
    requires Collinear(SuperTriangle(points).value)
    ensures Triangulate(points).Err?
  {
    var st := SuperTriangle(points).value;
    assert HasDegenerate([st]) by {
      assert Collinear([st][0]);
    }
  }

  /** The bad-triangle scan as a loop with an early exit on the first
      collinear triangle. */
  method FindBadTriangles(triangulation: seq<Triangle>, point: Point) returns (r: Result<seq<Triangle>>)
    ensures r == BadTriangles(triangulation, point)
  {
    var bad: seq<Triangle> := [];
    for j := 0 to |triangulation|
      invariant forall k :: 0 <= k < j ==> !Collinear(triangulation[k])
      invariant bad == Filter(triangulation[..j], InCircleOf(point))
    {
      var inside := PointInCircumcircle(triangulation[j], point);
      if inside.Err? {
        assert HasDegenerate(triangulation);
        return Err;
      }
      FilterSnoc(triangulation, j, InCircleOf(point));
      if inside.value {
        bad := bad + [triangulation[j]];
      }
    }
    assert triangulation[..|triangulation|] == triangulation;
    return Ok(bad);
  }

  /** The boundary extraction: every side of every bad triangle, pushed
      when exactly one bad triangle contains it. */
  method FindBoundary(bad: seq<Triangle>) returns (polygon: seq<Edge>)
    ensures polygon == Boundary(bad)
  {
    polygon := [];
    for j := 0 to |bad|
      invariant polygon == Filter(Sides(bad[..j]), OnceIn(bad))
    {
      ghost var done := Sides(bad[..j]);
      var sides := Edges(bad[j]);
      assert done + sides[..0] == done;
      for k := 0 to 3
        invariant polygon == Filter(done + sides[..k], OnceIn(bad))
      {
        FilterAppendSnoc(done, sides, k, OnceIn(bad));
        if CountContaining(bad, sides[k]) == 1 {
          polygon := polygon + [sides[k]];
        }
      }
      assert sides[..3] == sides;
      SidesSnoc(bad, j);
    }
    assert bad[..|bad|] == bad;
  }

  /** The refill loop: one pushed triangle per boundary edge. */
  method FillHole(triangulation: seq<Triangle>, polygon: seq<Edge>, point: Point) returns (r: seq<Triangle>)
    ensures r == Refill(triangulation, polygon, point)
  {
    r := triangulation;
    for j := 0 to |polygon|
      invariant r == Refill(triangulation, polygon[..j], point)
    {
      var newTriangle := New([polygon[j].a, polygon[j].b, point]);
      r := r + [newTriangle];
      assert polygon[..j + 1][..j] == polygon[..j];
    }
    assert polygon[..|polygon|] == polygon;
  }

  /** One iteration of the point loop: scan, extract the boundary, remove
      the bad triangles and fill the hole. */
  method InsertOne(triangulation: seq<Triangle>, point: Point) returns (r: Result<seq<Triangle>>)
    ensures r == InsertPoint(triangulation, point)
  {
    var bad :- FindBadTriangles(triangulation, point);
    var polygon := FindBoundary(bad);
    var next := Retain(triangulation, bad);
    next := FillHole(next, polygon, point);
    return Ok(next);
  }

  /** The point loop: the working list is seeded with `seed` and rebuilt
      once per point; the first failing insertion ends it. */
  method InsertAll(seed: Triangle, points: seq<Point>) returns (r: Result<seq<Triangle>>)
    ensures r == InsertFrom([seed], points, 0)
  {
    var triangulation := [seed];
    for i := 0 to |points|
      invariant InsertFrom(triangulation, points, i) == InsertFrom([seed], points, 0)
    {
      var step := InsertOne(triangulation, points[i]);
      if step.Err? {
        InsertFromStops(triangulation, points, i);
        return Err;
      }
      InsertFromStep(triangulation, points, i, step.value);
      triangulation := step.value;
    }
    return Ok(triangulation);
  }

  /** `bowyer_watson`: size check, super-triangle, point loop, final
      removal of the triangles touching the super-triangle. */
  method BowyerWatson(points: seq<Point>) returns (r: Result<seq<Triangle>>)
    ensures r == Triangulate(points)
  {
    if |points| < 3 {
      return Err;
    }
    // cannot fail once the size check has passed
    var st := SuperTriangle(points).value;
    var triangulation :- InsertAll(st, points);
    triangulation := Filter(triangulation, Untouched(st));
    return Ok(triangulation);
  }
}
