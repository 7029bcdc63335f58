/** The Voronoi dual of a triangulation: every triangle is joined to each
    distinct triangle that shares a side with it, by an edge between the
    two circumcentres. */
module Voronoi {
  import opened Errors
  import opened Geometry
  import opened Lists

  // ---------------------------------------------------------------------
  // Circumcentres as points
  // ---------------------------------------------------------------------

  /** `u as i32` for a finite `f64`: truncation toward zero, saturating at
      the `i32` bounds. */
  function TruncateToI32(u: real): Int32 {
    if u >= I32_MAX as real then I32_MAX
    else if u <= I32_MIN as real then I32_MIN
    else if u >= 0.0 then u.Floor
    else -((-u).Floor)
  }

  /** Within range the cast drops the fraction, moving toward zero by less
      than one; out of range it saturates. */
  lemma TruncationTowardZero(u: real)
    ensures var r := TruncateToI32(u);
      (0.0 <= u ==> r as real <= u && (u < I32_MAX as real ==> u < r as real + 1.0)) &&
      (u < 0.0 ==> u <= r as real && (I32_MIN as real < u ==> r as real - 1.0 < u)) &&
      (u >= I32_MAX as real ==> r == I32_MAX) &&
      (u <= I32_MIN as real ==> r == I32_MIN)
  {
  }

  /** The circumcentre rounded to a point, as the emitted edges store it. */
  function CenterPoint(c: Circle): Point {
    Point(TruncateToI32(c.ux), TruncateToI32(c.uy))
  }

  /** The circumcentre of a non-collinear triangle, rounded to a point. */
  function Center(t: Triangle): Point
    requires !Collinear(t)
  {
    CenterPoint(Circumcircle(t).value)
  }

  /** Equal triangles have the same circumcentre point. */
  lemma CenterPermutationInvariant(t: Triangle, u: Triangle)
    requires TriangleEq(t, u) && !Collinear(t) && !Collinear(u)
    ensures Center(t) == Center(u)
  {
    CircumcirclePermutationInvariant(t, u, t.a);
  }

  // ---------------------------------------------------------------------
  // Neighbours
  // ---------------------------------------------------------------------

  /** Some side of `t` is contained in `u`. */
  predicate SharesSide(t: Triangle, u: Triangle) {
    exists k :: 0 <= k < 3 && ContainsEdge(u, Edges(t)[k])
  }

  /** Sharing a side is symmetric. */
  lemma SharesSideSymmetric(t: Triangle, u: Triangle)
    requires SharesSide(t, u)
    ensures SharesSide(u, t)
  {
    var k :| 0 <= k < 3 && ContainsEdge(u, Edges(t)[k]);
    var e := Edges(t)[k];
    var m :| 0 <= m < 3 && EdgeEq(Edges(u)[m], e);
    ContainsOwnSides(t);
    EdgeEqIsEquivalence(Edges(u)[m], e, e);
    ContainsEdgeRespectsEdgeEq(t, e, Edges(u)[m]);
  }

  /** No two entries of `s` are equal triangles. */
  predicate Distinct(s: seq<Triangle>) {
    forall i, j :: 0 <= i < j < |s| ==> !TriangleEq(s[i], s[j])
  }

  /** The `for_each` over the triangulation `ds` for one side `e` of `t`:
      push every triangle that contains `e`, is not equal to `t` and is not
      equal to one already collected. */
  function Collect(ds: seq<Triangle>, t: Triangle, e: Edge, acc: seq<Triangle>): seq<Triangle>
    decreases |ds|
  {
    if ds == [] then acc
    else
      var prev := Collect(ds[..|ds| - 1], t, e, acc);
      var other := ds[|ds| - 1];
      if ContainsEdge(other, e) && !TriangleEq(other, t) && !ContainsTriangle(prev, other)
      then prev + [other]
      else prev
  }

  /** The collection only appends to `acc`. */
  lemma {:induction false} CollectExtends(ds: seq<Triangle>, t: Triangle, e: Edge, acc: seq<Triangle>)
    ensures |acc| <= |Collect(ds, t, e, acc)| && Collect(ds, t, e, acc)[..|acc|] == acc
    decreases |ds|
  {
    if ds != [] {
      CollectExtends(ds[..|ds| - 1], t, e, acc);
    }
  }

  /** What the collection appends is an element of `ds` that contains `e`
      and is not equal to `t`. */
  lemma {:induction false} CollectAdmits(ds: seq<Triangle>, t: Triangle, e: Edge, acc: seq<Triangle>)
    ensures forall i :: |acc| <= i < |Collect(ds, t, e, acc)| ==>
      Collect(ds, t, e, acc)[i] in ds && ContainsEdge(Collect(ds, t, e, acc)[i], e) &&
      !TriangleEq(Collect(ds, t, e, acc)[i], t)
    decreases |ds|
  {
    if ds != [] {
      var n := |ds| - 1;
      var prev := Collect(ds[..n], t, e, acc);
      CollectAdmits(ds[..n], t, e, acc);
      CollectExtends(ds[..n], t, e, acc);
      var r := Collect(ds, t, e, acc);
      forall i | |acc| <= i < |r|
        ensures r[i] in ds && ContainsEdge(r[i], e) && !TriangleEq(r[i], t)
      {
        if i < |prev| {
          assert r[i] == prev[i];
          assert prev[i] in ds[..n];
        } else {
          assert r[i] == ds[n];
        }
      }
    }
  }

  /** The collection never appends a triangle equal to one it holds. */
  lemma {:induction false} CollectDistinct(ds: seq<Triangle>, t: Triangle, e: Edge, acc: seq<Triangle>)
    requires Distinct(acc)
    ensures Distinct(Collect(ds, t, e, acc))
    decreases |ds|
  {
    if ds != [] {
      var n := |ds| - 1;
      var prev := Collect(ds[..n], t, e, acc);
      CollectDistinct(ds[..n], t, e, acc);
      var r := Collect(ds, t, e, acc);
      if r != prev {
        forall i, j | 0 <= i < j < |r|
          ensures !TriangleEq(r[i], r[j])
        {
          if j == |prev| {
            assert !TriangleEq(prev[i], ds[n]);
          }
        }
      }
    }
  }

  /** Every element of `ds` that contains `e` and is not equal to `t` ends up
      represented in the collection. */
  lemma {:induction false} CollectComplete(ds: seq<Triangle>, t: Triangle, e: Edge, acc: seq<Triangle>, i: nat)
    requires i < |ds| && ContainsEdge(ds[i], e) && !TriangleEq(ds[i], t)
    ensures ContainsTriangle(Collect(ds, t, e, acc), ds[i])
    decreases |ds|
  {
    var n := |ds| - 1;
    var prev := Collect(ds[..n], t, e, acc);
    var r := Collect(ds, t, e, acc);
    CollectExtends([ds[n]], t, e, prev);
    assert r == Collect([ds[n]], t, e, prev) by {
      assert [ds[n]][..0] == [];
    }
    if i < n {
      assert ds[..n][i] == ds[i];
      CollectComplete(ds[..n], t, e, acc, i);
      var j :| 0 <= j < |prev| && TriangleEq(prev[j], ds[i]);
      assert r[j] == prev[j];
    } else if ContainsTriangle(prev, ds[n]) {
      var j :| 0 <= j < |prev| && TriangleEq(prev[j], ds[n]);
      assert r[j] == prev[j];
    } else {
      assert r[|prev|] == ds[n];
      assert TriangleEq(ds[n], ds[n]);
    }
  }

  /** The collections for the sides `es` of `t`, one after the other, all
      appending to the same list. */
  function CollectSides(ds: seq<Triangle>, t: Triangle, es: seq<Edge>): seq<Triangle>
    decreases |es|
  {
    if es == [] then [] else Collect(ds, t, es[|es| - 1], CollectSides(ds, t, es[..|es| - 1]))
  }

  /** `neighbors`: the collections for the three sides of `t`, in order. */
  function Neighbors(ds: seq<Triangle>, t: Triangle): seq<Triangle> {
    CollectSides(ds, t, Edges(t))
  }

  /** The neighbour list is the three collections nested. */
  lemma NeighborsUnfold(ds: seq<Triangle>, t: Triangle)
    ensures Neighbors(ds, t) ==
      Collect(ds, t, Edges(t)[2], Collect(ds, t, Edges(t)[1], Collect(ds, t, Edges(t)[0], [])))
  {
    var sides := Edges(t);
    assert sides[..1][..0] == [];
    assert sides[..2][..1] == sides[..1];
    assert sides[..3][..2] == sides[..2];
    assert sides[..3] == sides;
    assert CollectSides(ds, t, sides[..1]) == Collect(ds, t, sides[0], []);
    assert CollectSides(ds, t, sides[..2]) == Collect(ds, t, sides[1], CollectSides(ds, t, sides[..1]));
    assert CollectSides(ds, t, sides[..3]) == Collect(ds, t, sides[2], CollectSides(ds, t, sides[..2]));
  }

  /** Every neighbour is an element of the triangulation, is not equal to
      `t` and shares a side with it. */
  lemma NeighborsAdjacent(ds: seq<Triangle>, t: Triangle)
    ensures var ns := Neighbors(ds, t);
      forall i :: 0 <= i < |ns| ==> ns[i] in ds && !TriangleEq(ns[i], t) && SharesSide(t, ns[i])
  {
    NeighborsUnfold(ds, t);
    var sides := Edges(t);
    var n0 := Collect(ds, t, sides[0], []);
    var n1 := Collect(ds, t, sides[1], n0);
    var ns := Collect(ds, t, sides[2], n1);
    CollectAdmits(ds, t, sides[0], []);
    CollectAdmits(ds, t, sides[1], n0);
    CollectAdmits(ds, t, sides[2], n1);
    CollectExtends(ds, t, sides[1], n0);
    CollectExtends(ds, t, sides[2], n1);
    forall i | 0 <= i < |ns|
      ensures ns[i] in ds && !TriangleEq(ns[i], t) && SharesSide(t, ns[i])
    {
      var k;
      if i < |n0| {
        assert ns[i] == n1[i] == n0[i];
        k := 0;
      } else if i < |n1| {
        assert ns[i] == n1[i];
        k := 1;
      } else {
        k := 2;
      }
      assert ContainsEdge(ns[i], sides[k]);
    }
  }

  /** In a triangulation without collinear triangles, no neighbour is
      collinear. */
  lemma NeighborsNondegenerate(ds: seq<Triangle>, t: Triangle)
    requires !HasDegenerate(ds)
    ensures !HasDegenerate(Neighbors(ds, t))
  {
    NeighborsAdjacent(ds, t);
    var ns := Neighbors(ds, t);
    forall m | 0 <= m < |ns|
      ensures !Collinear(ns[m])
    {
      var j :| 0 <= j < |ds| && ds[j] == ns[m];
    }
  }

  /** No two neighbours are equal triangles. */
  lemma NeighborsDistinct(ds: seq<Triangle>, t: Triangle)
    ensures Distinct(Neighbors(ds, t))
  {
    NeighborsUnfold(ds, t);
    var sides := Edges(t);
    CollectDistinct(ds, t, sides[0], []);
    CollectDistinct(ds, t, sides[1], Collect(ds, t, sides[0], []));
    CollectDistinct(ds, t, sides[2], Collect(ds, t, sides[1], Collect(ds, t, sides[0], [])));
  }

  /** Every element sharing a side with `t` and not equal to it is
      represented among the neighbours. */
  lemma NeighborsComplete(ds: seq<Triangle>, t: Triangle, i: nat)
    requires i < |ds| && SharesSide(t, ds[i]) && !TriangleEq(ds[i], t)
    ensures ContainsTriangle(Neighbors(ds, t), ds[i])
  {
    NeighborsUnfold(ds, t);
    var sides := Edges(t);
    var n0 := Collect(ds, t, sides[0], []);
    var n1 := Collect(ds, t, sides[1], n0);
    var ns := Collect(ds, t, sides[2], n1);
    CollectExtends(ds, t, sides[1], n0);
    CollectExtends(ds, t, sides[2], n1);
    var k :| 0 <= k < 3 && ContainsEdge(ds[i], sides[k]);
    if k == 0 {
      CollectComplete(ds, t, sides[0], [], i);
      var j :| 0 <= j < |n0| && TriangleEq(n0[j], ds[i]);
      assert ns[j] == n1[j] == n0[j];
    } else if k == 1 {
      CollectComplete(ds, t, sides[1], n0, i);
      var j :| 0 <= j < |n1| && TriangleEq(n1[j], ds[i]);
      assert ns[j] == n1[j];
    } else {
      CollectComplete(ds, t, sides[2], n1, i);
    }
  }

  /** The neighbour relation is symmetric: if `u` is a neighbour of `t`,
      then `t` is represented among the neighbours of `u`. */
  lemma NeighborsSymmetric(ds: seq<Triangle>, t: Triangle, u: Triangle)
    requires t in ds && u in Neighbors(ds, t)
    ensures ContainsTriangle(Neighbors(ds, u), t)
  {
    NeighborsAdjacent(ds, t);
    SharesSideSymmetric(t, u);
    var i :| 0 <= i < |ds| && ds[i] == t;
    NeighborsComplete(ds, u, i);
  }

  // ---------------------------------------------------------------------
  // The dual edges
  // ---------------------------------------------------------------------

  /** The emission loop for one triangle with circumcentre `center`, from
      the `k`-th neighbour on; a neighbour without circumcircle aborts. */
  function EmitFrom(center: Point, ns: seq<Triangle>, k: nat, acc: seq<Edge>): Result<seq<Edge>>
    requires k <= |ns|
    decreases |ns| - k
  {
    if k == |ns| then Ok(acc)
    else
      var c :- Circumcircle(ns[k]);
      EmitFrom(center, ns, k + 1, acc + [Edge(center, CenterPoint(c))])
  }

  /** The outer loop from the `i`-th triangle on. */
  function DiagramFrom(ds: seq<Triangle>, i: nat, acc: seq<Edge>): Result<seq<Edge>>
    requires i <= |ds|
    decreases |ds| - i
  {
    if i == |ds| then Ok(acc)
    else
      var c :- Circumcircle(ds[i]);
      var next :- EmitFrom(CenterPoint(c), Neighbors(ds, ds[i]), 0, acc);
      DiagramFrom(ds, i + 1, next)
  }

  /** `voronoi`: an empty triangulation is an error; otherwise the dual
      edges of every triangle, in order. */
  function Diagram(ds: seq<Triangle>): (r: Result<seq<Edge>>)
    ensures |ds| == 0 ==> r.Err?
  {
    if |ds| == 0 then Err else DiagramFrom(ds, 0, [])
  }

  /** The dual edges leaving `center`: one per neighbour, to the
      neighbour's circumcentre, in neighbour order. */
  function Spokes(center: Point, ns: seq<Triangle>): (r: seq<Edge>)
    requires !HasDegenerate(ns)
  {
    seq(|ns|, k requires 0 <= k < |ns| => Edge(center, Center(ns[k])))
  }

  /** The dual edges of the `i`-th triangle of a triangulation without
      collinear triangles. */
  function SpokesOf(ds: seq<Triangle>, i: nat): seq<Edge>
    requires !HasDegenerate(ds) && i < |ds|
  {
    NeighborsNondegenerate(ds, ds[i]);
    Spokes(Center(ds[i]), Neighbors(ds, ds[i]))
  }

  /** The dual edges of every triangle, one list per triangle, in order. */
  function AllSpokes(ds: seq<Triangle>): seq<seq<Edge>>
    requires !HasDegenerate(ds)
  {
    seq(|ds|, i requires 0 <= i < |ds| && !HasDegenerate(ds) => SpokesOf(ds, i))
  }

  /** A reference definition of the output without the loops' error paths:
      the dual edges of every triangle, joined in triangle order. */
  function Dual(ds: seq<Triangle>): seq<Edge>
    requires !HasDegenerate(ds)
  {
    Concat(AllSpokes(ds))
  }

  // ---------------------------------------------------------------------
  // Properties of the output
  // ---------------------------------------------------------------------

  /** The emission for one triangle fails exactly when some remaining
      neighbour is collinear. */
  lemma {:induction false} EmitFails(center: Point, ns: seq<Triangle>, k: nat, acc: seq<Edge>)
    requires k <= |ns|
    ensures EmitFrom(center, ns, k, acc).Err? <==> exists m :: k <= m < |ns| && Collinear(ns[m])
    decreases |ns| - k
  {
    if k < |ns| && !Collinear(ns[k]) {
      EmitFails(center, ns, k + 1, acc + [Edge(center, CenterPoint(Circumcircle(ns[k]).value))]);
    }
  }

  /** A failure of the outer loop comes from a collinear triangle. */
  lemma {:induction false} DiagramFromFailsOnlyIfDegenerate(ds: seq<Triangle>, i: nat, acc: seq<Edge>)
    requires i <= |ds|
    requires DiagramFrom(ds, i, acc).Err?
    ensures HasDegenerate(ds)
    decreases |ds| - i
  {
    if !Collinear(ds[i]) {
      var center := CenterPoint(Circumcircle(ds[i]).value);
      var ns := Neighbors(ds, ds[i]);
      var emitted := EmitFrom(center, ns, 0, acc);
      if emitted.Err? {
        EmitFails(center, ns, 0, acc);
        NeighborsAdjacent(ds, ds[i]);
        var m :| 0 <= m < |ns| && Collinear(ns[m]);
        var j :| 0 <= j < |ds| && ds[j] == ns[m];
      } else {
        DiagramFromFailsOnlyIfDegenerate(ds, i + 1, emitted.value);
      }
    }
  }

  /** A collinear triangle at or after position `i` makes the outer loop
      fail. */
  lemma {:induction false} DiagramFromFailsOnDegenerate(ds: seq<Triangle>, i: nat, acc: seq<Edge>, j: nat)
    requires i <= j < |ds| && Collinear(ds[j])
    ensures DiagramFrom(ds, i, acc).Err?
    decreases |ds| - i
  {
    if i < j && !Collinear(ds[i]) {
      var center := CenterPoint(Circumcircle(ds[i]).value);
      var emitted := EmitFrom(center, Neighbors(ds, ds[i]), 0, acc);
      if emitted.Ok? {
        DiagramFromFailsOnDegenerate(ds, i + 1, emitted.value, j);
      }
    }
  }

  /** `voronoi` fails exactly on an empty triangulation or one holding a
      collinear triangle; a failure anywhere aborts the whole call. */
  lemma DiagramFailsIff(ds: seq<Triangle>)
    ensures Diagram(ds).Err? <==> |ds| == 0 || HasDegenerate(ds)
  {
    if |ds| > 0 {
      if Diagram(ds).Err? {
        DiagramFromFailsOnlyIfDegenerate(ds, 0, []);
      }
      if HasDegenerate(ds) {
        var j :| 0 <= j < |ds| && Collinear(ds[j]);
        DiagramFromFailsOnDegenerate(ds, 0, [], j);
      }
    }
  }

  /** Emission from the `k`-th neighbour on appends the remaining spokes. */
  lemma {:induction false} EmitIsSpokes(center: Point, ns: seq<Triangle>, k: nat, acc: seq<Edge>)
    requires !HasDegenerate(ns) && k <= |ns|
    ensures EmitFrom(center, ns, k, acc) == Ok(acc + Spokes(center, ns)[k..])
    decreases |ns| - k
  {
    var sp := Spokes(center, ns);
    if k < |ns| {
      assert !Collinear(ns[k]);
      var next := acc + [Edge(center, Center(ns[k]))];
      assert EmitFrom(center, ns, k, acc) == EmitFrom(center, ns, k + 1, next);
      EmitIsSpokes(center, ns, k + 1, next);
      assert sp[k] == Edge(center, Center(ns[k]));
      assert sp[k..] == [sp[k]] + sp[k + 1..];
      assert next + sp[k + 1..] == acc + sp[k..];
    } else {
      assert acc + sp[k..] == acc;
    }
  }

  /** One pass of the outer loop over a non-collinear triangle appends its
      spokes. */
  lemma DiagramFromStep(ds: seq<Triangle>, i: nat, acc: seq<Edge>)
    requires !HasDegenerate(ds) && i < |ds|
    ensures DiagramFrom(ds, i, acc) == DiagramFrom(ds, i + 1, acc + SpokesOf(ds, i))
  {
    assert !Collinear(ds[i]);
    NeighborsNondegenerate(ds, ds[i]);
    var ns := Neighbors(ds, ds[i]);
    EmitIsSpokes(Center(ds[i]), ns, 0, acc);
    assert Spokes(Center(ds[i]), ns)[0..] == SpokesOf(ds, i);
  }

  /** The outer loop from the `i`-th triangle on appends the dual edges of
      the remaining triangles. */
  lemma {:induction false} DiagramFromIsDual(ds: seq<Triangle>, i: nat, acc: seq<Edge>)
    requires !HasDegenerate(ds) && i <= |ds|
    ensures DiagramFrom(ds, i, acc) == Ok(acc + Concat(AllSpokes(ds)[i..]))
    decreases |ds| - i
  {
    var ss := AllSpokes(ds);
    if i < |ds| {
      var here := SpokesOf(ds, i);
      DiagramFromStep(ds, i, acc);
      DiagramFromIsDual(ds, i + 1, acc + here);
      assert ss[i..][1..] == ss[i + 1..];
      assert Concat(ss[i..]) == here + Concat(ss[i + 1..]);
      assert acc + here + Concat(ss[i + 1..]) == acc + Concat(ss[i..]);
    } else {
      assert acc + Concat(ss[i..]) == acc;
    }
  }

  /** Without collinear triangles the output is exactly the dual edges: one
      per (triangle, neighbour) pair, triangle by triangle, with no
      deduplication across triangles. */
  lemma DiagramIsDual(ds: seq<Triangle>)
    requires |ds| > 0 && !HasDegenerate(ds)
    ensures Diagram(ds) == Ok(Dual(ds))
  {
    DiagramFromIsDual(ds, 0, []);
    assert AllSpokes(ds)[0..] == AllSpokes(ds);
    assert [] + Dual(ds) == Dual(ds);
  }

  /** An edge is in the dual exactly when it is a spoke of some triangle. */
  lemma DualMembership(ds: seq<Triangle>, e: Edge)
    requires !HasDegenerate(ds)
    ensures e in Dual(ds) <==> exists j :: 0 <= j < |ds| && e in SpokesOf(ds, j)
  {
    var ss := AllSpokes(ds);
    ConcatMembership(ss, e);
    assert forall j :: 0 <= j < |ds| ==> ss[j] == SpokesOf(ds, j);
  }

  /** Mutually adjacent triangles give two dual edges, one from each side,
      which are equal as edges: the output holds every shared side twice. */
  lemma MutualNeighborsGiveTwoEdges(ds: seq<Triangle>, t: Triangle, u: Triangle)
    requires !HasDegenerate(ds) && t in ds && u in ds && u in Neighbors(ds, t)
    ensures Diagram(ds).Ok?
    ensures Edge(Center(t), Center(u)) in Diagram(ds).value
    ensures Edge(Center(u), Center(t)) in Diagram(ds).value
    ensures EdgeEq(Edge(Center(t), Center(u)), Edge(Center(u), Center(t)))
  {
    DiagramIsDual(ds);
    var i :| 0 <= i < |ds| && ds[i] == t;
    var j :| 0 <= j < |ds| && ds[j] == u;
    var k :| 0 <= k < |Neighbors(ds, t)| && Neighbors(ds, t)[k] == u;
    assert SpokesOf(ds, i)[k] == Edge(Center(t), Center(u));
    DualMembership(ds, Edge(Center(t), Center(u)));
    NeighborsSymmetric(ds, t, u);
    NeighborsAdjacent(ds, u);
    var m :| 0 <= m < |Neighbors(ds, u)| && TriangleEq(Neighbors(ds, u)[m], t);
    CenterPermutationInvariant(Neighbors(ds, u)[m], t);
    assert SpokesOf(ds, j)[m] == Edge(Center(u), Center(t));
    DualMembership(ds, Edge(Center(u), Center(t)));
  }

  // ---------------------------------------------------------------------
  // The loops
  // ---------------------------------------------------------------------

  /** The neighbour collection: for each side, a pass over the whole
      triangulation. */
  method FindNeighbors(delaunay: seq<Triangle>, triangle: Triangle) returns (neighbors: seq<Triangle>)
    ensures neighbors == Neighbors(delaunay, triangle)
  {
    neighbors := [];
    var sides := Edges(triangle);
    for k := 0 to 3
      invariant neighbors == CollectSides(delaunay, triangle, sides[..k])
    {
      ghost var before := neighbors;
      for j := 0 to |delaunay|
        invariant neighbors == Collect(delaunay[..j], triangle, sides[k], before)
      {
        var other := delaunay[j];
        if ContainsEdge(other, sides[k]) && !TriangleEq(other, triangle) && !ContainsTriangle(neighbors, other) {
          neighbors := neighbors + [other];
        }
        assert delaunay[..j + 1][..j] == delaunay[..j];
      }
      assert delaunay[..|delaunay|] == delaunay;
      assert sides[..k + 1][..k] == sides[..k];
    }
    assert sides[..3] == sides;
  }

  /** The emission loop for one triangle. */
  method ConnectNeighbors(center: Point, neighbors: seq<Triangle>, diagram: seq<Edge>) returns (r: Result<seq<Edge>>)
    ensures r == EmitFrom(center, neighbors, 0, diagram)
  {
    var out := diagram;
    for k := 0 to |neighbors|
      invariant EmitFrom(center, neighbors, k, out) == EmitFrom(center, neighbors, 0, diagram)
    {
      var neighborCircle :- Circumcircle(neighbors[k]);
      out := out + [Edge(center, CenterPoint(neighborCircle))];
    }
    return Ok(out);
  }

  /** `voronoi`: the empty check, then for every triangle its circumcentre,
      its neighbours and one edge per neighbour. */
  method Voronoi(delaunay: seq<Triangle>) returns (r: Result<seq<Edge>>)
    ensures r == Diagram(delaunay)
  {
    if |delaunay| == 0 {
      return Err;
    }
    var diagram: seq<Edge> := [];
    for i := 0 to |delaunay|
      invariant DiagramFrom(delaunay, i, diagram) == DiagramFrom(delaunay, 0, [])
    {
      var circle :- Circumcircle(delaunay[i]);
      var neighbors := FindNeighbors(delaunay, delaunay[i]);
      diagram :- ConnectNeighbors(CenterPoint(circle), neighbors, diagram);
    }
    return Ok(diagram);
  }
}
