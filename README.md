# Bowyer–Watson triangulation and Voronoi dual, modelled in Dafny

This project models the core of a small Rust library that triangulates a set
of points with `i32` coordinates by the Bowyer–Watson algorithm and builds
the Voronoi dual of the result.

- `geometry.dfy` (module `Geometry`) holds the value types: `Point` with its
  derived lexicographic order, `Edge` with symmetric equality, and `Triangle`
  with `new`, `points`, `edges` and `contains_edge`. Triangle equality sorts
  both vertex arrays and compares them. The module also has the circumcircle
  and the inclusive in-circle test. The circumcircle is computed in exact
  arithmetic: coordinates become `real`s, the centre is the source's
  weighted sum divided by `d`, and the radius is kept squared.
- `delaunay.dfy` (module `Delaunay`) holds `super_triangle` and `bowyer_watson`.
  - Functions state each step: the bounding box, the super-triangle, the
    bad-triangle scan, the hole boundary, `retain`, the refill, the point
    loop and the final removal of triangles touching the super-triangle.
  - Methods mirror the source's loops and are proved equal to those
    functions.
- `voronoi.dfy` (module `Voronoi`) holds `voronoi`.
  - Neighbour collection is a fold over the triangulation, one per side.
  - Emission is one edge per (triangle, neighbour) pair.
  - Each `?` becomes an `Err` that ends the whole call.
  - The methods `FindNeighbors`, `ConnectNeighbors` and `Voronoi` mirror
    the loops.
- `lists.dfy` (module `Lists`) holds `Filter`, which models `Vec::retain`
  and the push-if loops, and `Concat`, with their membership lemmas.
- `errors.dfy` (module `Errors`) holds `Result`, which stands for
  `Result<_, TriangulationError>`. `TriangulationError` carries no data, so
  it is the single constructor `Err`.

## Notes on the code

- `TriangulationError` is the library's only error. Every failure, whether
  too few points or a collinear triangle, is the one value `Err`.
- `voronoi` does not deduplicate. A shared side gives two dual edges that
  are equal under `Edge` equality (`MutualNeighborsGiveTwoEdges`).
- `super_triangle` multiplies by `f32::INFINITY`, not by a finite margin. The
  vertices therefore saturate at the `i32` bounds. When every point shares an
  `x` or every point shares a `y`, the product is `inf * 0 = NaN`, which
  casts to 0, so the super-triangle is collinear and the whole call fails
  (`FlatBoxGivesCollinearSuperTriangle`, `CollinearSuperTriangleFails`). The
  super-triangle is not guaranteed to enclose the points.

## Model

| member | source | states |
|---|---|---|
| `Geometry.PointLeIsTotalOrder` | src/geometry.rs:84-88 | The derived order on `Point` (by `x`, then by `y`) is reflexive, antisymmetric, transitive and total. |
| `Geometry.New` | src/geometry.rs:11-17 | `Triangle::new` keeps the construction order: `points()` returns exactly the given vertices. |
| `Geometry.Edges` | src/geometry.rs:22-24 | `edges()` gives the sides (a, b), (b, c), (c, a); `ContainsOwnSides` states that the triangle contains each of them. |
| `Geometry.EdgeEq` | src/geometry.rs:117-121 | Edge equality ignores the direction; its properties are `EdgeEqIsEquivalence` and `EdgeEqIffSameEndpoints`. |
| `Geometry.ContainsEdge` | src/geometry.rs:59-67 | `contains_edge`; `ContainsEdgeIffSubMultiset` characterises it by the vertex multiset. |
| `Geometry.TriangleEq` | src/geometry.rs:70-82 | Triangle equality sorts both vertex arrays and compares them; `TriangleEqIffSameVertices` states it is equality of vertex multisets. |
| `Geometry.SortPointsSorts` | src/geometry.rs:76-77 | Sorting a vertex array gives a non-decreasing array with the same multiset of points. |
| `Geometry.SortedUnique` | src/geometry.rs:76-80 | Two sorted arrays with the same points are equal, so any sort yields the same comparison. |
| `Geometry.EdgeEqIsEquivalence` | src/geometry.rs:117-121 | `Edge(a, b)` equals `Edge(b, a)`, and edge equality is reflexive, symmetric and transitive. |
| `Geometry.EdgeEqIffSameEndpoints` | src/geometry.rs:117-121 | Two edges are equal exactly when their endpoint multisets are equal. |
| `Geometry.TriangleEqIffSameVertices` | src/geometry.rs:70-82 | Two triangles are equal exactly when their vertex multisets are equal, whatever the vertex order. |
| `Geometry.ContainsOwnSides` | src/geometry.rs:22-24 | Every triangle contains each of its three sides (a, b), (b, c), (c, a). |
| `Geometry.ContainsEdgeIffSubMultiset` | src/geometry.rs:59-67 | A triangle contains an edge exactly when both endpoints are among its vertices, with multiplicity. |
| `Geometry.EqualTrianglesContainSameEdges` | src/geometry.rs:59-82 | Equal triangles contain exactly the same edges. |
| `Geometry.ContainsEdgeRespectsEdgeEq` | src/geometry.rs:59-67 | Containment only depends on the edge up to symmetric equality. |
| `Geometry.DeterminantIsTwiceCross` | src/geometry.rs:46-50 | `d` is twice the integer cross product, so `d == 0` is exactly collinearity. |
| `Geometry.Circumcircle` | src/geometry.rs:38-57 | `circumcircle` fails exactly when the three vertices are collinear. |
| `Geometry.PointInCircumcircle` | src/geometry.rs:25-36 | `point_in_circumcircle` fails exactly when `circumcircle` fails. |
| `Geometry.CircumcenterEquidistant` | src/geometry.rs:52-54 | The centre is at squared distance `radius²` from each of the three vertices. |
| `Geometry.VerticesInCircumcircle` | src/geometry.rs:25-36 | The inclusive in-circle test accepts each vertex of the triangle. |
| `Geometry.CircumcirclePermutationInvariant` | src/geometry.rs:38-82 | Equal triangles have the same circumcircle and give the same in-circle answers and the same failures. |
| `Delaunay.MinOf` | src/delaunay.rs:57 | `min()` returns an element of the coordinates that is at most every element. |
| `Delaunay.MaxOf` | src/delaunay.rs:57 | `max()` returns an element of the coordinates that is at least every element. |
| `Delaunay.BoundingBox` | src/delaunay.rs:57 | The `(min, max)` pair of corners; `BoundingBoxIsTight` states that it is the smallest box holding every point. |
| `Delaunay.BoundingBoxIsTight` | src/delaunay.rs:57 | Every point lies within the bounding box, and each of the four bounds is attained by some point. |
| `Delaunay.Wrap32` | src/delaunay.rs:59-61 | An `i32` sum or difference wraps modulo 2^32 and is exact in range. |
| `Delaunay.HalfTowardZero` | src/delaunay.rs:59 | `(v as f32 / 2.0) as i32` is half of `v`, truncated toward zero. |
| `Delaunay.SuperTriangle` | src/delaunay.rs:49-64 | `super_triangle` fails exactly when fewer than three points are given. |
| `Delaunay.SpreadSuperTriangle` | src/delaunay.rs:54-63 | With both extents positive and in range, the apex `a` has `x` equal to half of `min.x + min.y` (wrapped, truncated toward zero) and `y == i32::MIN`; `b` is (`i32::MIN`, `i32::MAX`), `c` is (`i32::MAX`, `i32::MAX`), and the three are not collinear. |
| `Delaunay.FlatBoxGivesCollinearSuperTriangle` | src/delaunay.rs:54-63 | If all points share an `x` or all share a `y`, the super-triangle is collinear. |
| `Delaunay.BadTriangles` | src/delaunay.rs:14-21 | The scan fails exactly when some working triangle is collinear. |
| `Delaunay.BadTrianglesMembership` | src/delaunay.rs:17-21 | A successful scan keeps exactly the working triangles whose circumcircle holds the point. |
| `Delaunay.FindBadTriangles` | src/delaunay.rs:14-21 | The scanning loop, with its early error exit, returns the bad-triangle list in working-list order. |
| `Delaunay.SidesMembership` | src/delaunay.rs:25-26 | The visited edges are exactly the sides of the bad triangles. |
| `Delaunay.CountContaining` | src/delaunay.rs:28 | The `filter(...).count()` of bad triangles containing an edge; it never exceeds the number of bad triangles. |
| `Delaunay.Boundary` | src/delaunay.rs:23-32 | The hole boundary: the visited sides whose count is exactly 1; `BoundaryExactlyOnce` states its membership. |
| `Delaunay.BoundaryExactlyOnce` | src/delaunay.rs:23-32 | An edge is on the boundary exactly when it is a side of a bad triangle and exactly one bad triangle contains it. An edge shared by two or more bad triangles never is. |
| `Delaunay.FindBoundary` | src/delaunay.rs:23-32 | The nested boundary loops push exactly the boundary edges, in visiting order. |
| `Delaunay.RetainMembership` | src/delaunay.rs:35 | After `retain`, no remaining triangle equals a bad one, and every triangle equal to none is kept. |
| `Delaunay.Retain` | src/delaunay.rs:35 | `retain` with the `!bad_triangles.contains(t)` test; `RetainMembership` and `RetainRemovesExactlyBad` state what it keeps. |
| `Delaunay.RetainRemovesExactlyBad` | src/delaunay.rs:35 | `retain` keeps exactly the triangles whose circumcircle does not hold the point, in order. The list shrinks by the number of bad triangles. |
| `Delaunay.Refill` | src/delaunay.rs:37-41 | The refill keeps the list as a prefix and appends one triangle `(u, v, point)` per boundary edge `(u, v)`, in order. |
| `Delaunay.FillHole` | src/delaunay.rs:37-41 | The refill loop produces exactly that list. |
| `Delaunay.InsertPoint` | src/delaunay.rs:13-42 | One iteration of the point loop fails exactly when a working triangle is collinear. |
| `Delaunay.InsertPointShape` | src/delaunay.rs:14-41 | A successful iteration keeps the non-bad triangles in order and appends the fan over the boundary. The new length is the old length minus the bad triangles plus the boundary edges. |
| `Delaunay.InsertOne` | src/delaunay.rs:14-41 | The scan, boundary, `retain` and refill loops together compute one iteration. |
| `Delaunay.InsertAll` | src/delaunay.rs:11-42 | The point loop starts from exactly `[super_triangle]` and stops at the first failing insertion. |
| `Delaunay.InsertFrom` | src/delaunay.rs:13-42 | The point loop from a given index; `InsertAll` is proved equal to it, and `CollinearSuperTriangleFails` shows an early failure ends it. |
| `Delaunay.Triangulate` | src/delaunay.rs:4-47 | `bowyer_watson` fails on fewer than three points. |
| `Delaunay.SharesVertex` | src/delaunay.rs:44 | The `any(... contains ...)` test of the final `retain`; `FinalFilter` states that exactly the triangles without it are returned. |
| `Delaunay.Untouched` | src/delaunay.rs:44 | The negated test kept by the final `retain`; its effect is stated by `FinalFilter`. |
| `Delaunay.FinalFilter` | src/delaunay.rs:44-46 | No returned triangle has a super-triangle vertex, and every other triangle of the last working list is returned. |
| `Delaunay.CollinearSuperTriangleFails` | src/delaunay.rs:9-21 | A collinear super-triangle makes the first scan, and so the whole call, fail. |
| `Delaunay.BowyerWatson` | src/delaunay.rs:4-47 | The imperative run computes exactly the triangulation function. |
| `Voronoi.TruncationTowardZero` | src/voronoi.rs:23 | `as i32` on the centre drops the fraction toward zero and saturates at the `i32` bounds. |
| `Voronoi.TruncateToI32` | src/voronoi.rs:23 | The `as i32` cast of a centre coordinate; `TruncationTowardZero` states its truncation and saturation. |
| `Voronoi.Center` | src/voronoi.rs:12-23 | The circumcentre of a non-collinear triangle as an `i32` point; `CenterPermutationInvariant` states that equal triangles give the same point. |
| `Voronoi.CenterPermutationInvariant` | src/voronoi.rs:22-23 | Equal triangles give the same emitted circumcentre point. |
| `Voronoi.SharesSideSymmetric` | src/voronoi.rs:16-17 | If a side of `t` is contained in `u`, then a side of `u` is contained in `t`. |
| `Voronoi.Collect` | src/voronoi.rs:17 | One `for_each` pass over the triangulation for one side; `CollectExtends`, `CollectAdmits`, `CollectDistinct` and `CollectComplete` state what it appends. |
| `Voronoi.Neighbors` | src/voronoi.rs:15-18 | The neighbour list built over the three sides; `NeighborsAdjacent`, `NeighborsDistinct`, `NeighborsComplete` and `NeighborsSymmetric` state its contents. |
| `Voronoi.CollectExtends` | src/voronoi.rs:17 | The `for_each` only appends to the neighbour list. |
| `Voronoi.CollectAdmits` | src/voronoi.rs:17 | Each appended triangle is an element of the input, contains the side and is not equal to the current triangle. |
| `Voronoi.CollectDistinct` | src/voronoi.rs:17 | The `contains` guard never lets two equal triangles into the list. |
| `Voronoi.CollectComplete` | src/voronoi.rs:17 | Every input triangle that contains the side and differs from the current one ends up represented. |
| `Voronoi.NeighborsAdjacent` | src/voronoi.rs:15-18 | Every neighbour is an element of the input, is not equal to the triangle and shares a side with it. |
| `Voronoi.NeighborsNondegenerate` | src/voronoi.rs:15-18 | Without collinear input triangles, no neighbour is collinear. |
| `Voronoi.NeighborsDistinct` | src/voronoi.rs:15-18 | The neighbour list never holds two equal triangles. |
| `Voronoi.NeighborsComplete` | src/voronoi.rs:15-18 | Every input triangle sharing a side with the triangle and not equal to it is among the neighbours. |
| `Voronoi.NeighborsSymmetric` | src/voronoi.rs:15-18 | If `u` is a neighbour of `t`, then `t` is among the neighbours of `u`. |
| `Voronoi.FindNeighbors` | src/voronoi.rs:15-18 | The nested neighbour loops compute exactly the neighbour list. |
| `Voronoi.Diagram` | src/voronoi.rs:4-7 | An empty triangulation is an error. |
| `Voronoi.EmitFails` | src/voronoi.rs:21-24 | Emission for one triangle fails exactly when a remaining neighbour is collinear. |
| `Voronoi.EmitFrom` | src/voronoi.rs:21-24 | The emission loop from a given neighbour on; `EmitFails` and `EmitIsSpokes` state when it fails and what it appends. |
| `Voronoi.DiagramFailsIff` | src/voronoi.rs:4-27 | `voronoi` fails exactly on an empty triangulation or one holding a collinear triangle. |
| `Voronoi.EmitIsSpokes` | src/voronoi.rs:21-24 | Emission appends one edge per neighbour, from the triangle's centre (endpoint `a`) to the neighbour's (endpoint `b`), in neighbour order. |
| `Voronoi.DiagramFromStep` | src/voronoi.rs:11-24 | One pass of the outer loop appends that triangle's dual edges. |
| `Voronoi.DiagramFrom` | src/voronoi.rs:11-25 | The outer loop from a given triangle on; `DiagramFromStep` and `DiagramFromIsDual` state what it appends. |
| `Voronoi.DiagramFromIsDual` | src/voronoi.rs:11-25 | The outer loop appends the dual edges of the remaining triangles in order. |
| `Voronoi.DiagramIsDual` | src/voronoi.rs:4-27 | Without collinear triangles, the output is exactly one edge per (triangle, neighbour) pair, triangle by triangle, with no deduplication. |
| `Voronoi.DualMembership` | src/voronoi.rs:21-24 | An edge is in the dual exactly when it is a dual edge of some triangle. |
| `Voronoi.MutualNeighborsGiveTwoEdges` | src/voronoi.rs:15-24 | Mutually adjacent triangles give both directed edges between their centres, and the two edges are equal under `Edge` equality. |
| `Voronoi.ConnectNeighbors` | src/voronoi.rs:21-24 | The emission loop, with its error exit, computes the emission function. |
| `Voronoi.Voronoi` | src/voronoi.rs:4-28 | The imperative `voronoi` computes exactly the diagram function. |

## Left out

- Floating point:
  - The circumcircle is evaluated in exact arithmetic, not in `f64`.
  - `sqrt` is replaced by comparing squared distances, which is the same test in exact arithmetic.
  - For large `i32` coordinates, the rounding of `d`, `ux`, `uy` and the radius can change the `d == 0` test and the in-circle answer; this is not modelled.
  - The model tests `Collinear` on the integer cross product, which `DeterminantIsTwiceCross` shows is the exact value of `d == 0`.
- `Delaunay.HalfTowardZero`: the `f32` rounding of `min.x + min.y` before the halving is not modelled. Beyond 2^24 the source can be off by the rounding error.
- `Delaunay.Wrap32`: this is the release-build wrap-around of `i32` arithmetic. The debug-build overflow panic is not modelled.
- `Voronoi.TruncationTowardZero`: this is applied to the exact centre, not to its `f64` rounding.
- The global geometric properties are not modelled: the empty-circumcircle property of the result, that the result covers the convex hull, and that the super-triangle encloses the points. The code's infinite margin and float predicate do not guarantee them.
- `retain` works in place on the `Vec`. Here it is a `Filter` function whose result the methods assign. Order and contents are modelled, but in-place update and aliasing are not.
- `Vec<&Triangle>` in `voronoi` holds references. Here it holds triangle values, so the identity of references is not modelled.
- `src/lib.rs`, a drawing test program, is not part of this model. Rendering and windowing are outside the core.
- Hashing is not modelled. No `Hash` implementation exists, and every container is a `Vec` with linear `contains`.
