# Triangular mesh assembly and layout, modelled in Dafny

This project models the core of a small C program. The program turns a planar
domain description into a cross-referenced triangular mesh and draws that mesh
as an EPS picture. The domain description lists boundary points, boundary
segments and hole markers, each point and segment tagged Dirichlet (2) or
Neumann (3). The model covers the following parts:

- **Flattening** (`problem_spec_to_triangle`): the description becomes the
  triangulator's flat arrays. Coordinates and segment ends are interleaved,
  markers are copied, and the hole list is NULL when there are no holes.
  Module `Flatten`, with the pair-list layout in `TriangleIO`.
- **Assembly** (`triangle_to_mesh`, `assign_elem_edges`): the triangulator's
  output becomes nodes, edges and elements.
  - Each element side `i` gets the lowest-numbered edge whose unordered
    endpoints are its corners `(i+1)%3` and `(i+2)%3`.
  - Module `Assembly`, over the records of `MeshTypes` (mesh.h).
  - Pointers into the mesh's own arrays are indices. An edge slot that no
    edge matches is `None`.
- **Element geometry** (`set_element_edge_vectors`, `set_element_area`):
  modelled as written, plus a corrected variant (see Findings). Module
  `Geometry`.
- **Picture layout** (`mesh_to_eps`): the bounding-box scan, the scale and
  canvas size with `D = 400` and margin `p = 0.01`, and the affine map onto
  the canvas. The output is one fill command per element, then one stroke
  command per edge. Module `MeshToEps`.
- **Sample domains** (`triangle_with_hole`, `square`, `annulus`): the static
  tables, and the annulus' ring indexing including the wrap-around fix after
  its loop. Module `Domains`, over the records of `ProblemSpec`
  (problem-spec.h).

Coordinates are `real`. Indices and counts are unbounded integers.

## Model

| member | source | states |
|---|---|---|
| `TriangleIO.SplitInterleave` | mesh.c:14-19 | splitting an interleaved pair list gives back both component lists |
| `TriangleIO.InterleaveSplit` | mesh.c:28-33 | re-interleaving the halves of any even-length pair list gives back the list |
| `Flatten.ProblemSpecToTriangle` | mesh.c:8-53 | `pointlist[2i]`, `pointlist[2i+1]` are point i's x, y; `segmentlist` holds each segment's two ends the same way; markers are copied index for index; `holelist` is absent exactly when there are no holes and otherwise interleaves the hole coordinates; attribute and region counts are 0 |
| `Flatten.TriangleToSpec` | mesh.c:8-53 | reading a record back numbers points and segments by position and keeps the counts |
| `Flatten.FlattenRoundTrip` | mesh.c:14-48 | for a description whose ids are positions and whose hole pointer is NULL exactly when it has no holes, reading the flattened record back gives the original description |
| `Flatten.FlattenedSegmentsInRange` | mesh.c:28-33 | a well-formed description hands the triangulator only segment ends in `[0, numberofpoints)` |
| `MeshTypes.JoinsIsSetEquality` | mesh.c:88-89 | the matching test on the two endpoints is equality of unordered endpoint sets |
| `MeshTypes.NoEdgeOnTwoSides` | mesh.h:28-29 | no edge lies along two different sides of a triangle with three distinct corners |
| `MeshTypes.BoundingEdgesDistinct` | mesh.h:28-29 | in a complete well-formed mesh, an element with three distinct corners has three distinct edges |
| `Assembly.FindEdge` | mesh.c:85-93 | the scan returns the lowest-numbered edge joining the two nodes in either order, or `None` exactly when no edge joins them |
| `Assembly.FirstMatchUnique` | mesh.c:85-93 | the first-match description determines the result, so the scan's contract is a complete specification |
| `Assembly.ElementEdges` | mesh.c:80-94 | slot i of an element is the first match for its corners `(i+1)%3` and `(i+2)%3` |
| `Assembly.AssignElemEdges` | mesh.c:75-96 | every element's three slots are first matches; ids, corners, edge vectors and areas are unchanged |
| `Assembly.MatchedSlotsBounded` | mesh.c:88-90 | a slot filled by the scan holds an edge whose endpoints are the side's two corners |
| `Assembly.TriangleToMesh` | mesh.c:122-169 | node i has id i, coordinates `pointlist[2i]`, `pointlist[2i+1]`, z 0 and marker i; edge s has id s, ends `edgelist[2s]`, `edgelist[2s+1]` and marker s; element r keeps the triangulator's corner order; every slot is a first match; counts equal the triangulator's counts; the mesh is well formed; as written, each x slot holds the side's y difference, the y slots stay unwritten and every area is 0 |
| `Assembly.CompleteIffEverySideListed` | mesh.c:85-93 | every slot of the assembled mesh is filled if and only if the edge list has an edge along every element side |
| `Assembly.RederiveCorrected` | mesh.c:159 | recomputing the geometry with the corrected derivation keeps nodes, edges, corners and slots and well-formedness; each element's x and y slots hold the x and y components of its side vectors, corner to corner, and its area is the triangle's signed area |
| `Geometry.SetElementEdgeVectors` | mesh.c:98-106 | as written, x slot i ends up holding the y component of side i (adding it to the start corner's y gives the end corner's y); the x component is lost |
| `Geometry.SetElementArea` | mesh.c:108-111 | as written, the area is 0 for every triangle |
| `Geometry.DeriveAsWritten` | mesh.c:98-111 | one element after both steps: only the x slots and the area change; the y slots keep what they held |
| `Geometry.SetEdgeVectorsAndAreas` | mesh.c:113-120 | every element is derived as written; ids, corners, edge slots and y slots are untouched |
| `Geometry.SetEdgeVectorsAndAreasIdempotent` | mesh.h:20-24 | running the derivation twice gives the same elements as running it once: the cache is a function of the corners |
| `Geometry.AsWrittenMisreportsUnitTriangle` | mesh.c:103-110 | on the triangle (0,0),(1,0),(0,1), slot 0 holds 1 where the x component -1 belongs, and the area is 0 where it is 1/2 |
| `Geometry.SideVectorsClose` | mesh.h:30 | corrected side vector i leads from corner `(i+1)%3` to corner `(i+2)%3`, and the three vectors sum to zero |
| `Geometry.SignedAreaIsShoelace` | mesh.h:31 | the corrected area, half the cross product of side vectors 0 and 1, equals the shoelace area of the corners |
| `Geometry.SignedAreaFlipsWithWinding` | mesh.h:31 | swapping two corners negates the signed area |
| `Geometry.CorrectedUnitTriangleArea` | mesh.c:108-111 | the corrected area of the unit right triangle is 1/2 |
| `Geometry.DeriveCorrected` | mesh.c:98-111 | the corrected element has side vectors leading corner to corner in both components, y slots written, and the shoelace area |
| `Geometry.SetEdgeVectorsAndAreasCorrected` | mesh.c:113-120 | every element gets the x and y components of its three side vectors in its x and y slots and the shoelace area; ids, corners and slots are untouched |
| `MeshToEps.BoundingBox` | mesh-to-eps.c:48-59 | for at least one node, every node lies within the returned bounds and each bound is attained by some node |
| `MeshToEps.ComputeLayout` | mesh-to-eps.c:60-65 | the computed `W = D/d·w`, `H = D/d·h`, `s = D/((1+2p)·d)` satisfy the layout equations `LayoutOf`: `d = max(w,h) > 0`, `s > 0`, `W = (1+2p)·s·w`, `H = (1+2p)·s·h`, `max(W,H) = D` |
| `MeshToEps.LayoutUnique` | mesh-to-eps.c:9-13 | any layout satisfying those equations is the computed one, so the code's formulas are the only solution of the equations derived in the comment at the top of mesh-to-eps.c |
| `MeshToEps.LayoutArithmetic` | mesh-to-eps.c:9-13 | the derivation: `(1+2p)·s = D/d`, hence `W = D/d·w`, `H = D/d·h`, and the larger of them is D |
| `MeshToEps.MapCorner` | mesh-to-eps.c:15-17 | xmin maps to `p·s·w` and ymin to `p·s·h` |
| `MeshToEps.MapMonotone` | mesh-to-eps.c:80-81 | the map preserves order on each axis |
| `MeshToEps.MapIntoCanvas` | mesh-to-eps.c:6-9 | a point of the box maps into `[p·s·w, (1+p)·s·w] ⊆ [0, W]` and `[p·s·h, (1+p)·s·h] ⊆ [0, H]` |
| `MeshToEps.AxisIntoCanvas` | mesh-to-eps.c:96-99 | one axis: an offset in `[0, w]` lands between the margins of a canvas side `(1+2p)·s·w` |
| `MeshToEps.Emit` | mesh-to-eps.c:77-102 | one fill per element in element order, then one stroke per edge in edge order; no stroke comes before a fill |
| `MeshToEps.MeshToEps` | mesh-to-eps.c:32-102 | the returned layout's box encloses every node and each of its sides touches a node, and the layout satisfies `LayoutOf` for that box (so it is the computed one); the picture has the layout's W and H as its size and exactly the commands `Emit` gives for that layout: each element's mapped fill, then each edge's mapped stroke; the canvas' larger side is D |
| `MeshToEps.DrawingOnCanvas` | mesh-to-eps.c:77-102 | for a layout of a box that encloses every node (what `MeshToEps` returns), every coordinate of every fill and stroke lies within `[0, W] x [0, H]`, so the drawing stays inside the declared bounding box |
| `Domains.TriangleWithHole` | problem-spec.c:12-61 | 7 points, 7 segments, 1 hole; ids are positions; every segment end names an existing point; everything is Dirichlet |
| `Domains.Square` | problem-spec.c:152-203 | 8 points, 8 segments, 1 hole; ids are positions; segment ends are in range; everything is Dirichlet; every point lies in `[0,1] × [0,3]` |
| `Domains.ClosedRingsAreModular` | problem-spec.c:114-126 | after the wrap-around fix, inner segment i joins i to `(i+1) mod n` and outer segment n+i joins n+i to `n + (i+1) mod n` |
| `Domains.ClosedRingsInRange` | problem-spec.c:114-126 | every ring segment's id is its index and both ends lie in `[0, 2n)` |
| `Domains.Annulus` | problem-spec.c:63-140 | for `n ≥ 1`: 2n points, 2n segments and one hole at (0,0); ids are positions; everything is Dirichlet; the rings are indexed modulo n; the description is well formed |

## Findings

| source | as written | input that shows it | evidently intended | confidence | as-written member | corrected member |
|---|---|---|---|---|---|---|
| mesh.c:103-104 | the second assignment stores the y difference into `edge_vector_x[i]`; `edge_vector_y` is never written | triangle (0,0),(1,0),(0,1): `edge_vector_x[0]` is 1, but side 0's x component is -1 | `edge_vector_y[i] = node[k]->y - node[j]->y` | high; not executed | `Geometry.AsWrittenMisreportsUnitTriangle` | `Geometry.DeriveCorrected` |
| mesh.c:110 | `(x[0]*x[1] - x[1]*x[0])/2` is 0 for every triangle | the same triangle: area 0 instead of 1/2 | `(x[0]*y[1] - x[1]*y[0])/2`, the signed area | high; not executed | `Geometry.SetElementArea` | `Geometry.SignedAreaIsShoelace` |

`Assembly.TriangleToMesh` keeps the geometry as written, so that it matches
the program. `Assembly.RederiveCorrected` applies the corrected derivation to
an assembled mesh.

## Unmatched element sides

- An element side with no matching edge is left uninitialised by the code.
  The model records `None` in that slot, and
  `Assembly.CompleteIffEverySideListed` states when that happens.

## Left out

- `do_triangulate` and the `triangulate` call (mesh.c:55-72): a foreign
  library call. Its output is an arbitrary `TriangulateOut` record that
  satisfies `Assembly.ValidOutput`.
- `make_mesh` (mesh.c:204-215) is the composition of flattening, the
  foreign call and assembly. With the foreign call left out, it is not
  modelled as one function.
- Allocation and freeing: `free_mesh`, `free_annulus`, `free_three_holes`,
  `free_triangle_in_structure`, `free_triangle_out_structure`, and
  xmalloc.c / myarray.h. These are memory plumbing with no observable
  result in a value model.
- `three_holes` and `free_square` are declared in problem-spec.h but have no
  definition in the source files. They are not part of this model.
- File and text output in `mesh_to_eps`: `fopen` and its failure return,
  `fprintf` with `%g`, the EPS header and trailer, and `time`/`ctime`. The
  picture is modelled as its bounding-box size plus a sequence of abstract
  commands.
- Annulus point coordinates are computed with `atan`, `cos` and `sin`. They
  come from a caller-supplied `place` function. The `printf` messages are
  left out.
- The PDE callbacks `f`, `u_exact`, `g`, `h` and `eta` are always NULL and
  never read here.
- mesh-demo.c, the command-line driver.
- IEEE floating point: coordinates are exact reals. Integers are unbounded;
  the C `int` ranges are not modelled, since no index computation here comes
  near them.
- `MeshToEps.MeshToEps`: requires that not all nodes coincide, because with
  `d = 0` the source divides by zero and writes infinities or NaNs.
- `Domains.Annulus`: requires `n ≥ 1`, because the fix after the loop writes
  `segments[n-1]`.
- `Assembly.TriangleToMesh`: requires every node index in the triangle and
  edge lists to name an output point. Out-of-range indices are undefined
  behaviour in the source.
