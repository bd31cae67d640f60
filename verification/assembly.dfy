/** Turning the triangulator's flat output into a cross-referenced mesh
    (mesh.c, assign_elem_edges and triangle_to_mesh). */
module Assembly {
  import opened Wrappers
  import opened TriangleIO
  import opened MeshTypes
  import opened Geometry

  /** What the assembly reads of the triangulator's output: the arrays are at
      least as long as their counts say, and every node reference names one of
      the output points. */
  predicate ValidOutput(out: TriangulateOut) {
    && out.numberOfPoints >= 0
    && out.numberOfEdges >= 0
    && out.numberOfTriangles >= 0
    && |out.pointList| >= 2 * out.numberOfPoints
    && |out.pointMarkerList| >= out.numberOfPoints
    && |out.edgeList| >= 2 * out.numberOfEdges
    && |out.edgeMarkerList| >= out.numberOfEdges
    && |out.triangleList| >= 3 * out.numberOfTriangles
    && (forall k :: 0 <= k < 2 * out.numberOfEdges ==> 0 <= out.edgeList[k] < out.numberOfPoints)
    && (forall k :: 0 <= k < 3 * out.numberOfTriangles ==> 0 <= out.triangleList[k] < out.numberOfPoints)
  }

  function BuildNodes(out: TriangulateOut): (nodes: seq<Node>)
    requires ValidOutput(out)
    ensures |nodes| == out.numberOfPoints
    ensures forall i :: 0 <= i < |nodes| ==>
              nodes[i] == Node(i, out.pointList[2 * i], out.pointList[2 * i + 1], 0.0, out.pointMarkerList[i])
  {
    seq(out.numberOfPoints, i requires 0 <= i < out.numberOfPoints && ValidOutput(out) =>
      Node(i, out.pointList[2 * i], out.pointList[2 * i + 1], 0.0, out.pointMarkerList[i]))
  }

  function BuildEdges(out: TriangulateOut): (edges: seq<Edge>)
    requires ValidOutput(out)
    ensures |edges| == out.numberOfEdges
    ensures forall s :: 0 <= s < |edges| ==>
              && edges[s] == Edge(s, out.edgeList[2 * s], out.edgeList[2 * s + 1], out.edgeMarkerList[s])
              && edges[s].node0 < out.numberOfPoints && edges[s].node1 < out.numberOfPoints
  {
    seq(out.numberOfEdges, i requires 0 <= i < out.numberOfEdges && ValidOutput(out) =>
      Edge(i, out.edgeList[2 * i], out.edgeList[2 * i + 1], out.edgeMarkerList[i]))
  }

  /** Elements with their corners set; the edge slots and the geometry are
      filled in by the later steps. */
  function BuildElements(out: TriangulateOut): (els: seq<Element>)
    requires ValidOutput(out)
    ensures |els| == out.numberOfTriangles
    ensures forall r :: 0 <= r < |els| ==>
              && els[r].elementId == r
              && els[r].node == Triple(out.triangleList[3 * r], out.triangleList[3 * r + 1], out.triangleList[3 * r + 2])
              && els[r].edgeVectorY == Triple(None, None, None)
              && CornersIn(els[r].node, out.numberOfPoints)
  {
    seq(out.numberOfTriangles, i requires 0 <= i < out.numberOfTriangles && ValidOutput(out) =>
      Element(i,
              Triple(out.triangleList[3 * i], out.triangleList[3 * i + 1], out.triangleList[3 * i + 2]),
              Triple(None, None, None),
              Triple(0.0, 0.0, 0.0),
              Triple(None, None, None),
              0.0))
  }

  /** `o` is the lowest-numbered edge at position `from` or later joining `a`
      and `b`, or `None` when there is no such edge. */
  predicate IsFirstMatch(edges: seq<Edge>, a: nat, b: nat, from: nat, o: Option<nat>) {
    match o
    case None => forall s :: from <= s < |edges| ==> !Joins(edges[s], a, b)
    case Some(s) =>
      && from <= s < |edges|
      && Joins(edges[s], a, b)
      && forall t :: from <= t < s ==> !Joins(edges[t], a, b)
  }

  /** The first-match description leaves no choice. */
  lemma FirstMatchUnique(edges: seq<Edge>, a: nat, b: nat, from: nat, o1: Option<nat>, o2: Option<nat>)
    requires IsFirstMatch(edges, a, b, from, o1) && IsFirstMatch(edges, a, b, from, o2)
    ensures o1 == o2
  {
  }

  /** The inner scan of assign_elem_edges: edges are tried in order and the
      first one joining the two nodes is taken. */
  function FindEdge(edges: seq<Edge>, a: nat, b: nat, from: nat): (o: Option<nat>)
    requires from <= |edges|
    ensures IsFirstMatch(edges, a, b, from, o)
    decreases |edges| - from
  {
    if from == |edges| then None
    else if Joins(edges[from], a, b) then Some(from)
    else FindEdge(edges, a, b, from + 1)
  }

  /** The edge slots of one element: slot `i` gets the first edge along side `i`. */
  function ElementEdges(edges: seq<Edge>, c: Triple<nat>): (t: Triple<Option<nat>>)
    ensures forall i: Local :: IsFirstMatch(edges, SideNodes(c, i).0, SideNodes(c, i).1, 0, t.At(i))
  {
    var slot := (i: Local) => FindEdge(edges, SideNodes(c, i).0, SideNodes(c, i).1, 0);
    Triple(slot(0), slot(1), slot(2))
  }

  /** assign_elem_edges: every element's three slots are matched against the
      edge list; everything else about the elements is left as it was. */
  function AssignElemEdges(els: seq<Element>, edges: seq<Edge>): (els': seq<Element>)
    ensures |els'| == |els|
    ensures forall r :: 0 <= r < |els| ==>
              && els'[r].elementId == els[r].elementId
              && els'[r].node == els[r].node
              && els'[r].edgeVectorX == els[r].edgeVectorX
              && els'[r].edgeVectorY == els[r].edgeVectorY
              && els'[r].area == els[r].area
    ensures forall r, i: Local :: 0 <= r < |els| ==>
              IsFirstMatch(edges, SideNodes(els[r].node, i).0, SideNodes(els[r].node, i).1, 0, els'[r].edge.At(i))
  {
    seq(|els|, r requires 0 <= r < |els| => els[r].(edge := ElementEdges(edges, els[r].node)))
  }

  /** triangle_to_mesh, with the geometry step as written. */
  function TriangleToMesh(out: TriangulateOut): (m: Mesh)
    requires ValidOutput(out)
    ensures WellFormed(m)
    ensures m.nodeNum == out.numberOfPoints
    ensures m.edgeNum == out.numberOfEdges
    ensures m.elementNum == out.numberOfTriangles
    ensures forall i :: 0 <= i < m.nodeNum ==>
              m.nodes[i] == Node(i, out.pointList[2 * i], out.pointList[2 * i + 1], 0.0, out.pointMarkerList[i])
    ensures forall s :: 0 <= s < m.edgeNum ==>
              m.edges[s] == Edge(s, out.edgeList[2 * s], out.edgeList[2 * s + 1], out.edgeMarkerList[s])
    ensures forall r :: 0 <= r < m.elementNum ==>
              && m.elements[r].elementId == r
              && m.elements[r].node == Triple(out.triangleList[3 * r], out.triangleList[3 * r + 1], out.triangleList[3 * r + 2])
    ensures forall r, i: Local :: 0 <= r < m.elementNum ==>
              IsFirstMatch(m.edges, SideNodes(m.elements[r].node, i).0, SideNodes(m.elements[r].node, i).1, 0,
                           m.elements[r].edge.At(i))
    ensures forall r :: 0 <= r < m.elementNum ==>
              && m.elements[r].area == 0.0
              && m.elements[r].edgeVectorY == Triple(None, None, None)
              && forall i: Local :: m.elements[r].edgeVectorX.At(i) == SideDy(m.nodes, m.elements[r].node, i)
  {
    var nodes := BuildNodes(out);
    var edges := BuildEdges(out);
    var els := AssignElemEdges(BuildElements(out), edges);
    var m := Mesh(nodes, edges, SetEdgeVectorsAndAreas(nodes, els),
                  out.numberOfPoints, out.numberOfEdges, out.numberOfTriangles);
    MatchedSlotsBounded(m);
    m
  }

  /** A slot filled by the first-match scan holds an edge along its side. */
  lemma MatchedSlotsBounded(m: Mesh)
    requires forall r, i: Local :: 0 <= r < |m.elements| ==>
               IsFirstMatch(m.edges, SideNodes(m.elements[r].node, i).0, SideNodes(m.elements[r].node, i).1, 0,
                            m.elements[r].edge.At(i))
    ensures forall r, i: Local :: 0 <= r < |m.elements| ==> SideBounded(m.edges, m.elements[r], i)
  {
    forall r, i: Local | 0 <= r < |m.elements|
      ensures SideBounded(m.edges, m.elements[r], i)
    {
      var el := m.elements[r];
      assert IsFirstMatch(m.edges, SideNodes(el.node, i).0, SideNodes(el.node, i).1, 0, el.edge.At(i));
    }
  }

  /** The edge list has some edge along side `i` of a triangle with corners `c`. */
  predicate SideListed(edges: seq<Edge>, c: Triple<nat>, i: Local) {
    exists s :: 0 <= s < |edges| && Joins(edges[s], SideNodes(c, i).0, SideNodes(c, i).1)
  }

  /** Every element side gets an edge exactly when the triangulator listed an
      edge along that side. */
  lemma CompleteIffEverySideListed(out: TriangulateOut)
    requires ValidOutput(out)
    ensures var m := TriangleToMesh(out);
            TopologyComplete(m) <==>
            forall r, i: Local :: 0 <= r < |m.elements| ==> SideListed(m.edges, m.elements[r].node, i)
  {
    var m := TriangleToMesh(out);
    forall r, i: Local | 0 <= r < |m.elements|
      ensures m.elements[r].edge.At(i).Some? <==> SideListed(m.edges, m.elements[r].node, i)
    {
      var c := m.elements[r].node;
      var o := m.elements[r].edge.At(i);
      assert IsFirstMatch(m.edges, SideNodes(c, i).0, SideNodes(c, i).1, 0, o);
      if o.Some? {
        assert Joins(m.edges[o.value], SideNodes(c, i).0, SideNodes(c, i).1);
      }
    }
  }

  /** The mesh with every element's vectors and area recomputed by the
      corrected derivation; nodes, edges and incidence are untouched. */
  function RederiveCorrected(m: Mesh): (m': Mesh)
    requires WellFormed(m)
    ensures WellFormed(m')
    ensures m'.nodes == m.nodes && m'.edges == m.edges && CountsMatch(m')
    ensures |m'.elements| == |m.elements|
    ensures forall r :: 0 <= r < |m.elements| ==>
              && m'.elements[r].node == m.elements[r].node
              && m'.elements[r].edge == m.elements[r].edge
              && m'.elements[r].area == TwiceShoelace(m.nodes, m.elements[r].node) / 2.0
              && forall i: Local ::
                   && m'.elements[r].edgeVectorX.At(i) == SideDx(m.nodes, m.elements[r].node, i)
                   && m'.elements[r].edgeVectorY.At(i) == Some(SideDy(m.nodes, m.elements[r].node, i))
  {
    var els := SetEdgeVectorsAndAreasCorrected(m.nodes, m.elements);
    var m' := m.(elements := els);
    SameIncidenceBounded(m, m');
    m'
  }

  /** Side boundedness depends only on corners, slots and the edge list. */
  lemma SameIncidenceBounded(m: Mesh, m': Mesh)
    requires forall r, i: Local :: 0 <= r < |m.elements| ==> SideBounded(m.edges, m.elements[r], i)
    requires m'.edges == m.edges && |m'.elements| == |m.elements|
    requires forall r :: 0 <= r < |m.elements| ==>
               m'.elements[r].node == m.elements[r].node && m'.elements[r].edge == m.elements[r].edge
    ensures forall r, i: Local :: 0 <= r < |m'.elements| ==> SideBounded(m'.edges, m'.elements[r], i)
  {
    forall r, i: Local | 0 <= r < |m'.elements|
      ensures SideBounded(m'.edges, m'.elements[r], i)
    {
      assert SideBounded(m.edges, m.elements[r], i);
    }
  }
}
