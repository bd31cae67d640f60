/** The assembled mesh (mesh.h). Cross-references that the C code keeps as
    pointers into the mesh's own arrays are indices here. */
module MeshTypes {
  import opened Wrappers

  /** A local index into a triangle: corner, side or edge-vector slot. */
  type Local = i: int | 0 <= i < 3

  /** A fixed-size array of three. */
  datatype Triple<T> = Triple(t0: T, t1: T, t2: T) {
    function At(i: Local): T {
      if i == 0 then t0 else if i == 1 then t1 else t2
    }
  }

  /** Local side `i` lies opposite corner `i`: it runs from corner
      `SideStart(i)` to corner `SideEnd(i)`. */
  function SideStart(i: Local): Local {
    (i + 1) % 3
  }

  function SideEnd(i: Local): Local {
    (i + 2) % 3
  }

  datatype Node = Node(nodeId: int, x: real, y: real, z: real, bc: int)

  /** An edge joins exactly two nodes. */
  datatype Edge = Edge(edgeId: int, node0: nat, node1: nat, bc: int)

  /** A triangle: three corners in the triangulator's order, the edge bounding
      each side (`None` where none was found), the cached edge vectors (`None`
      in a y slot that was never written) and the area. */
  datatype Element = Element(
    elementId: int,
    node: Triple<nat>,
    edge: Triple<Option<nat>>,
    edgeVectorX: Triple<real>,
    edgeVectorY: Triple<Option<real>>,
    area: real)

  datatype Mesh = Mesh(
    nodes: seq<Node>,
    edges: seq<Edge>,
    elements: seq<Element>,
    nodeNum: int,
    edgeNum: int,
    elementNum: int)

  /** The counts are the lengths of the arrays. */
  predicate CountsMatch(m: Mesh) {
    && m.nodeNum == |m.nodes|
    && m.edgeNum == |m.edges|
    && m.elementNum == |m.elements|
  }

  /** Every node an edge or element refers to exists. */
  predicate IndicesInRange(m: Mesh) {
    && (forall s :: 0 <= s < |m.edges| ==> m.edges[s].node0 < |m.nodes| && m.edges[s].node1 < |m.nodes|)
    && (forall r :: 0 <= r < |m.elements| ==> CornersIn(m.elements[r].node, |m.nodes|))
  }

  predicate CornersIn(corners: Triple<nat>, numNodes: nat) {
    corners.t0 < numNodes && corners.t1 < numNodes && corners.t2 < numNodes
  }

  /** Edge `e` joins nodes `a` and `b`, in either order. */
  predicate Joins(e: Edge, a: nat, b: nat) {
    (e.node0 == a && e.node1 == b) || (e.node0 == b && e.node1 == a)
  }

  /** The two nodes of side `i` of a triangle with these corners. */
  function SideNodes(corners: Triple<nat>, i: Local): (nat, nat) {
    (corners.At(SideStart(i)), corners.At(SideEnd(i)))
  }

  /** Side `i` of element `el` is bounded by the edge in its slot, if any. */
  predicate SideBounded(edges: seq<Edge>, el: Element, i: Local) {
    match el.edge.At(i)
    case None => true
    case Some(s) => s < |edges| && Joins(edges[s], SideNodes(el.node, i).0, SideNodes(el.node, i).1)
  }

  /** Ids are positions, counts are lengths, references are in range, and
      every filled edge slot holds an edge along that side. */
  predicate WellFormed(m: Mesh) {
    && CountsMatch(m)
    && IndicesInRange(m)
    && (forall i :: 0 <= i < |m.nodes| ==> m.nodes[i].nodeId == i)
    && (forall s :: 0 <= s < |m.edges| ==> m.edges[s].edgeId == s)
    && (forall r :: 0 <= r < |m.elements| ==> m.elements[r].elementId == r)
    && (forall r, i: Local :: 0 <= r < |m.elements| ==> SideBounded(m.edges, m.elements[r], i))
  }

  /** Every edge slot of every element is filled. */
  predicate TopologyComplete(m: Mesh) {
    forall r, i: Local :: 0 <= r < |m.elements| ==> m.elements[r].edge.At(i).Some?
  }

  /** The matching is read as unordered endpoint sets. */
  lemma JoinsIsSetEquality(e: Edge, a: nat, b: nat)
    ensures Joins(e, a, b) <==> {e.node0, e.node1} == {a, b}
  {
    if {e.node0, e.node1} == {a, b} {
      assert e.node0 in {a, b} && e.node1 in {a, b};
      assert a in {e.node0, e.node1} && b in {e.node0, e.node1};
    }
  }

  /** The corners of a triangle are pairwise distinct. */
  predicate DistinctCorners(c: Triple<nat>) {
    c.t0 != c.t1 && c.t1 != c.t2 && c.t0 != c.t2
  }

  /** Side `i` avoids corner `i` while every other side touches it, so no
      edge lies along two different sides of a triangle with distinct corners. */
  lemma NoEdgeOnTwoSides(e: Edge, c: Triple<nat>, i: Local, j: Local)
    requires DistinctCorners(c) && i != j
    requires Joins(e, SideNodes(c, i).0, SideNodes(c, i).1)
    ensures !Joins(e, SideNodes(c, j).0, SideNodes(c, j).1)
  {
    assert c.At(i) != c.At(SideStart(i)) && c.At(i) != c.At(SideEnd(i));
    assert c.At(i) == c.At(SideStart(j)) || c.At(i) == c.At(SideEnd(j));
  }

  /** In a triangle with three distinct corners, the three filled edge slots
      hold three different edges. */
  lemma BoundingEdgesDistinct(m: Mesh, r: int)
    requires WellFormed(m) && TopologyComplete(m)
    requires 0 <= r < |m.elements| && DistinctCorners(m.elements[r].node)
    ensures forall i: Local, j: Local :: i != j ==> m.elements[r].edge.At(i) != m.elements[r].edge.At(j)
  {
    var el := m.elements[r];
    forall i: Local, j: Local | i != j
      ensures el.edge.At(i) != el.edge.At(j)
    {
      assert SideBounded(m.edges, el, i) && SideBounded(m.edges, el, j);
      assert el.edge.At(i).Some? && el.edge.At(j).Some?;
      var s := el.edge.At(i).value;
      NoEdgeOnTwoSides(m.edges[s], el.node, i, j);
    }
  }
}
