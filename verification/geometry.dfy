/** The per-element quantities cached at assembly time (mesh.c,
    set_element_edge_vectors, set_element_area, set_edge_vectors_and_areas):
    the code as written, and the corrected computation it evidently intends. */
module Geometry {
  import opened Wrappers
  import opened MeshTypes

  /** x-coordinate difference along side `i`, from corner `SideStart(i)` to
      corner `SideEnd(i)`. */
  function SideDx(nodes: seq<Node>, c: Triple<nat>, i: Local): real
    requires CornersIn(c, |nodes|)
  {
    nodes[c.At(SideEnd(i))].x - nodes[c.At(SideStart(i))].x
  }

  /** y-coordinate difference along side `i`. */
  function SideDy(nodes: seq<Node>, c: Triple<nat>, i: Local): real
    requires CornersIn(c, |nodes|)
  {
    nodes[c.At(SideEnd(i))].y - nodes[c.At(SideStart(i))].y
  }

  /** Twice the signed area of the triangle with these corners (the shoelace
      formula): positive for counter-clockwise corners. */
  function TwiceShoelace(nodes: seq<Node>, c: Triple<nat>): real
    requires CornersIn(c, |nodes|)
  {
    var p0, p1, p2 := nodes[c.t0], nodes[c.t1], nodes[c.t2];
    (p1.x - p0.x) * (p2.y - p0.y) - (p2.x - p0.x) * (p1.y - p0.y)
  }

  // ---------------------------------------------------------------------
  // As written

  /** The x slots as the source fills them (mesh.c:103-104): each slot is
      first given the x difference of its side and then overwritten with the
      y difference, so only the second store survives and the slot leads
      from the side's start to its end in y, not in x. */
  function SetElementEdgeVectors(nodes: seq<Node>, c: Triple<nat>): (vx: Triple<real>)
    requires CornersIn(c, |nodes|)
    ensures forall i: Local ::
              nodes[c.At(SideStart(i))].y + vx.At(i) == nodes[c.At(SideEnd(i))].y
  {
    Triple(SideDy(nodes, c, 0), SideDy(nodes, c, 1), SideDy(nodes, c, 2))
  }

  /** The area as the source computes it: both factors of each product are
      x slots, so the difference cancels for every triangle. */
  function SetElementArea(vx: Triple<real>): (area: real)
    ensures area == 0.0
  {
    (vx.t0 * vx.t1 - vx.t1 * vx.t0) / 2.0
  }

  /** One element after set_element_edge_vectors and set_element_area: only the
      x slots and the area are written; the y slots keep whatever they held. */
  function DeriveAsWritten(nodes: seq<Node>, el: Element): (el': Element)
    requires CornersIn(el.node, |nodes|)
    ensures el'.elementId == el.elementId && el'.node == el.node && el'.edge == el.edge
    ensures el'.edgeVectorY == el.edgeVectorY
    ensures forall i: Local :: el'.edgeVectorX.At(i) == SideDy(nodes, el.node, i)
    ensures el'.area == 0.0
  {
    var vx := SetElementEdgeVectors(nodes, el.node);
    el.(edgeVectorX := vx, area := SetElementArea(vx))
  }

  predicate AllCornersIn(els: seq<Element>, numNodes: nat) {
    forall r :: 0 <= r < |els| ==> CornersIn(els[r].node, numNodes)
  }

  /** set_edge_vectors_and_areas: every element in turn, as written. */
  function SetEdgeVectorsAndAreas(nodes: seq<Node>, els: seq<Element>): (els': seq<Element>)
    requires AllCornersIn(els, |nodes|)
    ensures |els'| == |els|
    ensures forall r :: 0 <= r < |els| ==>
              && els'[r].elementId == els[r].elementId
              && els'[r].node == els[r].node
              && els'[r].edge == els[r].edge
              && els'[r].edgeVectorY == els[r].edgeVectorY
              && els'[r].area == 0.0
              && forall i: Local :: els'[r].edgeVectorX.At(i) == SideDy(nodes, els[r].node, i)
  {
    seq(|els|, r requires 0 <= r < |els| && AllCornersIn(els, |nodes|) => DeriveAsWritten(nodes, els[r]))
  }

  /** Running the derivation again changes nothing: the cached values depend
      on the corner coordinates alone. */
  lemma SetEdgeVectorsAndAreasIdempotent(nodes: seq<Node>, els: seq<Element>)
    requires AllCornersIn(els, |nodes|)
    ensures AllCornersIn(SetEdgeVectorsAndAreas(nodes, els), |nodes|)
    ensures SetEdgeVectorsAndAreas(nodes, SetEdgeVectorsAndAreas(nodes, els))
            == SetEdgeVectorsAndAreas(nodes, els)
  {
    var once := SetEdgeVectorsAndAreas(nodes, els);
    var twice := SetEdgeVectorsAndAreas(nodes, once);
    forall r | 0 <= r < |els|
      ensures twice[r] == once[r]
    {
      assert twice[r].edgeVectorX == once[r].edgeVectorX by {
        var a, b := twice[r].edgeVectorX, once[r].edgeVectorX;
        assert a.At(0) == b.At(0) && a.At(1) == b.At(1) && a.At(2) == b.At(2);
      }
    }
  }

  /** The unit right triangle with corners (0,0), (1,0), (0,1). */
  function UnitRightTriangle(): seq<Node> {
    [Node(0, 0.0, 0.0, 0.0, 0), Node(1, 1.0, 0.0, 0.0, 0), Node(2, 0.0, 1.0, 0.0, 0)]
  }

  /** On the unit right triangle the code as written stores the y component
      (1) where the x component of side 0 (-1) belongs, and reports area 0
      where the area is 1/2. */
  lemma AsWrittenMisreportsUnitTriangle()
    ensures SetElementEdgeVectors(UnitRightTriangle(), Triple(0, 1, 2)).t0 == 1.0
    ensures EdgeVectorsX(UnitRightTriangle(), Triple(0, 1, 2)).t0 == -1.0
    ensures SetElementArea(SetElementEdgeVectors(UnitRightTriangle(), Triple(0, 1, 2))) == 0.0
    ensures TwiceShoelace(UnitRightTriangle(), Triple(0, 1, 2)) / 2.0 == 0.5
  {
  }

  // ---------------------------------------------------------------------
  // Corrected

  /** The x components of the three side vectors. */
  function EdgeVectorsX(nodes: seq<Node>, c: Triple<nat>): (vx: Triple<real>)
    requires CornersIn(c, |nodes|)
  {
    Triple(SideDx(nodes, c, 0), SideDx(nodes, c, 1), SideDx(nodes, c, 2))
  }

  /** The y components of the three side vectors. */
  function EdgeVectorsY(nodes: seq<Node>, c: Triple<nat>): (vy: Triple<real>)
    requires CornersIn(c, |nodes|)
  {
    Triple(SideDy(nodes, c, 0), SideDy(nodes, c, 1), SideDy(nodes, c, 2))
  }

  /** Half the cross product of the vectors of sides 0 and 1. */
  function SignedArea(vx: Triple<real>, vy: Triple<real>): real {
    (vx.t0 * vy.t1 - vx.t1 * vy.t0) / 2.0
  }

  /** The side vectors walk around the triangle: each starts where the
      previous one ends and together they sum to zero. */
  lemma SideVectorsClose(nodes: seq<Node>, c: Triple<nat>)
    requires CornersIn(c, |nodes|)
    ensures forall i: Local ::
              nodes[c.At(SideStart(i))].x + EdgeVectorsX(nodes, c).At(i) == nodes[c.At(SideEnd(i))].x
              && nodes[c.At(SideStart(i))].y + EdgeVectorsY(nodes, c).At(i) == nodes[c.At(SideEnd(i))].y
    ensures EdgeVectorsX(nodes, c).t0 + EdgeVectorsX(nodes, c).t1 + EdgeVectorsX(nodes, c).t2 == 0.0
    ensures EdgeVectorsY(nodes, c).t0 + EdgeVectorsY(nodes, c).t1 + EdgeVectorsY(nodes, c).t2 == 0.0
  {
  }

  /** The corrected area is the signed area of the triangle: half the
      shoelace sum of its corners. */
  lemma SignedAreaIsShoelace(nodes: seq<Node>, c: Triple<nat>)
    requires CornersIn(c, |nodes|)
    ensures SignedArea(EdgeVectorsX(nodes, c), EdgeVectorsY(nodes, c)) == TwiceShoelace(nodes, c) / 2.0
  {
    var p0, p1, p2 := nodes[c.t0], nodes[c.t1], nodes[c.t2];
    var dx0, dy0 := p2.x - p1.x, p2.y - p1.y;
    var dx1, dy1 := p0.x - p2.x, p0.y - p2.y;
    assert EdgeVectorsX(nodes, c).t0 == dx0 && EdgeVectorsY(nodes, c).t0 == dy0;
    assert EdgeVectorsX(nodes, c).t1 == dx1 && EdgeVectorsY(nodes, c).t1 == dy1;
    calc {
      dx0 * dy1 - dx1 * dy0;
      (p2.x - p1.x) * (p0.y - p2.y) - (p0.x - p2.x) * (p2.y - p1.y);
      (p1.x - p0.x) * (p2.y - p0.y) - (p2.x - p0.x) * (p1.y - p0.y);
    }
  }

  /** Exchanging two corners reverses the winding and so the sign of the area. */
  lemma SignedAreaFlipsWithWinding(nodes: seq<Node>, c: Triple<nat>)
    requires CornersIn(c, |nodes|)
    ensures TwiceShoelace(nodes, Triple(c.t0, c.t2, c.t1)) == -TwiceShoelace(nodes, c)
  {
  }

  /** The corrected area of the unit right triangle is 1/2. */
  lemma CorrectedUnitTriangleArea()
    ensures SignedArea(EdgeVectorsX(UnitRightTriangle(), Triple(0, 1, 2)),
                       EdgeVectorsY(UnitRightTriangle(), Triple(0, 1, 2))) == 0.5
  {
    SignedAreaIsShoelace(UnitRightTriangle(), Triple(0, 1, 2));
  }

  /** One element with the corrected vectors and area written. */
  function DeriveCorrected(nodes: seq<Node>, el: Element): (el': Element)
    requires CornersIn(el.node, |nodes|)
    ensures el'.elementId == el.elementId && el'.node == el.node && el'.edge == el.edge
    ensures forall i: Local ::
              && nodes[el.node.At(SideStart(i))].x + el'.edgeVectorX.At(i) == nodes[el.node.At(SideEnd(i))].x
              && el'.edgeVectorY.At(i).Some?
              && nodes[el.node.At(SideStart(i))].y + el'.edgeVectorY.At(i).value == nodes[el.node.At(SideEnd(i))].y
    ensures el'.area == TwiceShoelace(nodes, el.node) / 2.0
  {
    var vx, vy := EdgeVectorsX(nodes, el.node), EdgeVectorsY(nodes, el.node);
    SideVectorsClose(nodes, el.node);
    SignedAreaIsShoelace(nodes, el.node);
    el.(edgeVectorX := vx, edgeVectorY := Triple(Some(vy.t0), Some(vy.t1), Some(vy.t2)),
        area := SignedArea(vx, vy))
  }

  /** set_edge_vectors_and_areas with the corrected element derivation. */
  function SetEdgeVectorsAndAreasCorrected(nodes: seq<Node>, els: seq<Element>): (els': seq<Element>)
    requires AllCornersIn(els, |nodes|)
    ensures |els'| == |els|
    ensures forall r :: 0 <= r < |els| ==>
              && els'[r].elementId == els[r].elementId
              && els'[r].node == els[r].node
              && els'[r].edge == els[r].edge
              && els'[r].area == TwiceShoelace(nodes, els[r].node) / 2.0
              && forall i: Local ::
                   && els'[r].edgeVectorX.At(i) == SideDx(nodes, els[r].node, i)
                   && els'[r].edgeVectorY.At(i) == Some(SideDy(nodes, els[r].node, i))
  {
    seq(|els|, r requires 0 <= r < |els| && AllCornersIn(els, |nodes|) => DeriveCorrected(nodes, els[r]))
  }
}
