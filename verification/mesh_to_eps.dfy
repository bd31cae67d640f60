/** Laying a mesh out on the picture (mesh-to-eps.c): the bounding-box scan,
    the scale and canvas size, the map from physical to canvas coordinates,
    and the order in which the drawing commands are emitted. The text of the
    picture itself is not modelled; each command stands for one filled
    triangle or one stroked edge. */
module MeshToEps {
  import opened MeshTypes

  /** The larger of the canvas width and height. */
  const D: real := 400.0

  /** The margin on each side, as a fraction of the image area. */
  const P: real := 0.01

  /** The MAX macro. */
  function Max(a: real, b: real): real {
    if a > b then a else b
  }

  datatype Box = Box(xmin: real, xmax: real, ymin: real, ymax: real)

  /** Every node lies inside the box. */
  predicate Encloses(b: Box, nodes: seq<Node>) {
    forall i :: 0 <= i < |nodes| ==> b.xmin <= nodes[i].x <= b.xmax && b.ymin <= nodes[i].y <= b.ymax
  }

  /** Each side of the box touches some node. */
  predicate Attained(b: Box, nodes: seq<Node>) {
    && (exists i :: 0 <= i < |nodes| && nodes[i].x == b.xmin)
    && (exists i :: 0 <= i < |nodes| && nodes[i].x == b.xmax)
    && (exists i :: 0 <= i < |nodes| && nodes[i].y == b.ymin)
    && (exists i :: 0 <= i < |nodes| && nodes[i].y == b.ymax)
  }

  /** The single pass over the nodes. A coordinate below the current minimum
      is not compared with the maximum (the `else if`); that is sound because
      the minimum never exceeds the maximum. */
  method BoundingBox(nodes: seq<Node>) returns (b: Box)
    requires |nodes| >= 1
    ensures Encloses(b, nodes) && Attained(b, nodes)
  {
    var xmin, xmax := nodes[0].x, nodes[0].x;
    var ymin, ymax := nodes[0].y, nodes[0].y;
    ghost var ixmin, ixmax, iymin, iymax := 0, 0, 0, 0;
    var i := 1;
    while i < |nodes|
      invariant 1 <= i <= |nodes|
      invariant xmin <= xmax && ymin <= ymax
      invariant forall k :: 0 <= k < i ==> xmin <= nodes[k].x <= xmax && ymin <= nodes[k].y <= ymax
      invariant 0 <= ixmin < i && nodes[ixmin].x == xmin
      invariant 0 <= ixmax < i && nodes[ixmax].x == xmax
      invariant 0 <= iymin < i && nodes[iymin].y == ymin
      invariant 0 <= iymax < i && nodes[iymax].y == ymax
    {
      if nodes[i].x < xmin {
        xmin, ixmin := nodes[i].x, i;
      } else if nodes[i].x > xmax {
        xmax, ixmax := nodes[i].x, i;
      }
      if nodes[i].y < ymin {
        ymin, iymin := nodes[i].y, i;
      } else if nodes[i].y > ymax {
        ymax, iymax := nodes[i].y, i;
      }
      i := i + 1;
    }
    b := Box(xmin, xmax, ymin, ymax);
  }

  /** The physical extent `w` by `h`, its larger side `d`, the canvas size
      `width` by `height` and the scale `s`. */
  datatype Layout = Layout(box: Box, w: real, h: real, d: real, width: real, height: real, s: real)

  /** A box with positive extent along at least one axis. */
  predicate NonDegenerate(b: Box) {
    b.xmin <= b.xmax && b.ymin <= b.ymax && Max(b.xmax - b.xmin, b.ymax - b.ymin) > 0.0
  }

  /** The equations the layout of box `b` must satisfy: the larger canvas
      side is D, the image area is the physical extent scaled by s, and a
      margin of P times the image area lies on either side. */
  predicate LayoutOf(l: Layout, b: Box) {
    && NonDegenerate(b) && l.box == b
    && l.w == b.xmax - b.xmin && l.h == b.ymax - b.ymin && l.d == Max(l.w, l.h)
    && l.s > 0.0
    && l.width == (1.0 + 2.0 * P) * l.s * l.w
    && l.height == (1.0 + 2.0 * P) * l.s * l.h
    && Max(l.width, l.height) == D
  }

  /** The scale and canvas size as the code computes them: W = D/d*w,
      H = D/d*h and s = D/((1+2p)d). */
  function ComputeLayout(b: Box): (l: Layout)
    requires NonDegenerate(b)
    ensures LayoutOf(l, b)
    ensures l.d > 0.0
  {
    var w := b.xmax - b.xmin;
    var h := b.ymax - b.ymin;
    var d := Max(w, h);
    var l := Layout(b, w, h, d, D / d * w, D / d * h, D / ((1.0 + 2.0 * P) * d));
    LayoutArithmetic(w, h, d);
    l
  }

  lemma LayoutArithmetic(w: real, h: real, d: real)
    requires w >= 0.0 && h >= 0.0 && d == Max(w, h) && d > 0.0
    ensures D / ((1.0 + 2.0 * P) * d) > 0.0
    ensures Max(D / d * w, D / d * h) == D
    ensures D / d * w == (1.0 + 2.0 * P) * (D / ((1.0 + 2.0 * P) * d)) * w
    ensures D / d * h == (1.0 + 2.0 * P) * (D / ((1.0 + 2.0 * P) * d)) * h
  {
    var q := 1.0 + 2.0 * P;
    assert q * (D / (q * d)) == D / d;
    if w >= h {
      assert D / d * w == D;
      assert D / d * h <= D / d * w;
    } else {
      assert D / d * h == D;
      assert D / d * w <= D / d * h;
    }
  }

  /** The layout equations have one solution, the one the code computes. */
  lemma LayoutUnique(l: Layout, b: Box)
    requires LayoutOf(l, b)
    ensures l == ComputeLayout(b)
  {
    var c := ComputeLayout(b);
    var q := 1.0 + 2.0 * P;
    MaxScaled(q * l.s, l.w, l.h);
    MaxScaled(q * c.s, c.w, c.h);
    assert q * l.s * l.d == D == q * c.s * c.d;
    assert l.s == c.s by {
      assert (l.s - c.s) * (q * l.d) == 0.0;
    }
  }

  lemma MaxScaled(k: real, u: real, v: real)
    requires k > 0.0
    ensures Max(k * u, k * v) == k * Max(u, v)
  {
    if u <= v {
      ScaleKeepsOrder(k, u, v);
    } else {
      ScaleKeepsOrder(k, v, u);
    }
  }

  /** Canvas x of physical x: the left margin, then the scaled offset from xmin. */
  function MapX(l: Layout, x: real): real {
    P * l.s * l.w + l.s * (x - l.box.xmin)
  }

  /** Canvas y of physical y. */
  function MapY(l: Layout, y: real): real {
    P * l.s * l.h + l.s * (y - l.box.ymin)
  }

  /** The box's lower corner lands on the margins. */
  lemma MapCorner(b: Box)
    requires NonDegenerate(b)
    ensures MapX(ComputeLayout(b), b.xmin) == P * ComputeLayout(b).s * ComputeLayout(b).w
    ensures MapY(ComputeLayout(b), b.ymin) == P * ComputeLayout(b).s * ComputeLayout(b).h
  {
  }

  /** The map keeps the order of coordinates along each axis. */
  lemma MapMonotone(b: Box, u: real, v: real)
    requires NonDegenerate(b)
    requires u <= v
    ensures MapX(ComputeLayout(b), u) <= MapX(ComputeLayout(b), v)
    ensures MapY(ComputeLayout(b), u) <= MapY(ComputeLayout(b), v)
  {
    var s := ComputeLayout(b).s;
    assert s * (v - u) >= 0.0;
  }

  /** A point of the box lands between the margins, inside the canvas. */
  lemma MapIntoCanvas(b: Box, x: real, y: real)
    requires NonDegenerate(b)
    requires b.xmin <= x <= b.xmax && b.ymin <= y <= b.ymax
    ensures var l := ComputeLayout(b);
            && 0.0 <= P * l.s * l.w <= MapX(l, x) <= (1.0 + P) * l.s * l.w <= l.width
            && 0.0 <= P * l.s * l.h <= MapY(l, y) <= (1.0 + P) * l.s * l.h <= l.height
  {
    var l := ComputeLayout(b);
    LayoutMapsIntoCanvas(l, x, y);
  }

  /** The same bound for any layout that satisfies the layout equations. */
  lemma LayoutMapsIntoCanvas(l: Layout, x: real, y: real)
    requires l.s > 0.0 && l.w == l.box.xmax - l.box.xmin && l.h == l.box.ymax - l.box.ymin
    requires l.width == (1.0 + 2.0 * P) * l.s * l.w && l.height == (1.0 + 2.0 * P) * l.s * l.h
    requires l.box.xmin <= x <= l.box.xmax && l.box.ymin <= y <= l.box.ymax
    ensures && 0.0 <= P * l.s * l.w <= MapX(l, x) <= (1.0 + P) * l.s * l.w <= l.width
            && 0.0 <= P * l.s * l.h <= MapY(l, y) <= (1.0 + P) * l.s * l.h <= l.height
  {
    AxisIntoCanvas(l.s, l.w, x - l.box.xmin);
    AxisIntoCanvas(l.s, l.h, y - l.box.ymin);
  }

  /** One axis of the map: an offset `t` in `[0, w]` from the low side lands
      between the margins of a canvas side `(1+2P) s w`. */
  lemma AxisIntoCanvas(s: real, w: real, t: real)
    requires s > 0.0 && 0.0 <= t <= w
    ensures 0.0 <= P * s * w <= P * s * w + s * t <= (1.0 + P) * s * w <= (1.0 + 2.0 * P) * s * w
  {
    var sw := s * w;
    ScaleKeepsOrder(s, 0.0, w);
    ScaleKeepsOrder(s, t, w);
    ScaleKeepsOrder(s, 0.0, t);
    assert P * s * w == P * sw;
    assert (1.0 + P) * s * w == sw + P * sw;
    assert (1.0 + 2.0 * P) * s * w == sw + 2.0 * P * sw;
  }

  lemma ScaleKeepsOrder(k: real, u: real, v: real)
    requires k >= 0.0 && u <= v
    ensures k * u <= k * v
  {
    assert k * v - k * u == k * (v - u);
  }

  /** A drawing command: a filled triangle or a stroked segment, in canvas
      coordinates. */
  datatype Command =
    | Fill(x: Triple<real>, y: Triple<real>)
    | Stroke(x1: real, y1: real, x2: real, y2: real)

  function FillOf(nodes: seq<Node>, l: Layout, el: Element): Command
    requires CornersIn(el.node, |nodes|)
  {
    var c := el.node;
    Fill(Triple(MapX(l, nodes[c.t0].x), MapX(l, nodes[c.t1].x), MapX(l, nodes[c.t2].x)),
         Triple(MapY(l, nodes[c.t0].y), MapY(l, nodes[c.t1].y), MapY(l, nodes[c.t2].y)))
  }

  function StrokeOf(nodes: seq<Node>, l: Layout, e: Edge): Command
    requires e.node0 < |nodes| && e.node1 < |nodes|
  {
    Stroke(MapX(l, nodes[e.node0].x), MapY(l, nodes[e.node0].y),
           MapX(l, nodes[e.node1].x), MapY(l, nodes[e.node1].y))
  }

  /** Every element is filled, in order, and then every edge is stroked, in
      order, so that the edges lie on top of the fills. */
  function Emit(m: Mesh, l: Layout): (cmds: seq<Command>)
    requires IndicesInRange(m)
    ensures |cmds| == |m.elements| + |m.edges|
    ensures forall r :: 0 <= r < |m.elements| ==> cmds[r] == FillOf(m.nodes, l, m.elements[r])
    ensures forall s :: 0 <= s < |m.edges| ==> cmds[|m.elements| + s] == StrokeOf(m.nodes, l, m.edges[s])
    ensures forall i, j :: 0 <= i < j < |cmds| && cmds[i].Stroke? ==> cmds[j].Stroke?
  {
    var fills := seq(|m.elements|, r requires 0 <= r < |m.elements| && IndicesInRange(m) =>
                       FillOf(m.nodes, l, m.elements[r]));
    var strokes := seq(|m.edges|, s requires 0 <= s < |m.edges| && IndicesInRange(m) =>
                         StrokeOf(m.nodes, l, m.edges[s]));
    fills + strokes
  }

  /** The picture: the bounding-box size declared in its header and the
      commands in the order they are written. */
  datatype Picture = Picture(width: real, height: real, commands: seq<Command>)

  /** Every coordinate of a command lies on the canvas. */
  predicate OnCanvas(c: Command, width: real, height: real) {
    match c
    case Fill(x, y) =>
      forall k: Local :: 0.0 <= x.At(k) <= width && 0.0 <= y.At(k) <= height
    case Stroke(x1, y1, x2, y2) =>
      0.0 <= x1 <= width && 0.0 <= y1 <= height && 0.0 <= x2 <= width && 0.0 <= y2 <= height
  }

  /** Not all nodes are at the same place, so the bounding box has extent. */
  predicate NotAllCoincide(nodes: seq<Node>) {
    exists i :: 0 <= i < |nodes| && (nodes[i].x != nodes[0].x || nodes[i].y != nodes[0].y)
  }

  /** A picture drawn with a layout whose box encloses every node lies on its
      canvas: every coordinate of every fill and stroke is within
      `[0, W] x [0, H]`. */
  lemma DrawingOnCanvas(m: Mesh, l: Layout)
    requires IndicesInRange(m) && LayoutOf(l, l.box) && Encloses(l.box, m.nodes)
    ensures forall k :: 0 <= k < |Emit(m, l)| ==> OnCanvas(Emit(m, l)[k], l.width, l.height)
  {
    LayoutUnique(l, l.box);
    var cmds := Emit(m, l);
    forall k | 0 <= k < |cmds|
      ensures OnCanvas(cmds[k], l.width, l.height)
    {
      if k < |m.elements| {
        var c := m.elements[k].node;
        MapIntoCanvas(l.box, m.nodes[c.t0].x, m.nodes[c.t0].y);
        MapIntoCanvas(l.box, m.nodes[c.t1].x, m.nodes[c.t1].y);
        MapIntoCanvas(l.box, m.nodes[c.t2].x, m.nodes[c.t2].y);
      } else {
        var e := m.edges[k - |m.elements|];
        MapIntoCanvas(l.box, m.nodes[e.node0].x, m.nodes[e.node0].y);
        MapIntoCanvas(l.box, m.nodes[e.node1].x, m.nodes[e.node1].y);
      }
    }
  }

  /** mesh_to_eps without the file output. The returned layout `l` is the
      layout of the nodes' bounding box (by `LayoutUnique`, exactly the
      `ComputeLayout` of that box); the picture has the layout's size and
      the commands `Emit` gives for it: one fill per element, then one stroke
      per edge, on a canvas whose larger side is D. `DrawingOnCanvas` shows,
      from these clauses, that every command lies on the canvas. */
  method MeshToEps(m: Mesh) returns (l: Layout, pic: Picture)
    requires CountsMatch(m) && IndicesInRange(m)
    requires |m.nodes| >= 1 && NotAllCoincide(m.nodes)
    ensures Encloses(l.box, m.nodes) && Attained(l.box, m.nodes)
    ensures LayoutOf(l, l.box)
    ensures pic == Picture(l.width, l.height, Emit(m, l))
    ensures Max(pic.width, pic.height) == D
    ensures |pic.commands| == m.elementNum + m.edgeNum
    ensures forall r :: 0 <= r < m.elementNum ==> pic.commands[r].Fill?
    ensures forall s :: m.elementNum <= s < |pic.commands| ==> pic.commands[s].Stroke?
  {
    var box := BoundingBox(m.nodes);
    assert NonDegenerate(box) by {
      var i :| 0 <= i < |m.nodes| && (m.nodes[i].x != m.nodes[0].x || m.nodes[i].y != m.nodes[0].y);
      assert m.nodes[i].x != m.nodes[0].x ==> box.xmax - box.xmin > 0.0;
      assert m.nodes[i].y != m.nodes[0].y ==> box.ymax - box.ymin > 0.0;
    }
    l := ComputeLayout(box);
    pic := Picture(l.width, l.height, Emit(m, l));
  }
}
