/** The fields of the triangulator's exchange record that the mesh code
    reads or writes, and the interleaving of coordinate pairs into the flat
    arrays that record uses. */
module TriangleIO {
  import opened Wrappers

  /** The record as filled in for the triangulator. */
  datatype TriangulateIn = TriangulateIn(
    numberOfPoints: int,
    pointList: seq<real>,
    pointMarkerList: seq<int>,
    numberOfPointAttributes: int,
    numberOfSegments: int,
    segmentList: seq<int>,
    segmentMarkerList: seq<int>,
    numberOfHoles: int,
    holeList: Option<seq<real>>,
    numberOfRegions: int)

  /** The record as returned by the triangulator: points (possibly more than
      were given), triangle corner triples and edge endpoint pairs. */
  datatype TriangulateOut = TriangulateOut(
    numberOfPoints: int,
    pointList: seq<real>,
    pointMarkerList: seq<int>,
    numberOfTriangles: int,
    triangleList: seq<int>,
    numberOfEdges: int,
    edgeList: seq<int>,
    edgeMarkerList: seq<int>)

  /** `a[0], b[0], a[1], b[1], ...`: the layout of every pair list. */
  function Interleave<T>(a: seq<T>, b: seq<T>): (r: seq<T>)
    requires |a| == |b|
    ensures |r| == 2 * |a|
    ensures forall i :: 0 <= i < |a| ==> r[2 * i] == a[i] && r[2 * i + 1] == b[i]
  {
    if |a| == 0 then []
    else
      var rest := Interleave(a[1..], b[1..]);
      assert forall i :: 1 <= i < |a| ==> a[i] == a[1..][i - 1] && b[i] == b[1..][i - 1];
      [a[0], b[0]] + rest
  }

  /** The first component of every pair of a pair list. */
  function Evens<T>(r: seq<T>): (a: seq<T>)
    requires |r| % 2 == 0
    ensures |a| == |r| / 2
    ensures forall i :: 0 <= i < |a| ==> a[i] == r[2 * i]
  {
    if |r| == 0 then []
    else
      var rest := Evens(r[2..]);
      assert forall i :: 1 <= i < |r| / 2 ==> r[2 * i] == r[2..][2 * (i - 1)];
      [r[0]] + rest
  }

  /** The second component of every pair of a pair list. */
  function Odds<T>(r: seq<T>): (b: seq<T>)
    requires |r| % 2 == 0
    ensures |b| == |r| / 2
    ensures forall i :: 0 <= i < |b| ==> b[i] == r[2 * i + 1]
  {
    if |r| == 0 then []
    else
      var rest := Odds(r[2..]);
      assert forall i :: 1 <= i < |r| / 2 ==> r[2 * i + 1] == r[2..][2 * (i - 1) + 1];
      [r[1]] + rest
  }

  /** Splitting an interleaved list gives back both halves. */
  lemma SplitInterleave<T>(a: seq<T>, b: seq<T>)
    requires |a| == |b|
    ensures Evens(Interleave(a, b)) == a
    ensures Odds(Interleave(a, b)) == b
  {
    var r := Interleave(a, b);
    assert forall i :: 0 <= i < |a| ==> Evens(r)[i] == r[2 * i];
    assert forall i :: 0 <= i < |a| ==> Odds(r)[i] == r[2 * i + 1];
  }

  /** Interleaving the halves of a pair list gives back the list. */
  lemma {:induction false} InterleaveSplit<T>(r: seq<T>)
    requires |r| % 2 == 0
    ensures Interleave(Evens(r), Odds(r)) == r
    decreases |r|
  {
    if |r| > 0 {
      InterleaveSplit(r[2..]);
      assert Evens(r) == [r[0]] + Evens(r[2..]);
      assert Odds(r) == [r[1]] + Odds(r[2..]);
      assert Evens(r)[1..] == Evens(r[2..]);
      assert Odds(r)[1..] == Odds(r[2..]);
      assert r == [r[0], r[1]] + r[2..];
    }
  }
}
