/** Serialising a domain description into the flat arrays the triangulator
    reads (mesh.c, problem_spec_to_triangle), and the reading that undoes it. */
module Flatten {
  import opened Wrappers
  import opened ProblemSpec
  import opened TriangleIO

  function PointXs(ps: seq<SpecPoint>): (xs: seq<real>)
    ensures |xs| == |ps|
  {
    seq(|ps|, i requires 0 <= i < |ps| => ps[i].x)
  }

  function PointYs(ps: seq<SpecPoint>): (ys: seq<real>)
    ensures |ys| == |ps|
  {
    seq(|ps|, i requires 0 <= i < |ps| => ps[i].y)
  }

  function PointMarkers(ps: seq<SpecPoint>): (bcs: seq<int>)
    ensures |bcs| == |ps|
  {
    seq(|ps|, i requires 0 <= i < |ps| => ps[i].bc)
  }

  function SegmentStarts(ss: seq<SpecSegment>): (ids: seq<int>)
    ensures |ids| == |ss|
  {
    seq(|ss|, i requires 0 <= i < |ss| => ss[i].pointId1)
  }

  function SegmentEnds(ss: seq<SpecSegment>): (ids: seq<int>)
    ensures |ids| == |ss|
  {
    seq(|ss|, i requires 0 <= i < |ss| => ss[i].pointId2)
  }

  function SegmentMarkers(ss: seq<SpecSegment>): (bcs: seq<int>)
    ensures |bcs| == |ss|
  {
    seq(|ss|, i requires 0 <= i < |ss| => ss[i].bc)
  }

  function HoleXs(hs: seq<SpecHole>): (xs: seq<real>)
    ensures |xs| == |hs|
  {
    seq(|hs|, i requires 0 <= i < |hs| => hs[i].x)
  }

  function HoleYs(hs: seq<SpecHole>): (ys: seq<real>)
    ensures |ys| == |hs|
  {
    seq(|hs|, i requires 0 <= i < |hs| => hs[i].y)
  }

  /** The triangulator's input: coordinates and segment ends interleaved,
      markers copied position for position, and no hole list at all when
      there are no holes. */
  function ProblemSpecToTriangle(spec: Spec): (t: TriangulateIn)
    requires Readable(spec)
    ensures t.numberOfPoints == spec.numPoints
    ensures |t.pointList| == 2 * spec.numPoints
    ensures forall i :: 0 <= i < spec.numPoints ==>
              t.pointList[2 * i] == spec.points[i].x && t.pointList[2 * i + 1] == spec.points[i].y
    ensures |t.pointMarkerList| == spec.numPoints
    ensures forall i :: 0 <= i < spec.numPoints ==> t.pointMarkerList[i] == spec.points[i].bc
    ensures t.numberOfPointAttributes == 0
    ensures t.numberOfSegments == spec.numSegments
    ensures |t.segmentList| == 2 * spec.numSegments
    ensures forall i :: 0 <= i < spec.numSegments ==>
              t.segmentList[2 * i] == spec.segments[i].pointId1
              && t.segmentList[2 * i + 1] == spec.segments[i].pointId2
    ensures |t.segmentMarkerList| == spec.numSegments
    ensures forall i :: 0 <= i < spec.numSegments ==> t.segmentMarkerList[i] == spec.segments[i].bc
    ensures t.numberOfHoles == spec.numHoles
    ensures t.holeList.None? <==> spec.numHoles == 0
    ensures t.holeList.Some? ==>
              && |t.holeList.value| == 2 * spec.numHoles
              && forall i :: 0 <= i < spec.numHoles ==>
                   t.holeList.value[2 * i] == spec.holes.value[i].x
                   && t.holeList.value[2 * i + 1] == spec.holes.value[i].y
    ensures t.numberOfRegions == 0
  {
    TriangulateIn(
      spec.numPoints,
      Interleave(PointXs(spec.points), PointYs(spec.points)),
      PointMarkers(spec.points),
      0,
      spec.numSegments,
      Interleave(SegmentStarts(spec.segments), SegmentEnds(spec.segments)),
      SegmentMarkers(spec.segments),
      spec.numHoles,
      if spec.numHoles != 0
      then Some(Interleave(HoleXs(spec.holes.value), HoleYs(spec.holes.value)))
      else None,
      0)
  }

  /** The lengths the flat arrays of an input record must have to be read back. */
  predicate Unflattenable(t: TriangulateIn) {
    && t.numberOfPoints >= 0
    && |t.pointList| == 2 * t.numberOfPoints
    && |t.pointMarkerList| == t.numberOfPoints
    && t.numberOfSegments >= 0
    && |t.segmentList| == 2 * t.numberOfSegments
    && |t.segmentMarkerList| == t.numberOfSegments
    && t.numberOfHoles >= 0
    && (t.holeList.Some? ==> |t.holeList.value| == 2 * t.numberOfHoles)
  }

  /** Points numbered by position, read from a coordinate pair list and a marker list. */
  function ReadPoints(n: nat, pl: seq<real>, markers: seq<int>): (ps: seq<SpecPoint>)
    requires |pl| == 2 * n && |markers| == n
    ensures |ps| == n
    ensures forall i :: 0 <= i < n ==> ps[i].pointId == i
  {
    var xs, ys := Evens(pl), Odds(pl);
    seq(n, i requires 0 <= i < n => SpecPoint(i, xs[i], ys[i], markers[i]))
  }

  /** Segments numbered by position, read from an endpoint pair list and a marker list. */
  function ReadSegments(n: nat, sl: seq<int>, markers: seq<int>): (ss: seq<SpecSegment>)
    requires |sl| == 2 * n && |markers| == n
    ensures |ss| == n
    ensures forall i :: 0 <= i < n ==> ss[i].segmentId == i
  {
    var starts, ends := Evens(sl), Odds(sl);
    seq(n, i requires 0 <= i < n => SpecSegment(i, starts[i], ends[i], markers[i]))
  }

  function ReadHoles(n: nat, hl: seq<real>): (hs: seq<SpecHole>)
    requires |hl| == 2 * n
    ensures |hs| == n
  {
    var hx, hy := Evens(hl), Odds(hl);
    seq(n, i requires 0 <= i < n => SpecHole(hx[i], hy[i]))
  }

  /** Reads a domain description back out of an input record, numbering
      points and segments by position. */
  function TriangleToSpec(t: TriangulateIn): (spec: Spec)
    requires Unflattenable(t)
    ensures IdsAreIndices(spec)
    ensures spec.numPoints == |spec.points| == t.numberOfPoints
    ensures spec.numSegments == |spec.segments| == t.numberOfSegments
  {
    Spec(
      ReadPoints(t.numberOfPoints, t.pointList, t.pointMarkerList),
      ReadSegments(t.numberOfSegments, t.segmentList, t.segmentMarkerList),
      match t.holeList
      case None => None
      case Some(hl) => Some(ReadHoles(t.numberOfHoles, hl)),
      t.numberOfPoints,
      t.numberOfSegments,
      t.numberOfHoles)
  }

  lemma PointsRoundTrip(ps: seq<SpecPoint>)
    requires forall i :: 0 <= i < |ps| ==> ps[i].pointId == i
    ensures ReadPoints(|ps|, Interleave(PointXs(ps), PointYs(ps)), PointMarkers(ps)) == ps
  {
    var xs, ys := PointXs(ps), PointYs(ps);
    SplitInterleave(xs, ys);
    var back := ReadPoints(|ps|, Interleave(xs, ys), PointMarkers(ps));
    forall i | 0 <= i < |ps|
      ensures back[i] == ps[i]
    {
      assert xs[i] == ps[i].x && ys[i] == ps[i].y;
    }
  }

  lemma SegmentsRoundTrip(ss: seq<SpecSegment>)
    requires forall i :: 0 <= i < |ss| ==> ss[i].segmentId == i
    ensures ReadSegments(|ss|, Interleave(SegmentStarts(ss), SegmentEnds(ss)), SegmentMarkers(ss)) == ss
  {
    var starts, ends := SegmentStarts(ss), SegmentEnds(ss);
    SplitInterleave(starts, ends);
    var back := ReadSegments(|ss|, Interleave(starts, ends), SegmentMarkers(ss));
    forall i | 0 <= i < |ss|
      ensures back[i] == ss[i]
    {
      assert starts[i] == ss[i].pointId1 && ends[i] == ss[i].pointId2;
    }
  }

  lemma HolesRoundTrip(hs: seq<SpecHole>)
    ensures ReadHoles(|hs|, Interleave(HoleXs(hs), HoleYs(hs))) == hs
  {
    var xs, ys := HoleXs(hs), HoleYs(hs);
    SplitInterleave(xs, ys);
    var back := ReadHoles(|hs|, Interleave(xs, ys));
    forall i | 0 <= i < |hs|
      ensures back[i] == hs[i]
    {
      assert xs[i] == hs[i].x && ys[i] == hs[i].y;
    }
  }

  /** Flattening loses nothing: a description whose ids are positions and
      whose hole pointer is NULL exactly when it has no holes is recovered
      from the triangulator's input record. */
  lemma FlattenRoundTrip(spec: Spec)
    requires Readable(spec) && IdsAreIndices(spec)
    requires spec.holes.None? <==> spec.numHoles == 0
    ensures Unflattenable(ProblemSpecToTriangle(spec))
    ensures TriangleToSpec(ProblemSpecToTriangle(spec)) == spec
  {
    PointsRoundTrip(spec.points);
    SegmentsRoundTrip(spec.segments);
    if spec.numHoles != 0 {
      HolesRoundTrip(spec.holes.value);
    }
  }

  /** A well-formed description hands the triangulator segment ends that all
      name one of its points. */
  lemma FlattenedSegmentsInRange(spec: Spec)
    requires WellFormed(spec)
    ensures var t := ProblemSpecToTriangle(spec);
            forall k :: 0 <= k < |t.segmentList| ==> 0 <= t.segmentList[k] < t.numberOfPoints
  {
    var t := ProblemSpecToTriangle(spec);
    forall k | 0 <= k < |t.segmentList|
      ensures 0 <= t.segmentList[k] < t.numberOfPoints
    {
      var i := k / 2;
      assert SegmentInRange(spec.segments[i], |spec.points|);
      if k % 2 == 0 {
        assert k == 2 * i;
      } else {
        assert k == 2 * i + 1;
      }
    }
  }
}
