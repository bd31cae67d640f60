/** The sample domains (problem-spec.c): a triangle with a quadrilateral hole,
    a rectangle with a square hole, and an annulus approximated by two
    concentric n-gons. */
module Domains {
  import opened Wrappers
  import opened ProblemSpec

  function Dirichlet(id: int, x: real, y: real): SpecPoint {
    SpecPoint(id, x, y, BcDirichlet)
  }

  function Boundary(id: int, p1: int, p2: int): SpecSegment {
    SpecSegment(id, p1, p2, BcDirichlet)
  }

  /** Every point and every segment carries the Dirichlet tag. */
  predicate AllDirichlet(spec: Spec) {
    && (forall i :: 0 <= i < |spec.points| ==> spec.points[i].bc == BcDirichlet)
    && (forall i :: 0 <= i < |spec.segments| ==> spec.segments[i].bc == BcDirichlet)
  }

  /** A triangle with corners (-1,0), (1,0), (0,2) around a hole with corners
      (-1/4,1/4), (1/4,1/4), (1/4,1), (-1/4,1); the hole is marked at (0,1/2). */
  function TriangleWithHole(): (spec: Spec)
    ensures WellFormed(spec)
    ensures spec.numPoints == 7 && spec.numSegments == 7 && spec.numHoles == 1
    ensures AllDirichlet(spec)
  {
    var points := [
      Dirichlet(0, -1.0, 0.0), Dirichlet(1, 1.0, 0.0), Dirichlet(2, 0.0, 2.0),
      Dirichlet(3, -0.25, 0.25), Dirichlet(4, 0.25, 0.25),
      Dirichlet(5, 0.25, 1.0), Dirichlet(6, -0.25, 1.0)];
    var segments := [
      Boundary(0, 0, 1), Boundary(1, 1, 2), Boundary(2, 2, 0),
      Boundary(3, 3, 4), Boundary(4, 4, 5), Boundary(5, 5, 6), Boundary(6, 6, 3)];
    Spec(points, segments, Some([SpecHole(0.0, 0.5)]), |points|, |segments|, 1)
  }

  /** The rectangle [0,1] x [0,3] around the square hole [1/4,3/4] x [1/4,3/4];
      the hole is marked at (1/2,1/2). */
  function Square(): (spec: Spec)
    ensures WellFormed(spec)
    ensures spec.numPoints == 8 && spec.numSegments == 8 && spec.numHoles == 1
    ensures AllDirichlet(spec)
    ensures forall i :: 0 <= i < spec.numPoints ==>
              0.0 <= spec.points[i].x <= 1.0 && 0.0 <= spec.points[i].y <= 3.0
  {
    var points := [
      Dirichlet(0, 0.0, 0.0), Dirichlet(1, 1.0, 0.0), Dirichlet(2, 1.0, 3.0), Dirichlet(3, 0.0, 3.0),
      Dirichlet(4, 0.25, 0.25), Dirichlet(5, 0.75, 0.25), Dirichlet(6, 0.75, 0.75), Dirichlet(7, 0.25, 0.75)];
    var segments := [
      Boundary(0, 0, 1), Boundary(1, 1, 2), Boundary(2, 2, 3), Boundary(3, 3, 0),
      Boundary(4, 4, 5), Boundary(5, 5, 6), Boundary(6, 6, 7), Boundary(7, 7, 4)];
    Spec(points, segments, Some([SpecHole(0.5, 0.5)]), |points|, |segments|, 1)
  }

  /** The annulus' segments as the loop writes them: every segment `k` runs
      from point `k` to point `k+1`, including the last of each ring. */
  function UnwrappedRing(n: nat): (segs: seq<SpecSegment>)
    ensures |segs| == 2 * n
  {
    seq(2 * n, k requires 0 <= k < 2 * n => Boundary(k, k, k + 1))
  }

  /** The fix after the loop: the last segment of each ring is pulled back by
      n so that it ends at the ring's first point. */
  function CloseRings(segs: seq<SpecSegment>, n: nat): (closed: seq<SpecSegment>)
    requires n >= 1 && |segs| == 2 * n
    ensures |closed| == 2 * n
  {
    var inner := segs[n - 1].(pointId2 := segs[n - 1].pointId2 - n);
    var outer := segs[2 * n - 1].(pointId2 := segs[2 * n - 1].pointId2 - n);
    segs[n - 1 := inner][2 * n - 1 := outer]
  }

  /** Successor on a ring of n positions. */
  lemma RingSuccessor(i: int, n: int)
    requires 0 <= i < n
    ensures (i + 1) % n == if i + 1 == n then 0 else i + 1
  {
  }

  /** Segment `i` of the inner ring runs from point `i` to the next point
      around, and segment `n+i` of the outer ring likewise from `n+i`. */
  predicate RingSegments(segs: seq<SpecSegment>, n: nat, i: nat)
    requires i < n && |segs| == 2 * n
  {
    && segs[i] == Boundary(i, i, (i + 1) % n)
    && segs[n + i] == Boundary(n + i, n + i, n + (i + 1) % n)
  }

  /** Closing the unwrapped rings gives ring indexing modulo n. */
  lemma ClosedRingsAreModular(n: nat)
    requires n >= 1
    ensures forall i :: 0 <= i < n ==> RingSegments(CloseRings(UnwrappedRing(n), n), n, i)
  {
    var segs := CloseRings(UnwrappedRing(n), n);
    forall i | 0 <= i < n
      ensures RingSegments(segs, n, i)
    {
      RingSuccessor(i, n);
    }
  }

  /** Every segment of the closed rings joins two of the 2n points. */
  lemma ClosedRingsInRange(n: nat)
    requires n >= 1
    ensures forall k :: 0 <= k < 2 * n ==>
              CloseRings(UnwrappedRing(n), n)[k].segmentId == k
              && SegmentInRange(CloseRings(UnwrappedRing(n), n)[k], 2 * n)
  {
    var segs := CloseRings(UnwrappedRing(n), n);
    ClosedRingsAreModular(n);
    forall k | 0 <= k < 2 * n
      ensures segs[k].segmentId == k && SegmentInRange(segs[k], 2 * n)
    {
      if k < n {
        assert RingSegments(segs, n, k);
      } else {
        assert RingSegments(segs, n, k - n);
      }
    }
  }

  /** The 2n ring points, numbered by position and tagged Dirichlet. */
  function RingPoints(n: nat, place: int -> (real, real)): (ps: seq<SpecPoint>)
    ensures |ps| == 2 * n
    ensures forall k :: 0 <= k < 2 * n ==> ps[k].pointId == k && ps[k].bc == BcDirichlet
  {
    var ps := seq(2 * n, k requires 0 <= k < 2 * n => SpecPoint(k, place(k).0, place(k).1, BcDirichlet));
    assert forall k :: 0 <= k < 2 * n ==> ps[k] == SpecPoint(k, place(k).0, place(k).1, BcDirichlet);
    ps
  }

  /** annulus(n): inner ring points 0..n-1 and outer ring points n..2n-1,
      each ring closed by segments to the next point around, one hole marked
      at the centre. The cos/sin placement is the caller's `place`. */
  function Annulus(n: int, place: int -> (real, real)): (spec: Spec)
    requires n >= 1
    ensures WellFormed(spec)
    ensures spec.numPoints == 2 * n && spec.numSegments == 2 * n && spec.numHoles == 1
    ensures AllDirichlet(spec)
    ensures forall i :: 0 <= i < n ==> RingSegments(spec.segments, n, i)
    ensures spec.holes == Some([SpecHole(0.0, 0.0)])
  {
    var points := RingPoints(n, place);
    var segments := CloseRings(UnwrappedRing(n), n);
    ClosedRingsAreModular(n);
    ClosedRingsInRange(n);
    Spec(points, segments, Some([SpecHole(0.0, 0.0)]), 2 * n, 2 * n, 1)
  }
}
