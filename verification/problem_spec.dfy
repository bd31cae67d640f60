/** The domain description handed to the triangulator: points, boundary
    segments and hole markers, each point and segment tagged with a
    boundary condition (problem-spec.h). */
module ProblemSpec {
  import opened Wrappers

  /** Boundary-condition tags. */
  const BcDirichlet: int := 2
  const BcNeumann: int := 3

  predicate IsBcTag(bc: int) {
    bc == BcDirichlet || bc == BcNeumann
  }

  /** `pointId` is the zero-based index of the point. */
  datatype SpecPoint = SpecPoint(pointId: int, x: real, y: real, bc: int)

  /** `segmentId` is the zero-based index of the segment; its two ends name
      points of the same description. */
  datatype SpecSegment = SpecSegment(segmentId: int, pointId1: int, pointId2: int, bc: int)

  /** Any point strictly inside a hole stands for the hole. */
  datatype SpecHole = SpecHole(x: real, y: real)

  /** The C record with its counts kept beside the arrays; `holes` is `None`
      where the record holds NULL. The PDE callbacks are not modelled. */
  datatype Spec = Spec(
    points: seq<SpecPoint>,
    segments: seq<SpecSegment>,
    holes: Option<seq<SpecHole>>,
    numPoints: int,
    numSegments: int,
    numHoles: int)

  /** The counts describe the arrays: what reading a description needs. */
  predicate Readable(spec: Spec) {
    && spec.numPoints == |spec.points|
    && spec.numSegments == |spec.segments|
    && spec.numHoles >= 0
    && (spec.numHoles > 0 ==> spec.holes.Some? && |spec.holes.value| == spec.numHoles)
  }

  /** Point and segment ids are their positions in the arrays. */
  predicate IdsAreIndices(spec: Spec) {
    && (forall i :: 0 <= i < |spec.points| ==> spec.points[i].pointId == i)
    && (forall i :: 0 <= i < |spec.segments| ==> spec.segments[i].segmentId == i)
  }

  /** The documented shape of a description: readable, ids are positions,
      `holes` is NULL exactly when there are no holes, segment ends name
      existing points, and every tag is Dirichlet or Neumann. */
  predicate WellFormed(spec: Spec) {
    && Readable(spec)
    && IdsAreIndices(spec)
    && (spec.holes.None? <==> spec.numHoles == 0)
    && (forall i :: 0 <= i < |spec.points| ==> IsBcTag(spec.points[i].bc))
    && (forall i :: 0 <= i < |spec.segments| ==> SegmentInRange(spec.segments[i], |spec.points|))
  }

  predicate SegmentInRange(seg: SpecSegment, numPoints: int) {
    && 0 <= seg.pointId1 < numPoints
    && 0 <= seg.pointId2 < numPoints
    && IsBcTag(seg.bc)
  }
}
