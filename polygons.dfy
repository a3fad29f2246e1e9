/** Turning each stitched cycle into the closed point list of a polygon. */
module Polygons {
  import opened Geometry
  import opened Cycles

  /** `pts` lists the start of every segment of `c`, in order, then the first point again. */
  predicate IsPointList(c: seq<Segment>, pts: seq<Point>) {
    && |c| > 0
    && |pts| == |c| + 1
    && (forall h :: 0 <= h < |c| ==> pts[h] == c[h].a)
    && pts[|c|] == c[0].a
  }

  /** Builds one point list per cycle. */
  method CyclePoints(cycles: seq<seq<Segment>>) returns (points: seq<seq<Point>>)
    requires forall k :: 0 <= k < |cycles| ==> |cycles[k]| > 0
    ensures |points| == |cycles|
    ensures forall k :: 0 <= k < |cycles| ==>
              IsPointList(cycles[k], points[k]) && points[k][0] == Last(points[k])
  {
    points := [];
    var i := 0;
    while i < |cycles|
      invariant 0 <= i <= |cycles|
      invariant |points| == i
      invariant forall k :: 0 <= k < i ==> IsPointList(cycles[k], points[k])
    {
      var pts: seq<Point> := [];
      var h := 0;
      while h < |cycles[i]|
        invariant 0 <= h <= |cycles[i]|
        invariant |pts| == h
        invariant forall m :: 0 <= m < h ==> pts[m] == cycles[i][m].a
      {
        pts := pts + [cycles[i][h].a];
        h := h + 1;
      }
      pts := pts + [cycles[i][0].a];
      points := points + [pts];
      i := i + 1;
    }
  }

  /** For a chained, closed cycle the point list's consecutive pairs are exactly
      the cycle's segments: the polygon's edges are the stitched segments. */
  lemma ClosedCycleEdges(c: seq<Segment>, pts: seq<Point>)
    requires Chained(c) && Closed(c) && IsPointList(c, pts)
    ensures forall h :: 0 <= h < |c| ==> c[h] == Segment(pts[h], pts[h + 1])
  {
    forall h | 0 <= h < |c| ensures c[h] == Segment(pts[h], pts[h + 1]) {
      if h < |c| - 1 {
        assert c[h].b == c[h + 1].a;
      }
    }
  }
}
