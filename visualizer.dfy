/** The whole pass from a contour graph to the occupancy grid: collect the
    segment soup, canonicalise and deduplicate it, stitch the cycles, turn
    them into point lists, bound them, allocate the grid and mark it. */
module Visualizer {
  import opened Wrappers
  import opened Geometry
  import opened Soup
  import opened Canonicalizer
  import opened Cycles
  import opened Polygons
  import opened Bounds
  import opened Grid

  /** No node with both links has a link to an index that holds no node. */
  predicate NoDangling(graph: ContourGraph) {
    forall k :: 0 <= k < |graph| ==> !Dangling(graph, k)
  }

  /** The segments of the graph: its soup, paired and canonicalised (returned
      as the ghost `pairs`), then deduplicated. */
  method CollectSegments(graph: ContourGraph) returns (r: Result<seq<Segment>>, ghost pairs: seq<Segment>)
    ensures r.Success? <==> NoDangling(graph)
    ensures r.Failure? ==> r.error.DanglingReference? && r.error.node < |graph| && Dangling(graph, r.error.node)
    ensures r.Success? ==>
              var soup := SoupUpTo(graph, |graph|);
              && |pairs| == |soup| / 2
              && (forall k :: 0 <= k < |pairs| ==> pairs[k] == Canon(Segment(soup[2 * k], soup[2 * k + 1])))
              && r.value == Dedup(pairs)
              && (r.value == [] <==> |soup| < 2)
  {
    pairs := [];
    var soup := ContourSoup(graph);
    if soup.Failure? {
      return Failure(soup.error), pairs;
    }
    var paired := PairSegments(soup.value);
    var unique := RemoveDuplicates(paired);
    pairs := paired;
    assert |unique| == 0 <==> |paired| == 0 by {
      if |paired| > 0 {
        assert paired[0] in unique;
      }
    }
    return Success(unique), pairs;
  }

  /** From stitched cycles to the marked grid: point lists (ghost `polys`),
      the overall box (ghost `box`), the grid allocated over it (metadata in
      ghost `info`), then the marking. */
  method Rasterise(cycles: seq<seq<Segment>>, bboxOf: seq<Point> -> BBox, inPolygon: (seq<Point>, Point) -> bool)
    returns (r: Result<OccupancyGrid>, ghost polys: seq<seq<Point>>, ghost box: BBox, ghost info: GridInfo)
    requires forall pts: seq<Point> :: |pts| > 0 ==> Ordered(bboxOf(pts))
    requires |cycles| > 0 && forall k :: 0 <= k < |cycles| ==> |cycles[k]| > 0
    ensures |polys| == |cycles| && (forall k :: 0 <= k < |cycles| ==> IsPointList(cycles[k], polys[k]))
    ensures forall k :: 0 <= k < |polys| ==>
              var b := bboxOf(polys[k]);
              box.xmin <= b.xmin && box.xmax >= b.xmax && box.ymin <= b.ymin && box.ymax >= b.ymax
    // the box is the running min/max from DBL_MAX and DBL_MIN, so each side is a polygon's
    ensures box.xmax >= DblMin && box.ymax >= DblMin
    ensures box.xmin == DblMax || exists k :: 0 <= k < |polys| && box.xmin == bboxOf(polys[k]).xmin
    ensures box.xmax == DblMin || exists k :: 0 <= k < |polys| && box.xmax == bboxOf(polys[k]).xmax
    ensures box.ymin == DblMax || exists k :: 0 <= k < |polys| && box.ymin == bboxOf(polys[k]).ymin
    ensures box.ymax == DblMin || exists k :: 0 <= k < |polys| && box.ymax == bboxOf(polys[k]).ymax
    ensures && info.resolution == Resolution && info.origin == Point(box.xmin, box.ymin)
            && 0 <= info.width && 0 <= info.height
            && info.width as real * Resolution <= (box.xmax - box.xmin) * Margin < (info.width + 1) as real * Resolution
            && info.height as real * Resolution <= (box.ymax - box.ymin) * Margin < (info.height + 1) as real * Resolution
    ensures r.Success? <==> InRange(AllWrites(info, polys, bboxOf, inPolygon), info.width * info.height)
    ensures r.Success? ==>
              && r.value.info == info && fresh(r.value.data)
              && r.value.data.Length == info.width * info.height
              && forall c :: 0 <= c < r.value.data.Length ==>
                   r.value.data[c] == if c in AllWrites(info, polys, bboxOf, inPolygon) then Occupied else 0
    ensures r.Failure? ==>
              && r.error.IndexOutOfRange?
              && r.error.index in AllWrites(info, polys, bboxOf, inPolygon)
              && !(0 <= r.error.index < info.width * info.height)
  {
    var lists := CyclePoints(cycles);
    var bounds := MapBounds(lists, bboxOf);
    polys, box := lists, bounds;
    assert Ordered(bounds) by {
      assert |lists[0]| > 0;
      assert Ordered(bboxOf(lists[0]));
    }
    var grid := new OccupancyGrid(bounds);
    info := grid.info;
    var marked := grid.MarkPolygons(lists, bboxOf, inPolygon);
    if marked.Fail? {
      return Failure(marked.error), polys, box, info;
    }
    return Success(grid), polys, box, info;
  }

  /** The whole pass. `bboxOf` and `inPolygon` stand for the polygon type's
      bounding box and point-in-polygon test; a box built from a non-empty point
      list is ordered. The ghost results expose the intermediate stages: the
      paired and the deduplicated segments, the cycles, their point lists, the
      overall box and the grid's metadata. */
  method VizContourGraph(graph: ContourGraph, bboxOf: seq<Point> -> BBox,
                         inPolygon: (seq<Point>, Point) -> bool)
    returns (r: Result<OccupancyGrid>, ghost pairs: seq<Segment>, ghost segs: seq<Segment>,
             ghost cycles: seq<seq<Segment>>, ghost polys: seq<seq<Point>>, ghost box: BBox, ghost info: GridInfo)
    requires forall pts: seq<Point> :: |pts| > 0 ==> Ordered(bboxOf(pts))
    ensures (r.Failure? && r.error.DanglingReference?) <==> !NoDangling(graph)
    ensures r == Failure(EmptyContour) <==> NoDangling(graph) && |SoupUpTo(graph, |graph|)| < 2
    // the segments: the soup paired and canonicalised, then deduplicated
    ensures NoDangling(graph) ==>
              var soup := SoupUpTo(graph, |graph|);
              && |pairs| == |soup| / 2
              && (forall k :: 0 <= k < |pairs| ==> pairs[k] == Canon(Segment(soup[2 * k], soup[2 * k + 1])))
              && segs == Dedup(pairs)
    // stitching fails only on input that is not a union of closed cycles
    ensures r == Failure(MalformedContour) ==> segs != [] && !(EvenDegrees(segs) && NoDegenerate(segs))
    // once stitched: the cycles, their point lists, the box and the grid's metadata
    ensures (r.Success? || (r.Failure? && r.error.IndexOutOfRange?)) ==>
              && Assembled(segs, cycles)
              && |polys| == |cycles| && (forall k :: 0 <= k < |cycles| ==> IsPointList(cycles[k], polys[k]))
              && (forall k :: 0 <= k < |polys| ==>
                    var b := bboxOf(polys[k]);
                    box.xmin <= b.xmin && box.xmax >= b.xmax && box.ymin <= b.ymin && box.ymax >= b.ymax)
              && box.xmax >= DblMin && box.ymax >= DblMin
              && (box.xmin == DblMax || exists k :: 0 <= k < |polys| && box.xmin == bboxOf(polys[k]).xmin)
              && (box.xmax == DblMin || exists k :: 0 <= k < |polys| && box.xmax == bboxOf(polys[k]).xmax)
              && (box.ymin == DblMax || exists k :: 0 <= k < |polys| && box.ymin == bboxOf(polys[k]).ymin)
              && (box.ymax == DblMin || exists k :: 0 <= k < |polys| && box.ymax == bboxOf(polys[k]).ymax)
              && info.resolution == Resolution && info.origin == Point(box.xmin, box.ymin)
              && 0 <= info.width && 0 <= info.height
              && info.width as real * Resolution <= (box.xmax - box.xmin) * Margin < (info.width + 1) as real * Resolution
              && info.height as real * Resolution <= (box.ymax - box.ymin) * Margin < (info.height + 1) as real * Resolution
    // marking: a cell is 100 exactly when an in-polygon test point maps to it
    ensures r.Success? ==>
              && r.value.info == info && fresh(r.value.data)
              && r.value.data.Length == info.width * info.height
              && InRange(AllWrites(info, polys, bboxOf, inPolygon), r.value.data.Length)
              && forall c :: 0 <= c < r.value.data.Length ==>
                   r.value.data[c] == if c in AllWrites(info, polys, bboxOf, inPolygon) then Occupied else 0
    ensures r.Failure? && r.error.IndexOutOfRange? ==>
              && r.error.index in AllWrites(info, polys, bboxOf, inPolygon)
              && !(0 <= r.error.index < info.width * info.height)
  {
    segs, cycles, polys := [], [], [];
    box, info := BBox(0.0, 0.0, 0.0, 0.0), GridInfo(Resolution, 0, 0, Point(0.0, 0.0));
    var collected;
    collected, pairs := CollectSegments(graph);
    if collected.Failure? {
      return Failure(collected.error), pairs, segs, cycles, polys, box, info;
    }
    segs := collected.value;
    var stitched := StitchCycles(collected.value);
    if stitched.Failure? {
      return Failure(stitched.error), pairs, segs, cycles, polys, box, info;
    }
    cycles := stitched.value;
    r, polys, box, info := Rasterise(stitched.value, bboxOf, inPolygon);
  }
}
