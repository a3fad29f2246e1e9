# Contour graph to occupancy grid

This project models the segment and grid pipeline of the FAR planner's
visualizer, `DPVisualizer::VizContourGraph`. The pass takes the contour
graph's vertices and builds a 2D occupancy grid in these steps:

1. **Segment soup.** Every vertex with both a `front` and a `back` link gives
   two segments: (vertex, front) and (vertex, back).
2. **Canonicalise.** Each pair of points becomes a segment whose endpoints are
   in lexicographic (x, then y) order.
3. **Deduplicate.** Exact duplicates are erased in place. The first occurrence
   of each segment is kept.
4. **Stitch.** The segments are chained greedily into cycles by shared
   endpoints. Each cycle then becomes a point list that repeats its first
   point at the end.
5. **Bound, allocate, rasterise.** The polygons' boxes are combined into one
   box. A zero-filled grid, 1.2 times that box at 0.05 m per cell, is
   allocated. Then every test point of each polygon's box that lies inside the
   polygon marks its cell with 100.

Modules, one per file:

- `Wrappers`: error kinds, `Option`, `Result` and `Outcome`.
- `Geometry`: points, segments, canonical order.
- `Soup`: the contour graph and its segment soup.
- `Canonicalizer`: pairing and deduplication.
- `Cycles`: stitching.
- `Polygons`: point lists.
- `Bounds`: the overall box.
- `Grid`: grid geometry, cell index and the `OccupancyGrid` class.
- `Visualizer`: the whole pass.

The graph is a sequence of optional nodes. The links are indices into that
sequence. A link to an index that holds no node is a dangling reference.
Coordinates are exact reals.

The stitching loop of the source never ends when a scan finds no segment at
the current end, and it reads the first segment of an empty list. The model
checks for progress instead: a scan that places nothing yields
`MalformedContour`, and an empty soup yields `EmptyContour`. Otherwise,
`Cycles.StitchCycles` follows the source's scan exactly:

- after an erase, the scan continues at the next index;
- a segment matched on its second endpoint is flipped;
- the scan stops only after it opens a new cycle;
- a new cycle is seeded with the first remaining segment as it is;
- the loop ends once no segment remains, even if the last cycle is still open.

The rasteriser writes the cell index exactly as the source computes it: one
truncation of the column offset plus `width` times the row offset, both in
real arithmetic (`Grid.CellIndexAsWritten`). That index can name the wrong
cell when a test point does not lie a whole number of cells above the map's
origin; see "## Findings". The corrected index, `Grid.CellIndex`, is defined and
proved separately and is not used by the rasteriser.

The main theorem is the last postcondition of `Cycles.StitchCycles`. If every
endpoint has even degree and no segment is degenerate, stitching succeeds and
its last cycle is closed. All earlier cycles are closed in every case.

## Model

| member | source | states |
|---|---|---|
| Soup.ContourSoup | Far_planner/src/far_planner/src/planner_visualizer.cpp:171-177 | Succeeds exactly when no node has a dangling link. The result is the soup: (vertex, front, vertex, back) for each node with both links, in node order. Otherwise it reports the first node with a dangling link. |
| Soup.SoupPairsAreLinks | Far_planner/src/far_planner/src/planner_visualizer.cpp:171-177 | The soup has even length, and each of its pairs joins a linked vertex to its front or back neighbour. |
| Geometry.Canon | Far_planner/src/far_planner/src/planner_visualizer.cpp:226-235 | The result's endpoints are in lexicographic order, and the result is the segment itself or the segment reversed. |
| Geometry.CanonFixedPoint | Far_planner/src/far_planner/src/planner_visualizer.cpp:226-235 | The swap leaves a segment unchanged exactly when its endpoints are already in order. |
| Geometry.CanonFlip | Far_planner/src/far_planner/src/planner_visualizer.cpp:226-235 | A segment and its reverse canonicalise to the same segment. |
| Canonicalizer.PairSegments | Far_planner/src/far_planner/src/planner_visualizer.cpp:218-239 | Yields floor(n/2) segments in input order. Segment k is the canonical form of points 2k and 2k+1, with its endpoints in lexicographic order. |
| Canonicalizer.PairKeepsEndpoints | Far_planner/src/far_planner/src/planner_visualizer.cpp:226-235 | Pairing keeps the same unordered pair of endpoints. |
| Canonicalizer.RemoveDuplicates | Far_planner/src/far_planner/src/planner_visualizer.cpp:240-261 | The in-place erase loop yields the sequence of first occurrences, `Dedup`. The result has no duplicates and has the same members as the input. |
| Canonicalizer.DedupMembers | Far_planner/src/far_planner/src/planner_visualizer.cpp:240-261 | Every input segment is kept, and nothing else is. |
| Canonicalizer.DedupNoDup | Far_planner/src/far_planner/src/planner_visualizer.cpp:255-258 | No two kept entries are equal. |
| Canonicalizer.DedupOfDistinct | Far_planner/src/far_planner/src/planner_visualizer.cpp:240-261 | A sequence without duplicates is left unchanged. |
| Canonicalizer.DedupIdempotent | Far_planner/src/far_planner/src/planner_visualizer.cpp:240-261 | Deduplicating twice changes nothing. |
| Canonicalizer.DedupSnoc | Far_planner/src/far_planner/src/planner_visualizer.cpp:240-261 | Appending a segment to the input appends it to the result exactly when it is new. So the result keeps the first occurrences in input order. |
| Cycles.StitchCycles | Far_planner/src/far_planner/src/planner_visualizer.cpp:262-317 | Fails with `EmptyContour` exactly on empty input, and otherwise only with `MalformedContour`. On success, every cycle starts with an input segment and is chained, and all but the last are closed. Every input segment is used exactly once, possibly reversed, so the cycles' total length is the input count. Even degrees and no degenerate segment guarantee success with a closed last cycle. |
| Cycles.Scan | Far_planner/src/far_planner/src/planner_visualizer.cpp:270-316 | One pass of the inner `for`. It keeps the stitching invariant. If it finds a match, the remaining list gets shorter. If it finds none, nothing changes, and the input has an odd-degree endpoint or a degenerate segment. |
| Cycles.InitStep | Far_planner/src/far_planner/src/planner_visualizer.cpp:265-267 | The first segment alone as the first cycle, with the rest remaining, satisfies the stitching invariant. |
| Cycles.AppendStep | Far_planner/src/far_planner/src/planner_visualizer.cpp:295-300 | Removing one remaining segment and appending it, flipped or not, at the open cycle's end keeps chaining, sourcing and conservation of segments. |
| Cycles.OpenStep | Far_planner/src/far_planner/src/planner_visualizer.cpp:301-314 | Once the open cycle has closed and segments remain, seeding a new cycle with the first remaining segment, unflipped, restores the invariant. |
| Cycles.ParityRemove | Far_planner/src/far_planner/src/planner_visualizer.cpp:273-300 | Consuming a segment at the current end moves the one odd-degree end of the remaining segments to the segment's other endpoint. |
| Cycles.StuckMalformed | Far_planner/src/far_planner/src/planner_visualizer.cpp:268-317 | A scan that finds nothing at the current end, while segments remain, implies an odd-degree endpoint or a degenerate segment. |
| Cycles.FinishedClosed | Far_planner/src/far_planner/src/planner_visualizer.cpp:268 | When the loop exits with nothing remaining, even degrees and no degenerate segment imply that the last cycle is closed. |
| Polygons.CyclePoints | Far_planner/src/far_planner/src/planner_visualizer.cpp:318-332 | One point list per cycle: the start of each segment, in order, then the cycle's first point again. Its length is the segment count plus one, and its first point equals its last. |
| Polygons.ClosedCycleEdges | Far_planner/src/far_planner/src/planner_visualizer.cpp:321-332 | For a chained, closed cycle, consecutive points of its list are exactly its segments. |
| Bounds.MapBounds | Far_planner/src/far_planner/src/planner_visualizer.cpp:333-359 | The box contains every polygon's box. Each minimum is `DBL_MAX` or some polygon's minimum. Each maximum is at least `DBL_MIN`, the smallest positive double, and is `DBL_MIN` or some polygon's maximum. |
| Grid.Trunc | Far_planner/src/far_planner/src/planner_visualizer.cpp:365-366 | The double-to-int conversion rounds toward zero: the result lies within one unit of the value, on the side of zero. |
| Grid.CellsSpan | Far_planner/src/far_planner/src/planner_visualizer.cpp:365-366 | The truncated cell count of a non-negative span fits in the span, and one more cell would not. |
| Grid.StepsSpec | Far_planner/src/far_planner/src/planner_visualizer.cpp:376-378 | The loop `for (v = lo; v < hi; v += r)` takes step i exactly when i is below `Steps(lo, hi, r)`. |
| Grid.CellIndexAsWritten | Far_planner/src/far_planner/src/planner_visualizer.cpp:384 | The index every write of the rasteriser uses: one truncation toward zero of the column offset `(x - ox)/r` plus `width` times the row offset `(y - oy)/r`, both in real arithmetic, so a fractional row offset spills into the column. Its contract: on a point at or above the origin whose row offset is a whole number of cells, it equals the row-major index `CellIndex`. |
| Grid.CellIndexLocates | Far_planner/src/far_planner/src/planner_visualizer.cpp:384 | The corrected index decodes back to the column and row whose square holds the test point. |
| Grid.RowMixingExample | Far_planner/src/far_planner/src/planner_visualizer.cpp:384 | On a 100-wide grid at 0.05 m with origin (0, 0), a polygon box starting at y = 0.025 has (0, 0.075) as its first test point. The index as written sends it to cell 150 (column 50), whose square does not hold it; the corrected index is 100. |
| Grid.RowWritesMembers | Far_planner/src/far_planner/src/planner_visualizer.cpp:378-387 | A column of the scan writes a cell exactly when one of its test points lies in the polygon and has that cell's as-written index. |
| Grid.ColumnWritesMembers | Far_planner/src/far_planner/src/planner_visualizer.cpp:376-389 | The first n columns of the scan write a cell exactly when some test point in them lies in the polygon and has that index. |
| Grid.PolygonWritesMembers | Far_planner/src/far_planner/src/planner_visualizer.cpp:376-390 | A polygon writes a cell exactly when some test point of its box's scan, with column below `Columns` and row below `Rows`, lies in the polygon and has that cell's as-written index. |
| Grid.AllWritesMembers | Far_planner/src/far_planner/src/planner_visualizer.cpp:374-391 | A cell is written exactly when some polygon's scan writes it. |
| Grid.WritesOrderIndependent | Far_planner/src/far_planner/src/planner_visualizer.cpp:374-391 | The set of written cells does not depend on the order of the polygons. |
| Grid.ColumnHit | Far_planner/src/far_planner/src/planner_visualizer.cpp:376-390 | A write made while scanning one column of a polygon's box is a write of that polygon. |
| Grid.OccupancyGrid.constructor | Far_planner/src/far_planner/src/planner_visualizer.cpp:362-369 | Resolution 0.05 and origin at (xmin, ymin). Width and height are the truncated cell counts of 1.2 times the box. The fresh buffer holds width*height cells, all 0. |
| Grid.OccupancyGrid.MarkPolygons | Far_planner/src/far_planner/src/planner_visualizer.cpp:374-391 | Succeeds exactly when every write is inside the buffer, and otherwise reports an out-of-range written index. Every cell ends as it was or as 100. On success, a cell is 100 exactly when the as-written index of some in-polygon test point names it (see `Grid.PolygonWritesMembers`), and every other cell is unchanged. |
| Grid.OccupancyGrid.MarkPolygon | Far_planner/src/far_planner/src/planner_visualizer.cpp:376-390 | Marking one polygon turns to 100 exactly the cells its scan writes, at the as-written index, on top of the cells already marked. An out-of-range index stops it, and that index is one of its writes. |
| Grid.OccupancyGrid.MarkColumn | Far_planner/src/far_planner/src/planner_visualizer.cpp:378-389 | Marking one column turns to 100 exactly the cells, at the as-written index, of its in-polygon test points, rows from ymin plus one cell. |
| Visualizer.CollectSegments | Far_planner/src/far_planner/src/planner_visualizer.cpp:212-261 | Succeeds exactly when no node has a dangling link. The result is the deduplication of the soup's canonical pairs, and it is empty exactly when the soup has fewer than two points. |
| Visualizer.Rasterise | Far_planner/src/far_planner/src/planner_visualizer.cpp:318-391 | The point lists of the cycles; the box of the running min/max from DBL_MAX and DBL_MIN, so it contains every polygon's box, each minimum is DBL_MAX or some polygon's minimum, and each maximum is at least DBL_MIN and is DBL_MIN or some polygon's maximum; grid metadata at 0.05 m with origin at the box's lower corner and 1.2 times its size. Succeeds exactly when every write is in range. On success, a cell is 100 exactly when some polygon writes it, and 0 otherwise. |
| Visualizer.VizContourGraph | Far_planner/src/far_planner/src/planner_visualizer.cpp:212-391 | `DanglingReference` exactly when some node has a dangling link. `EmptyContour` exactly when the soup has fewer than two points. The segments are the deduplicated canonical pairs of the soup. `MalformedContour` only when some endpoint has odd degree or some segment is degenerate. Once stitched, the cycles are assembled from the segments, and the point lists, the box (each side DBL_MAX, DBL_MIN or some polygon's, maxima at least DBL_MIN) and grid metadata are as in `Rasterise`. On success, a cell is 100 exactly when some in-polygon test point's index names it, and 0 otherwise; `IndexOutOfRange` reports such an index outside the buffer. |

## Left out

- The marker-building parts of `VizContourGraph`, the other visualizer methods and the `publish` calls. They build and send ROS messages and hold no logic to state.
- The debug counters and `std::cout` output of the rasterising loop. They do not affect the grid.
- `MY_Polygon` (far_planner/polygon.h) is not part of this model. Its bounding box and its `inPolygon` test are function parameters of `Bounds.MapBounds`, `Grid.OccupancyGrid.MarkPolygons`, `Visualizer.Rasterise` and `Visualizer.VizContourGraph`. The only assumption is that a box built from a non-empty point list is ordered.
- IEEE-754 arithmetic: coordinates are exact reals. The `*1.2/0.05` sizing, the drift of `x_lo += resolution`, NaN and infinities are not modelled. The loop counts `Grid.Steps` are the exact-arithmetic ones.
- Integer widths are not modelled. Width and height are `uint32` in the message, and `width*height` can overflow there. A negative `int` width is not modelled either; it cannot arise, because a successful stitch yields at least one polygon, so the overall box is ordered.
- Ownership of contour nodes: nodes are a sequence of optional values and links are indices. `NULL` nodes are skipped, as in the source. A node with a missing link contributes nothing, as in the source.
- The cursors `tem_current_count` and `tem_current_count_inner` are not kept. They always name the last segment of the last cycle, which the model reads directly.
- Grid.OccupancyGrid.MarkPolygons: the source writes `grid_map.data[index]` with no bounds check, which is undefined behaviour when out of range. The model checks the index and stops with `IndexOutOfRange`.

Behaviour of the source that the model keeps:

- Stitching a single segment ends at once with one open one-segment cycle; it is not an error.
- The source flips a candidate that matches on its second endpoint, and leaves one that matches on its first endpoint as it is.
- Degenerate segments, whose endpoints coincide, are kept.
- The seed of each new cycle is the first remaining segment.
- The source does not check the grid size: a zero width or height gives an empty buffer.
- The test points are the lattice of the polygon's box starting at (xmin, ymin + resolution), not cell centres. So a box 0.1 m on a side at the origin, at the fixed resolution of 0.05 m, tests only the points (0, 0.05) and (0.05, 0.05).
- `DanglingReference` only arises from the index representation. In the source, a link points to a node object directly.

## Findings

| source | as written | input that shows it | evidently intended | confidence | as-written member | corrected member |
|---|---|---|---|---|---|---|
| Far_planner/src/far_planner/src/planner_visualizer.cpp:384 | `index = trunc((x-ox)/r + width*(y-oy)/r)`: the fractional part of the row offset, times width, leaks into the column | r = 0.05, width 100, origin (0, 0), a polygon whose box starts at y = 0.025, its first test point (0, 0.075): index 150, the cell of column 50, whose square does not hold the point; the point's own cell is 100 | `floor((x-ox)/r) + width*floor((y-oy)/r)`, the cell whose square holds the point | high; proved about the model, not executed | Grid.CellIndexAsWritten, Grid.RowMixingExample | Grid.CellIndex, Grid.CellIndexLocates |
