/** The overall map bounds, combined from the polygons' own bounding boxes. */
module Bounds {
  import opened Geometry

  datatype BBox = BBox(xmin: real, xmax: real, ymin: real, ymax: real)

  /** A box whose minimum does not exceed its maximum on either axis. */
  predicate Ordered(b: BBox) {
    b.xmin <= b.xmax && b.ymin <= b.ymax
  }

  function Pow2(n: nat): (r: real)
    ensures r >= 1.0
  {
    if n == 0 then 1.0 else 2.0 * Pow2(n - 1)
  }

  /** The largest finite double, (2 - 2^-52) * 2^1023: the running minima start here. */
  const DblMax: real := (2.0 - 1.0 / Pow2(52)) * Pow2(1023)

  /** The smallest positive normal double, 2^-1022 (not the most negative one):
      the running maxima start here, so they never fall below it. */
  const DblMin: real := 1.0 / Pow2(1022)

  /** Running minimum and maximum over the polygons' boxes. Each result is the
      extreme of its starting value and the boxes' values on that side. */
  method MapBounds(polys: seq<seq<Point>>, bboxOf: seq<Point> -> BBox) returns (box: BBox)
    ensures box.xmin <= DblMax && box.ymin <= DblMax
    ensures box.xmax >= DblMin && box.ymax >= DblMin
    ensures forall k :: 0 <= k < |polys| ==>
              var b := bboxOf(polys[k]);
              box.xmin <= b.xmin && box.xmax >= b.xmax && box.ymin <= b.ymin && box.ymax >= b.ymax
    ensures box.xmin == DblMax || exists k :: 0 <= k < |polys| && box.xmin == bboxOf(polys[k]).xmin
    ensures box.xmax == DblMin || exists k :: 0 <= k < |polys| && box.xmax == bboxOf(polys[k]).xmax
    ensures box.ymin == DblMax || exists k :: 0 <= k < |polys| && box.ymin == bboxOf(polys[k]).ymin
    ensures box.ymax == DblMin || exists k :: 0 <= k < |polys| && box.ymax == bboxOf(polys[k]).ymax
  {
    var xmin, xmax, ymin, ymax := DblMax, DblMin, DblMax, DblMin;
    var i := 0;
    while i < |polys|
      invariant 0 <= i <= |polys|
      invariant xmin <= DblMax && ymin <= DblMax && xmax >= DblMin && ymax >= DblMin
      invariant forall k :: 0 <= k < i ==>
                  var b := bboxOf(polys[k]);
                  xmin <= b.xmin && xmax >= b.xmax && ymin <= b.ymin && ymax >= b.ymax
      invariant xmin == DblMax || exists k :: 0 <= k < i && xmin == bboxOf(polys[k]).xmin
      invariant xmax == DblMin || exists k :: 0 <= k < i && xmax == bboxOf(polys[k]).xmax
      invariant ymin == DblMax || exists k :: 0 <= k < i && ymin == bboxOf(polys[k]).ymin
      invariant ymax == DblMin || exists k :: 0 <= k < i && ymax == bboxOf(polys[k]).ymax
    {
      var b := bboxOf(polys[i]);
      if b.xmin < xmin {
        xmin := b.xmin;
      }
      if b.xmax > xmax {
        xmax := b.xmax;
      }
      if b.ymin < ymin {
        ymin := b.ymin;
      }
      if b.ymax > ymax {
        ymax := b.ymax;
      }
      i := i + 1;
    }
    box := BBox(xmin, xmax, ymin, ymax);
  }
}
