/** The occupancy grid: its geometry, the cell each test point marks, and the
    rasterisation of the polygons into the cell buffer. */
module Grid {
  import opened Wrappers
  import opened Geometry
  import opened Bounds

  type PosReal = r: real | r > 0.0 witness 1.0

  /** Newtype for the message's signed byte cells. */
  newtype int8 = x: int | -128 <= x < 128

  /** Cell edge length in metres. */
  const Resolution: PosReal := 0.05

  /** The grid spans this multiple of the map bounds on each axis. */
  const Margin: real := 1.2

  /** The value written into an occupied cell. */
  const Occupied: int8 := 100

  /** Conversion of a double to an integer: rounds toward zero. */
  function Trunc(v: real): (r: int)
    ensures 0.0 <= v ==> 0 <= r && r as real <= v < r as real + 1.0
    ensures v < 0.0 ==> r <= 0 && r as real - 1.0 < v <= r as real
  {
    if v >= 0.0 then v.Floor else -((-v).Floor)
  }

  /** The least integer not below `q`. */
  function Ceil(q: real): (r: int)
    ensures (r - 1) as real < q <= r as real
  {
    -((-q).Floor)
  }

  /** How many times the loop `for (v = lo; v < hi; v += res)` runs, in exact arithmetic. */
  function Steps(lo: real, hi: real, res: PosReal): nat {
    if hi <= lo then 0 else Ceil((hi - lo) / res)
  }

  /** Step `i` of such a loop is taken exactly when `i` is below the step count. */
  lemma StepsSpec(lo: real, hi: real, res: PosReal, i: nat)
    ensures i < Steps(lo, hi, res) <==> lo + i as real * res < hi
  {
    var ir := i as real;
    MulMono(0.0, ir, res);
    if lo < hi {
      var q := (hi - lo) / res;
      assert q * res == hi - lo;
      var c := Ceil(q);
      if i < c {
        assert ir <= (c - 1) as real < q;
        MulMonoStrict(ir, q, res);
        assert ir * res < hi - lo;
      } else {
        assert q <= c as real <= ir;
        MulMono(q, ir, res);
        assert hi - lo <= ir * res;
      }
    }
  }

  /** The message's map metadata: resolution, size in cells, and the world
      position of cell (0, 0). */
  datatype GridInfo = GridInfo(resolution: PosReal, width: int, height: int, origin: Point)

  /** The buffer index the source computes for a test point: one truncation of
      the column offset plus `width` times the row offset, both as reals. On a
      point whose row offset is a whole number of cells it agrees with the
      row-major index `CellIndex`; `RowMixingExample` shows a point where it
      does not. */
  function CellIndexAsWritten(info: GridInfo, p: Point): (r: int)
    ensures && 0 <= info.width && info.origin.x <= p.x && info.origin.y <= p.y
            && (p.y - info.origin.y) / info.resolution == Row(info, p) as real
            ==> r == CellIndex(info, p)
  {
    var u, v := (p.x - info.origin.x) / info.resolution, (p.y - info.origin.y) / info.resolution;
    // the row offset times `width` is a whole number, so truncation leaves the column offset's floor
    assert (info.width as real) * (p.y - info.origin.y) / info.resolution == (info.width as real) * v;
    Trunc(u + (info.width as real) * (p.y - info.origin.y) / info.resolution)
  }

  /** The column and row of the cell containing `p`. */
  function Column(info: GridInfo, p: Point): int {
    ((p.x - info.origin.x) / info.resolution).Floor
  }

  function Row(info: GridInfo, p: Point): int {
    ((p.y - info.origin.y) / info.resolution).Floor
  }

  /** The buffer index of the cell containing `p`, in row-major order. */
  function CellIndex(info: GridInfo, p: Point): int {
    Column(info, p) + info.width * Row(info, p)
  }

  /** Along one axis, the cell numbered by the floor of the offset in cells holds the coordinate. */
  lemma FloorCell(o: real, r: PosReal, t: real)
    ensures o + ((t - o) / r).Floor as real * r <= t < o + (((t - o) / r).Floor + 1) as real * r
  {
    var u := (t - o) / r;
    var c := u.Floor;
    assert u * r == t - o;
    assert c as real <= u < (c + 1) as real;
    var c1 := (c + 1) as real;
    MulMono(c as real, u, r);
    MulMonoStrict(u, c1, r);
    assert t - o < c1 * r;
  }

  lemma MulMono(a: real, b: real, r: PosReal)
    requires a <= b
    ensures a * r <= b * r
  {
    assert b * r - a * r == (b - a) * r;
  }

  lemma MulMonoStrict(a: real, b: real, r: PosReal)
    requires a < b
    ensures a * r < b * r
  {
    assert b * r - a * r == (b - a) * r;
  }

  /** Row-major decoding: an index built from a column inside the width gives
      that column and row back. */
  lemma RowMajor(w: int, col: int, row: int)
    requires 0 <= col < w
    ensures (col + w * row) % w == col
    ensures (col + w * row) / w == row
  {
    var idx := col + w * row;
    var q, m := idx / w, idx % w;
    assert idx == w * q + m && 0 <= m < w;
    assert w * (q - row) == col - m;
    if q - row >= 1 {
      MulAtLeast(w, q - row);
    } else if q - row <= -1 {
      MulAtLeast(w, row - q);
    }
  }

  lemma MulAtLeast(w: int, d: int)
    requires w > 0 && d >= 1
    ensures w * d >= w
  {
    assert w * d == w + w * (d - 1);
  }

  /** The cell that `CellIndex` names is the one whose square holds `p`: its
      column and row decode back from the index, and `p` lies in its square. */
  lemma CellIndexLocates(info: GridInfo, p: Point)
    requires 0 <= Column(info, p) < info.width
    ensures CellIndex(info, p) % info.width == Column(info, p)
    ensures CellIndex(info, p) / info.width == Row(info, p)
    ensures info.origin.x + Column(info, p) as real * info.resolution <= p.x
    ensures p.x < info.origin.x + (Column(info, p) + 1) as real * info.resolution
    ensures info.origin.y + Row(info, p) as real * info.resolution <= p.y
    ensures p.y < info.origin.y + (Row(info, p) + 1) as real * info.resolution
  {
    RowMajor(info.width, Column(info, p), Row(info, p));
    FloorCell(info.origin.x, info.resolution, p.x);
    FloorCell(info.origin.y, info.resolution, p.y);
  }

  /** The source's index mixes rows into columns. On a 100-cell-wide grid at
      `Resolution` with its origin at (0, 0), a polygon whose box starts 0.025
      above the origin has (0, 0.075) as its first test point. That point lies
      in the square of column 0, row 1 (index 100), but the index as written
      is 150, the cell of column 50, whose square does not hold it. */
  lemma RowMixingExample()
    ensures var info := GridInfo(Resolution, 100, 100, Point(0.0, 0.0));
            var b := BBox(0.0, 1.0, 0.025, 1.0);
            var p := Point(ColumnX(b, Resolution, 0), RowY(b, Resolution, 0));
            && p == Point(0.0, 0.075)
            && CellIndexAsWritten(info, p) == 150
            && CellIndex(info, p) == 100
            && !(50.0 * Resolution <= p.x < 51.0 * Resolution)
  {
    var info := GridInfo(Resolution, 100, 100, Point(0.0, 0.0));
    var p := Point(0.0, 0.075);
    assert (p.x - 0.0) / Resolution + (100 as real) * (p.y - 0.0) / Resolution == 150.0;
    assert ((p.x - 0.0) / Resolution).Floor == 0;
    assert ((p.y - 0.0) / Resolution).Floor == 1;
  }

  /** Test point coordinates of the loops over a polygon's box: columns from
      the box's xmin, rows from one resolution above its ymin. */
  function ColumnX(b: BBox, res: PosReal, i: nat): real {
    b.xmin + i as real * res
  }

  function RowY(b: BBox, res: PosReal, j: nat): real {
    b.ymin + res + j as real * res
  }

  function Columns(b: BBox, res: PosReal): nat {
    Steps(b.xmin, b.xmax, res)
  }

  function Rows(b: BBox, res: PosReal): nat {
    Steps(b.ymin + res, b.ymax, res)
  }

  /** The write a test point causes: its cell when it lies in the polygon, else none. */
  function Hit(info: GridInfo, poly: seq<Point>, inPolygon: (seq<Point>, Point) -> bool, p: Point): seq<int> {
    if inPolygon(poly, p) then [CellIndexAsWritten(info, p)] else []
  }

  /** The writes of the first `n` test points of the column at `x`. */
  function RowWrites(info: GridInfo, poly: seq<Point>, b: BBox, inPolygon: (seq<Point>, Point) -> bool,
                     x: real, n: nat): seq<int>
  {
    if n == 0 then []
    else RowWrites(info, poly, b, inPolygon, x, n - 1)
         + Hit(info, poly, inPolygon, Point(x, RowY(b, info.resolution, n - 1)))
  }

  /** The writes of the first `n` columns of the box `b`. */
  function ColumnWrites(info: GridInfo, poly: seq<Point>, b: BBox, inPolygon: (seq<Point>, Point) -> bool,
                        n: nat): seq<int>
  {
    if n == 0 then []
    else ColumnWrites(info, poly, b, inPolygon, n - 1)
         + RowWrites(info, poly, b, inPolygon, ColumnX(b, info.resolution, n - 1), Rows(b, info.resolution))
  }

  /** The writes one polygon causes, scanning its own box. */
  function PolygonWrites(info: GridInfo, poly: seq<Point>, bboxOf: seq<Point> -> BBox,
                         inPolygon: (seq<Point>, Point) -> bool): seq<int>
  {
    ColumnWrites(info, poly, bboxOf(poly), inPolygon, Columns(bboxOf(poly), info.resolution))
  }

  /** Test point `i`, `j` of the scan of the polygon's box `b` lies in the
      polygon, and its buffer index is `c`. */
  predicate Marks(info: GridInfo, poly: seq<Point>, b: BBox, inPolygon: (seq<Point>, Point) -> bool,
                  i: nat, j: nat, c: int)
  {
    var p := Point(ColumnX(b, info.resolution, i), RowY(b, info.resolution, j));
    inPolygon(poly, p) && CellIndexAsWritten(info, p) == c
  }

  /** Column `i` of the scan writes `c` exactly when one of its first `n` test
      points lies in the polygon and has index `c`. */
  lemma {:induction false} RowWritesMembers(info: GridInfo, poly: seq<Point>, b: BBox,
                                            inPolygon: (seq<Point>, Point) -> bool, i: nat, n: nat, c: int)
    ensures c in RowWrites(info, poly, b, inPolygon, ColumnX(b, info.resolution, i), n) <==>
            exists j: nat :: j < n && Marks(info, poly, b, inPolygon, i, j, c)
    decreases n
  {
    if n > 0 {
      RowWritesMembers(info, poly, b, inPolygon, i, n - 1, c);
      var last: nat := n - 1;
      var x := ColumnX(b, info.resolution, i);
      var p := Point(x, RowY(b, info.resolution, last));
      assert RowWrites(info, poly, b, inPolygon, x, n)
          == RowWrites(info, poly, b, inPolygon, x, last) + Hit(info, poly, inPolygon, p);
      assert c in Hit(info, poly, inPolygon, p) <==> Marks(info, poly, b, inPolygon, i, last, c);
      if exists j: nat :: j < n && Marks(info, poly, b, inPolygon, i, j, c) {
        var j: nat :| j < n && Marks(info, poly, b, inPolygon, i, j, c);
        if j < last {
          assert exists j': nat :: j' < last && Marks(info, poly, b, inPolygon, i, j', c);
        }
      }
    }
  }

  /** The first `n` columns of the scan write `c` exactly when one of their
      test points lies in the polygon and has index `c`. */
  lemma {:induction false} ColumnWritesMembers(info: GridInfo, poly: seq<Point>, b: BBox,
                                               inPolygon: (seq<Point>, Point) -> bool, n: nat, c: int)
    ensures c in ColumnWrites(info, poly, b, inPolygon, n) <==>
            exists i: nat, j: nat :: i < n && j < Rows(b, info.resolution) && Marks(info, poly, b, inPolygon, i, j, c)
    decreases n
  {
    if n > 0 {
      var rows, last: nat := Rows(b, info.resolution), n - 1;
      ColumnWritesMembers(info, poly, b, inPolygon, last, c);
      RowWritesMembers(info, poly, b, inPolygon, last, rows, c);
      var before := ColumnWrites(info, poly, b, inPolygon, last);
      var column := RowWrites(info, poly, b, inPolygon, ColumnX(b, info.resolution, last), rows);
      assert ColumnWrites(info, poly, b, inPolygon, n) == before + column;
      assert c in ColumnWrites(info, poly, b, inPolygon, n) <==> c in before || c in column;
      if exists i: nat, j: nat :: i < n && j < rows && Marks(info, poly, b, inPolygon, i, j, c) {
        var i: nat, j: nat :| i < n && j < rows && Marks(info, poly, b, inPolygon, i, j, c);
        if i < last {
          assert exists i': nat, j': nat :: i' < last && j' < rows && Marks(info, poly, b, inPolygon, i', j', c);
        } else {
          assert exists j': nat :: j' < rows && Marks(info, poly, b, inPolygon, last, j', c);
        }
      }
      if c in column {
        var j: nat :| j < rows && Marks(info, poly, b, inPolygon, last, j, c);
        assert last < n;
      }
    }
  }

  /** A polygon writes `c` exactly when some test point of its box's scan (a
      column below `Columns`, a row below `Rows`) lies in it and has index `c`. */
  lemma PolygonWritesMembers(info: GridInfo, poly: seq<Point>, bboxOf: seq<Point> -> BBox,
                             inPolygon: (seq<Point>, Point) -> bool, c: int)
    ensures var b := bboxOf(poly);
            c in PolygonWrites(info, poly, bboxOf, inPolygon) <==>
            exists i: nat, j: nat :: i < Columns(b, info.resolution) && j < Rows(b, info.resolution)
                                  && Marks(info, poly, b, inPolygon, i, j, c)
  {
    ColumnWritesMembers(info, poly, bboxOf(poly), inPolygon, Columns(bboxOf(poly), info.resolution), c);
  }

  /** The writes of all polygons, in order. */
  function AllWrites(info: GridInfo, polys: seq<seq<Point>>, bboxOf: seq<Point> -> BBox,
                     inPolygon: (seq<Point>, Point) -> bool): seq<int>
  {
    if polys == [] then []
    else AllWrites(info, polys[..|polys| - 1], bboxOf, inPolygon)
         + PolygonWrites(info, polys[|polys| - 1], bboxOf, inPolygon)
  }

  /** A cell is written exactly when some polygon writes it. */
  lemma {:induction false} AllWritesMembers(info: GridInfo, polys: seq<seq<Point>>, bboxOf: seq<Point> -> BBox,
                                            inPolygon: (seq<Point>, Point) -> bool, c: int)
    ensures c in AllWrites(info, polys, bboxOf, inPolygon) <==>
            exists poly :: poly in polys && c in PolygonWrites(info, poly, bboxOf, inPolygon)
    decreases |polys|
  {
    if polys != [] {
      var init := polys[..|polys| - 1];
      AllWritesMembers(info, init, bboxOf, inPolygon, c);
      assert polys == init + [polys[|polys| - 1]];
      if exists poly :: poly in polys && c in PolygonWrites(info, poly, bboxOf, inPolygon) {
        var poly :| poly in polys && c in PolygonWrites(info, poly, bboxOf, inPolygon);
        if poly != polys[|polys| - 1] {
          assert poly in init;
        }
      }
    }
  }

  /** The set of written cells does not depend on the order of the polygons. */
  lemma WritesOrderIndependent(info: GridInfo, polys: seq<seq<Point>>, others: seq<seq<Point>>,
                               bboxOf: seq<Point> -> BBox, inPolygon: (seq<Point>, Point) -> bool)
    requires multiset(polys) == multiset(others)
    ensures forall c :: c in AllWrites(info, polys, bboxOf, inPolygon) <==> c in AllWrites(info, others, bboxOf, inPolygon)
  {
    forall c ensures c in AllWrites(info, polys, bboxOf, inPolygon) <==> c in AllWrites(info, others, bboxOf, inPolygon) {
      AllWritesMembers(info, polys, bboxOf, inPolygon, c);
      AllWritesMembers(info, others, bboxOf, inPolygon, c);
      assert forall poly :: poly in polys <==> poly in others by {
        forall poly ensures poly in polys <==> poly in others {
          assert poly in polys <==> poly in multiset(polys);
          assert poly in others <==> poly in multiset(others);
        }
      }
    }
  }

  lemma {:induction false} RowWritesGrow(info: GridInfo, poly: seq<Point>, b: BBox,
                                         inPolygon: (seq<Point>, Point) -> bool, x: real, n: nat, m: nat)
    requires n <= m
    ensures forall w :: w in RowWrites(info, poly, b, inPolygon, x, n) ==> w in RowWrites(info, poly, b, inPolygon, x, m)
    decreases m
  {
    if n < m {
      RowWritesGrow(info, poly, b, inPolygon, x, n, m - 1);
    }
  }

  lemma {:induction false} ColumnWritesGrow(info: GridInfo, poly: seq<Point>, b: BBox,
                                            inPolygon: (seq<Point>, Point) -> bool, n: nat, m: nat)
    requires n <= m
    ensures forall w :: w in ColumnWrites(info, poly, b, inPolygon, n) ==> w in ColumnWrites(info, poly, b, inPolygon, m)
    decreases m
  {
    if n < m {
      ColumnWritesGrow(info, poly, b, inPolygon, n, m - 1);
    }
  }

  /** A write of one column of the polygon's scan is a write of the polygon. */
  lemma ColumnHit(info: GridInfo, poly: seq<Point>, bboxOf: seq<Point> -> BBox,
                  inPolygon: (seq<Point>, Point) -> bool, col: nat, c: int)
    requires col < Columns(bboxOf(poly), info.resolution)
    requires c in RowWrites(info, poly, bboxOf(poly), inPolygon, ColumnX(bboxOf(poly), info.resolution, col),
                            Rows(bboxOf(poly), info.resolution))
    ensures c in PolygonWrites(info, poly, bboxOf, inPolygon)
  {
    var b := bboxOf(poly);
    assert c in ColumnWrites(info, poly, b, inPolygon, col + 1);
    ColumnWritesGrow(info, poly, b, inPolygon, col + 1, Columns(b, info.resolution));
  }

  /** Every write lies in [0, n). */
  predicate InRange(writes: seq<int>, n: int) {
    forall w :: w in writes ==> 0 <= w < n
  }

  /** A box `span` long holds the truncated number of whole cells, and not one more. */
  lemma CellsSpan(span: real, res: PosReal)
    requires 0.0 <= span
    ensures Trunc(span / res) as real * res <= span < (Trunc(span / res) + 1) as real * res
  {
    FloorCell(0.0, res, span);
    assert span - 0.0 == span;
  }

  /** The map message: its metadata and its row-major buffer of cells. */
  class OccupancyGrid {
    const info: GridInfo
    const data: array<int8>

    /** Every cell is `Occupied` if some write names it, else as in `base`. */
    ghost predicate Painted(base: seq<int8>, writes: seq<int>)
      reads data
    {
      && |base| == data.Length
      && InRange(writes, data.Length)
      && forall c :: 0 <= c < data.Length ==> data[c] == if c in writes then Occupied else base[c]
    }

    /** Every cell is as in `base` or `Occupied`. */
    ghost predicate Touched(base: seq<int8>)
      reads data
    {
      |base| == data.Length && forall c :: 0 <= c < data.Length ==> data[c] == base[c] || data[c] == Occupied
    }

    /** A grid over the box `box` enlarged by `Margin`, at `Resolution`, with
        its origin at the box's lower corner and every cell free. */
    constructor (box: BBox)
      requires Ordered(box)
      ensures info.resolution == Resolution && info.origin == Point(box.xmin, box.ymin)
      ensures 0 <= info.width && 0 <= info.height
      ensures info.width as real * Resolution <= (box.xmax - box.xmin) * Margin < (info.width + 1) as real * Resolution
      ensures info.height as real * Resolution <= (box.ymax - box.ymin) * Margin < (info.height + 1) as real * Resolution
      ensures fresh(data) && data.Length == info.width * info.height
      ensures forall c :: 0 <= c < data.Length ==> data[c] == 0
    {
      var spanX, spanY := (box.xmax - box.xmin) * Margin, (box.ymax - box.ymin) * Margin;
      CellsSpan(spanX, Resolution);
      CellsSpan(spanY, Resolution);
      var width, height := Trunc(spanX / Resolution), Trunc(spanY / Resolution);
      info := GridInfo(Resolution, width, height, Point(box.xmin, box.ymin));
      data := new int8[width * height](_ => 0);
    }

    /** Marks the cell of every test point inside a polygon, polygon by
        polygon; a cell index outside the buffer stops the marking. */
    method MarkPolygons(polys: seq<seq<Point>>, bboxOf: seq<Point> -> BBox,
                        inPolygon: (seq<Point>, Point) -> bool) returns (r: Outcome)
      modifies data
      ensures r.Pass? <==> InRange(AllWrites(info, polys, bboxOf, inPolygon), data.Length)
      ensures r.Fail? ==> && r.error.IndexOutOfRange?
                          && r.error.index in AllWrites(info, polys, bboxOf, inPolygon)
                          && !(0 <= r.error.index < data.Length)
      ensures forall c :: 0 <= c < data.Length ==> data[c] == old(data[c]) || data[c] == Occupied
      ensures r.Pass? ==> forall c :: 0 <= c < data.Length ==>
                data[c] == if c in AllWrites(info, polys, bboxOf, inPolygon) then Occupied else old(data[c])
    {
      ghost var base := data[..];
      var k := 0;
      while k < |polys|
        invariant k <= |polys|
        invariant Painted(base, AllWrites(info, polys[..k], bboxOf, inPolygon))
      {
        ghost var prior := AllWrites(info, polys[..k], bboxOf, inPolygon);
        var ok, index := MarkPolygon(polys[k], bboxOf, inPolygon, base, prior);
        assert polys[..k + 1][..k] == polys[..k];
        if !ok {
          assert polys[k] in polys;
          AllWritesMembers(info, polys, bboxOf, inPolygon, index);
          return Fail(IndexOutOfRange(index));
        }
        k := k + 1;
      }
      assert polys[..k] == polys;
      return Pass;
    }

    /** Marks the cells of one polygon's test points, scanning its box in
        columns from xmin. */
    method MarkPolygon(poly: seq<Point>, bboxOf: seq<Point> -> BBox, inPolygon: (seq<Point>, Point) -> bool,
                       ghost base: seq<int8>, ghost prior: seq<int>) returns (ok: bool, index: int)
      requires Painted(base, prior)
      modifies data
      ensures ok ==> Painted(base, prior + PolygonWrites(info, poly, bboxOf, inPolygon))
      ensures !ok ==> Touched(base) && index in PolygonWrites(info, poly, bboxOf, inPolygon)
                      && !(0 <= index < data.Length)
    {
      var b, res := bboxOf(poly), info.resolution;
      ghost var n := Columns(b, res);
      var x, col := b.xmin, 0;
      ghost var written := prior;
      while x < b.xmax
        invariant x == ColumnX(b, res, col) && col <= n
        invariant written == prior + ColumnWrites(info, poly, b, inPolygon, col)
        invariant Painted(base, written)
        decreases n - col
      {
        ColumnStep(b, res, col);
        ok, index := MarkColumn(poly, b, inPolygon, x, base, written);
        if !ok {
          ColumnHit(info, poly, bboxOf, inPolygon, col, index);
          return;
        }
        written := written + RowWrites(info, poly, b, inPolygon, x, Rows(b, res));
        NextColumn(b, res, col);
        x, col := x + res, col + 1;
      }
      ColumnStep(b, res, col);
      return true, 0;
    }

    /** Marks the cells of the test points of the column at `x` that lie in
        the polygon, scanning rows from the box's ymin plus one cell. */
    method MarkColumn(poly: seq<Point>, b: BBox, inPolygon: (seq<Point>, Point) -> bool, x: real,
                      ghost base: seq<int8>, ghost prior: seq<int>) returns (ok: bool, index: int)
      requires Painted(base, prior)
      modifies data
      ensures ok ==> Painted(base, prior + RowWrites(info, poly, b, inPolygon, x, Rows(b, info.resolution)))
      ensures !ok ==> Touched(base) && index in RowWrites(info, poly, b, inPolygon, x, Rows(b, info.resolution))
                      && !(0 <= index < data.Length)
    {
      var res := info.resolution;
      ghost var n := Rows(b, res);
      var y, row := b.ymin + res, 0;
      ghost var written := prior;
      while y < b.ymax
        invariant y == RowY(b, res, row) && row <= n
        invariant written == prior + RowWrites(info, poly, b, inPolygon, x, row)
        invariant Painted(base, written)
        decreases n - row
      {
        RowStep(b, res, row);
        if inPolygon(poly, Point(x, y)) {
          index := CellIndexAsWritten(info, Point(x, y));
          if !(0 <= index < data.Length) {
            RowHit(info, poly, b, inPolygon, x, row, index);
            return false, index;
          }
          Paint(index, base, written);
        }
        written := written + Hit(info, poly, inPolygon, Point(x, y));
        NextRow(b, res, row);
        y, row := y + res, row + 1;
      }
      RowStep(b, res, row);
      return true, 0;
    }

    /** Marks one cell inside the buffer. */
    method Paint(index: int, ghost base: seq<int8>, ghost writes: seq<int>)
      requires Painted(base, writes) && 0 <= index < data.Length
      modifies data
      ensures Painted(base, writes + [index])
    {
      data[index] := Occupied;
    }
  }

  lemma ColumnStep(b: BBox, res: PosReal, col: nat)
    ensures col < Columns(b, res) <==> ColumnX(b, res, col) < b.xmax
  {
    StepsSpec(b.xmin, b.xmax, res, col);
  }

  lemma RowStep(b: BBox, res: PosReal, row: nat)
    ensures row < Rows(b, res) <==> RowY(b, res, row) < b.ymax
  {
    StepsSpec(b.ymin + res, b.ymax, res, row);
  }

  lemma NextRow(b: BBox, res: PosReal, row: nat)
    ensures RowY(b, res, row) + res == RowY(b, res, row + 1)
  {
  }

  /** The cell of an in-polygon test point of a column is one of that column's writes. */
  lemma RowHit(info: GridInfo, poly: seq<Point>, b: BBox, inPolygon: (seq<Point>, Point) -> bool,
               x: real, row: nat, c: int)
    requires row < Rows(b, info.resolution)
    requires inPolygon(poly, Point(x, RowY(b, info.resolution, row)))
    requires c == CellIndexAsWritten(info, Point(x, RowY(b, info.resolution, row)))
    ensures c in RowWrites(info, poly, b, inPolygon, x, Rows(b, info.resolution))
  {
    assert c in RowWrites(info, poly, b, inPolygon, x, row + 1);
    RowWritesGrow(info, poly, b, inPolygon, x, row + 1, Rows(b, info.resolution));
  }

  lemma NextColumn(b: BBox, res: PosReal, col: nat)
    ensures ColumnX(b, res, col) + res == ColumnX(b, res, col + 1)
  {
  }
}
