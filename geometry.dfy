/** Points and segments of the projected contour graph. */
module Geometry {

  /** A vertex position in the plane (the third coordinate is dropped). */
  datatype Point = Point(x: real, y: real)

  /** A segment stored as the four numbers [x0, y0, x1, y1]: start `a`, end `b`. */
  datatype Segment = Segment(a: Point, b: Point)

  /** Lexicographic order on points: x first, then y. */
  predicate LexLe(p: Point, q: Point) {
    p.x < q.x || (p.x == q.x && p.y <= q.y)
  }

  /** The pairing loop's swap test: the first endpoint comes after the second. */
  predicate OutOfOrder(s: Segment) {
    s.a.x > s.b.x || (s.a.x == s.b.x && s.a.y > s.b.y)
  }

  function Flip(s: Segment): Segment {
    Segment(s.b, s.a)
  }

  /** The segment with its endpoints in lexicographic order. */
  function Canon(s: Segment): (r: Segment)
    ensures LexLe(r.a, r.b)
    ensures r == s || r == Flip(s)
  {
    if OutOfOrder(s) then Flip(s) else s
  }

  /** A segment is canonical exactly when its endpoints are already in order. */
  lemma CanonFixedPoint(s: Segment)
    ensures Canon(s) == s <==> LexLe(s.a, s.b)
  {
    if LexLe(s.a, s.b) {
      assert !OutOfOrder(s);
    }
  }

  /** Both orientations of one segment have the same canonical form. */
  lemma CanonFlip(s: Segment)
    ensures Canon(Flip(s)) == Canon(s)
  {
  }

  /** The canonical form of every segment of `s`, in order: the key under which
      two segments with the same endpoint pair compare equal. */
  function Keys(s: seq<Segment>): seq<Segment> {
    seq(|s|, k requires 0 <= k < |s| => Canon(s[k]))
  }

  lemma KeysAppend(s: seq<Segment>, t: seq<Segment>)
    ensures Keys(s + t) == Keys(s) + Keys(t)
  {
  }
}
