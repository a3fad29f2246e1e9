/** Pairing the point list into canonical segments, and removing exact duplicates. */
module Canonicalizer {
  import opened Geometry

  /** Cuts the flat point list into consecutive pairs and orders each pair's
      endpoints lexicographically; a trailing odd point is dropped. */
  method PairSegments(points: seq<Point>) returns (segs: seq<Segment>)
    ensures |segs| == |points| / 2
    ensures forall k :: 0 <= k < |segs| ==>
              && LexLe(segs[k].a, segs[k].b)
              && segs[k] == Canon(Segment(points[2 * k], points[2 * k + 1]))
  {
    segs := [];
    var first := Point(0.0, 0.0);
    var i := 0;
    while i < |points|
      invariant 0 <= i <= |points|
      invariant |segs| == i / 2
      invariant i % 2 == 1 ==> first == points[i - 1]
      invariant forall k :: 0 <= k < |segs| ==> segs[k] == Canon(Segment(points[2 * k], points[2 * k + 1]))
    {
      if i % 2 == 0 {
        first := points[i];
      } else {
        var a, b := first, points[i];
        if a.x > b.x || (a.x == b.x && a.y > b.y) {
          a, b := b, a;
        }
        segs := segs + [Segment(a, b)];
      }
      i := i + 1;
    }
  }

  /** Canonical segments keep the unordered endpoint pair of the pair they came from. */
  lemma PairKeepsEndpoints(p: Point, q: Point)
    ensures var c := Canon(Segment(p, q));
            (c.a == p && c.b == q) || (c.a == q && c.b == p)
  {
  }

  /** No element occurs twice. */
  predicate NoDup(s: seq<Segment>) {
    forall i, j :: 0 <= i < j < |s| ==> s[i] != s[j]
  }

  /** `t` with every copy of `x` removed, the rest in order. */
  function Without(t: seq<Segment>, x: Segment): (r: seq<Segment>)
    ensures |r| <= |t|
  {
    if t == [] then []
    else Without(t[..|t| - 1], x) + (if t[|t| - 1] == x then [] else [t[|t| - 1]])
  }

  /** `Without` keeps every element other than `x`, and nothing else. */
  lemma {:induction false} WithoutMembers(t: seq<Segment>, x: Segment)
    ensures forall y :: y in Without(t, x) <==> y in t && y != x
  {
    if t != [] {
      var init := t[..|t| - 1];
      WithoutMembers(init, x);
      assert t == init + [t[|t| - 1]];
    }
  }

  /** The first occurrence of every element, in order of first occurrence. */
  function Dedup(s: seq<Segment>): seq<Segment>
    decreases |s|
  {
    if s == [] then [] else [s[0]] + Dedup(Without(s[1..], s[0]))
  }

  /** Deduplication keeps exactly the elements of its input. */
  lemma {:induction false} DedupMembers(s: seq<Segment>)
    ensures forall y :: y in Dedup(s) <==> y in s
    decreases |s|
  {
    if s != [] {
      DedupMembers(Without(s[1..], s[0]));
      WithoutMembers(s[1..], s[0]);
      assert s == [s[0]] + s[1..];
    }
  }

  /** No two entries of the result are equal. */
  lemma {:induction false} DedupNoDup(s: seq<Segment>)
    ensures NoDup(Dedup(s))
    decreases |s|
  {
    if s != [] {
      var rest := Without(s[1..], s[0]);
      DedupNoDup(rest);
      DedupMembers(rest);
      WithoutMembers(s[1..], s[0]);
      assert s[0] !in Dedup(rest);
    }
  }

  /** A sequence without duplicates is left as it is. */
  lemma {:induction false} DedupOfDistinct(s: seq<Segment>)
    requires NoDup(s)
    ensures Dedup(s) == s
    decreases |s|
  {
    if s != [] {
      WithoutAbsent(s[1..], s[0]);
      DedupOfDistinct(s[1..]);
    }
  }

  lemma {:induction false} WithoutAbsent(t: seq<Segment>, x: Segment)
    requires x !in t
    ensures Without(t, x) == t
  {
    if t != [] {
      WithoutAbsent(t[..|t| - 1], x);
      assert t == t[..|t| - 1] + [t[|t| - 1]];
    }
  }

  /** Deduplicating twice changes nothing. */
  lemma DedupIdempotent(s: seq<Segment>)
    ensures Dedup(Dedup(s)) == Dedup(s)
  {
    DedupNoDup(s);
    DedupOfDistinct(Dedup(s));
  }

  /** Read left to right, deduplication keeps an element exactly when it has
      not been seen before: the result is the subsequence of first occurrences. */
  lemma {:induction false} DedupSnoc(s: seq<Segment>, x: Segment)
    ensures Dedup(s + [x]) == if x in s then Dedup(s) else Dedup(s) + [x]
    decreases |s|
  {
    if s == [] {
      DedupCons(x, []);
      assert s + [x] == [x] + [];
    } else {
      var t := s[1..];
      var rest := Without(t, s[0]);
      assert s + [x] == [s[0]] + (t + [x]);
      assert s == [s[0]] + t;
      DedupCons(s[0], t + [x]);
      DedupCons(s[0], t);
      WithoutLast(t, x, s[0]);
      if x == s[0] {
        assert Without(t + [x], s[0]) == rest;
      } else {
        assert Without(t + [x], s[0]) == rest + [x];
        DedupSnoc(rest, x);
        WithoutMembers(t, s[0]);
        assert x in rest <==> x in s;
        var head, done := [s[0]], Dedup(rest);
        assert Dedup(s + [x]) == head + Dedup(rest + [x]);
        assert Dedup(s) == head + done;
        if x !in rest {
          assert head + (done + [x]) == (head + done) + [x];
        }
      }
    }
  }

  lemma WithoutLast(t: seq<Segment>, x: Segment, y: Segment)
    ensures Without(t + [x], y) == Without(t, y) + (if x == y then [] else [x])
  {
    assert (t + [x])[..|t|] == t;
  }

  lemma DedupCons(x: Segment, t: seq<Segment>)
    ensures Dedup([x] + t) == [x] + Dedup(Without(t, x))
  {
    assert ([x] + t)[0] == x && ([x] + t)[1..] == t;
  }

  lemma WithoutSnoc(t: seq<Segment>, k: nat, x: Segment)
    requires k < |t|
    ensures Without(t[..k + 1], x) == Without(t[..k], x) + (if t[k] == x then [] else [t[k]])
  {
    assert t[..k + 1][..k] == t[..k];
  }

  /** Removes exact duplicates in place, keeping each first occurrence: for each
      position `i`, every later entry equal to entry `i` is erased. */
  method RemoveDuplicates(data: seq<Segment>) returns (r: seq<Segment>)
    ensures r == Dedup(data)
    ensures NoDup(r)
    ensures forall y :: y in r <==> y in data
  {
    r := data;
    var i := 0;
    while i < |r|
      invariant 0 <= i <= |r|
      invariant r[..i] + Dedup(r[i..]) == Dedup(data)
      decreases |r| - i
    {
      ghost var r0 := r;
      ghost var x := r0[i];
      ghost var tail := r0[i + 1..];
      ghost var k := 0;
      var h := i + 1;
      while h < |r|
        invariant 0 <= k <= |tail|
        invariant h == i + 1 + |Without(tail[..k], x)|
        invariant r == r0[..i + 1] + Without(tail[..k], x) + tail[k..]
        decreases |r| - h
      {
        WithoutSnoc(tail, k, x);
        EraseStep(r0[..i + 1], Without(tail[..k], x), tail, k);
        if r[i] == r[h] {
          r := r[..h] + r[h + 1..];
        } else {
          h := h + 1;
        }
        k := k + 1;
      }
      StepDone(r0, r, i, tail, k);
      i := i + 1;
    }
    assert r[i..] == [];
    assert r[..i] == r;
    DedupNoDup(data);
    DedupMembers(data);
  }

  /** One step of the inner loop, on `prefix + w + tail[k..]` at position |prefix| + |w|. */
  lemma EraseStep(prefix: seq<Segment>, w: seq<Segment>, tail: seq<Segment>, k: nat)
    requires k < |tail| && |prefix| > 0
    ensures var r := prefix + w + tail[k..];
            var h := |prefix| + |w|;
            && h < |r| && r[h] == tail[k] && r[0..|prefix|] == prefix
            && r[..h] + r[h + 1..] == prefix + w + tail[k + 1..]
            && r == prefix + (w + [tail[k]]) + tail[k + 1..]
  {
    assert tail[k..] == [tail[k]] + tail[k + 1..];
  }

  /** One pass of the outer loop: entry `i` is final and its later copies are gone. */
  lemma StepDone(r0: seq<Segment>, r: seq<Segment>, i: nat, tail: seq<Segment>, k: nat)
    requires i < |r0| && tail == r0[i + 1..] && k == |tail|
    requires r == r0[..i + 1] + Without(tail[..k], r0[i]) + tail[k..]
    ensures i < |r| && r[..i + 1] + Dedup(r[i + 1..]) == r0[..i] + Dedup(r0[i..])
  {
    assert tail[..k] == tail && tail[k..] == [];
    var w := Without(tail, r0[i]);
    assert r == r0[..i + 1] + w;
    DedupCons(r0[i], tail);
    assert r0[i..] == [r0[i]] + tail;
    assert r0[..i + 1] == r0[..i] + [r0[i]];
    assert r[..i + 1] == r0[..i + 1];
    assert r[i + 1..] == w;
  }
}
