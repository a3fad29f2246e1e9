/** Greedy stitching of the deduplicated segments into closed cycles. */
module Cycles {
  import opened Wrappers
  import opened Geometry

  function Last<T>(s: seq<T>): T
    requires |s| > 0
  {
    s[|s| - 1]
  }

  /** Each segment of `c` starts where the previous one ends. */
  predicate Chained(c: seq<Segment>) {
    forall m :: 0 <= m < |c| - 1 ==> c[m].b == c[m + 1].a
  }

  /** After at least two segments, `c` has come back to the start of its first segment. */
  predicate Closed(c: seq<Segment>) {
    |c| >= 2 && c[|c| - 1].b == c[0].a
  }

  /** No segment at positions 1 .. upto-1 of `c` ends at the start of `c`. */
  predicate NoEarlyReturn(c: seq<Segment>, upto: int) {
    forall m :: 1 <= m < upto && m < |c| ==> c[m].b != c[0].a
  }

  /** All cycles, one after the other. */
  function Flatten(cycles: seq<seq<Segment>>): seq<Segment> {
    if cycles == [] then [] else Flatten(cycles[..|cycles| - 1]) + Last(cycles)
  }

  function Ind(b: bool): nat {
    if b then 1 else 0
  }

  /** How many endpoints of `seg` are at `p` (2 for a degenerate segment at `p`). */
  function Ends(seg: Segment, p: Point): nat {
    Ind(seg.a == p) + Ind(seg.b == p)
  }

  /** The number of segment endpoints of `s` at `p`. */
  function Deg(s: seq<Segment>, p: Point): nat {
    if s == [] then 0 else Deg(s[..|s| - 1], p) + Ends(Last(s), p)
  }

  /** Every point is the endpoint of an even number of segments. */
  ghost predicate EvenDegrees(s: seq<Segment>) {
    forall p :: Deg(s, p) % 2 == 0
  }

  /** No segment starts and ends at the same point. */
  predicate NoDegenerate(s: seq<Segment>) {
    forall seg :: seg in s ==> seg.a != seg.b
  }

  predicate Touches(seg: Segment, p: Point) {
    seg.a == p || seg.b == p
  }

  /** What a successful run produces: non-empty chained cycles, each seeded with
      an input segment as given, each stopped at its first return to its start,
      all of them closed except possibly the last, and together holding every
      input segment exactly once (up to orientation). */
  ghost predicate Assembled(segs: seq<Segment>, cycles: seq<seq<Segment>>) {
    && |cycles| > 0
    && (forall k :: 0 <= k < |cycles| ==>
          && |cycles[k]| > 0 && Chained(cycles[k]) && cycles[k][0] in segs
          && NoEarlyReturn(cycles[k], |cycles[k]| - 1))
    && (forall k :: 0 <= k < |cycles| - 1 ==> Closed(cycles[k]))
    && (forall seg :: seg in Flatten(cycles) ==> seg in segs || Flip(seg) in segs)
    && multiset(Keys(Flatten(cycles))) == multiset(Keys(segs))
  }

  /** The loop state between steps: `rest` holds the segments not yet placed,
      `cycles` the cycles built so far, the last one being the open one, which
      stays open while segments remain. */
  ghost predicate Assembling(segs: seq<Segment>, rest: seq<Segment>, cycles: seq<seq<Segment>>) {
    Placed(segs, rest, cycles) && (|rest| > 0 ==> !Closed(Last(cycles)))
  }

  /** The loop state right after a segment is placed, before the closure test. */
  ghost predicate Placed(segs: seq<Segment>, rest: seq<Segment>, cycles: seq<seq<Segment>>) {
    && Shaped(segs, cycles)
    && Sourced(segs, rest, cycles)
    && Conserved(segs, rest, cycles)
    && (EvenDegrees(segs) ==> |cycles| > 0 && |Last(cycles)| > 0 && ParityAt(rest, Last(Last(cycles)).b, Last(cycles)[0].a))
  }

  /** Non-empty chained cycles, seeded from the input, stopped at their first
      return; all but the last closed. */
  ghost predicate Shaped(segs: seq<Segment>, cycles: seq<seq<Segment>>) {
    && |cycles| > 0
    && (forall k :: 0 <= k < |cycles| ==>
          && |cycles[k]| > 0 && Chained(cycles[k]) && cycles[k][0] in segs
          && NoEarlyReturn(cycles[k], |cycles[k]| - 1))
    && (forall k :: 0 <= k < |cycles| - 1 ==> Closed(cycles[k]))
  }

  /** Remaining segments are input segments; placed ones are input segments, possibly flipped. */
  ghost predicate Sourced(segs: seq<Segment>, rest: seq<Segment>, cycles: seq<seq<Segment>>) {
    && (forall seg :: seg in rest ==> seg in segs)
    && (forall seg :: seg in Flatten(cycles) ==> seg in segs || Flip(seg) in segs)
  }

  /** Placed and remaining segments together are the input, up to orientation. */
  ghost predicate Conserved(segs: seq<Segment>, rest: seq<Segment>, cycles: seq<seq<Segment>>) {
    multiset(Keys(Flatten(cycles))) + multiset(Keys(rest)) == multiset(Keys(segs))
  }

  /** Every point's degree in `rest` is odd exactly at the open path's two ends
      `e` and `s0` (and even everywhere when they coincide). */
  ghost predicate ParityAt(rest: seq<Segment>, e: Point, s0: Point) {
    forall p :: Deg(rest, p) % 2 == (Ind(p == e) + Ind(p == s0)) % 2
  }

  lemma FlattenSnoc(cycles: seq<seq<Segment>>, c: seq<Segment>)
    ensures Flatten(cycles + [c]) == Flatten(cycles) + c
  {
    assert (cycles + [c])[..|cycles|] == cycles;
  }

  lemma FlattenExtendLast(cycles: seq<seq<Segment>>, seg: Segment)
    requires |cycles| > 0
    ensures Flatten(cycles[..|cycles| - 1] + [Last(cycles) + [seg]]) == Flatten(cycles) + [seg]
  {
    var init, open := cycles[..|cycles| - 1], Last(cycles);
    FlattenSnoc(init, open + [seg]);
    assert Flatten(cycles) == Flatten(init) + open;
    assert Flatten(init) + (open + [seg]) == (Flatten(init) + open) + [seg];
  }

  lemma {:induction false} DegAppend(s: seq<Segment>, t: seq<Segment>, p: Point)
    ensures Deg(s + t, p) == Deg(s, p) + Deg(t, p)
    decreases |t|
  {
    if t == [] {
      assert s + t == s;
    } else {
      assert (s + t)[..|s + t| - 1] == s + t[..|t| - 1];
      DegAppend(s, t[..|t| - 1], p);
    }
  }

  /** Taking out entry `i` lowers each point's degree by that segment's ends there. */
  lemma DegRemove(s: seq<Segment>, i: nat, p: Point)
    requires i < |s|
    ensures Deg(s[..i] + s[i + 1..], p) + Ends(s[i], p) == Deg(s, p)
  {
    assert s == s[..i] + [s[i]] + s[i + 1..];
    DegAppend(s[..i] + [s[i]], s[i + 1..], p);
    DegAppend(s[..i], [s[i]], p);
    DegAppend(s[..i], s[i + 1..], p);
    assert Deg([s[i]], p) == Ends(s[i], p) by {
      assert [s[i]][..0] == [];
    }
  }

  lemma {:induction false} DegZero(s: seq<Segment>, p: Point)
    requires forall seg :: seg in s ==> !Touches(seg, p)
    ensures Deg(s, p) == 0
    decreases |s|
  {
    if s != [] {
      assert Last(s) in s;
      forall seg | seg in s[..|s| - 1] ensures !Touches(seg, p) {
        assert seg in s;
      }
      DegZero(s[..|s| - 1], p);
    }
  }

  lemma KeysRemove(s: seq<Segment>, i: nat)
    requires i < |s|
    ensures multiset(Keys(s[..i] + s[i + 1..])) + multiset{Canon(s[i])} == multiset(Keys(s))
  {
    assert s == s[..i] + [s[i]] + s[i + 1..];
    KeysAppend(s[..i] + [s[i]], s[i + 1..]);
    KeysAppend(s[..i], [s[i]]);
    KeysAppend(s[..i], s[i + 1..]);
  }

  lemma RemoveSubset(s: seq<Segment>, i: nat)
    requires i < |s|
    ensures forall x :: x in s[..i] + s[i + 1..] ==> x in s
  {
    forall x | x in s[..i] + s[i + 1..] ensures x in s {
      if x in s[..i] {
        var j :| 0 <= j < i && s[..i][j] == x;
        assert s[j] == x;
      } else {
        var j :| 0 <= j < |s| - i - 1 && s[i + 1..][j] == x;
        assert s[i + 1 + j] == x;
      }
    }
  }

  /** Removing entry `i`, whose two ends are `e` and `f`, moves the odd end from `e` to `f`. */
  lemma ParityRemove(rest: seq<Segment>, i: nat, e: Point, f: Point, s0: Point)
    requires i < |rest| && ParityAt(rest, e, s0)
    requires (rest[i].a == e && rest[i].b == f) || (rest[i].a == f && rest[i].b == e)
    ensures ParityAt(rest[..i] + rest[i + 1..], f, s0)
  {
    var rest' := rest[..i] + rest[i + 1..];
    forall p ensures Deg(rest', p) % 2 == (Ind(p == f) + Ind(p == s0)) % 2 {
      DegRemove(rest, i, p);
      assert Ends(rest[i], p) == Ind(p == e) + Ind(p == f);
    }
  }

  /** The state after the first segment is taken as the seed of the first cycle. */
  lemma InitStep(segs: seq<Segment>)
    requires |segs| > 0
    ensures Assembling(segs, segs[1..], [[segs[0]]])
  {
    InitShape(segs);
    InitSource(segs);
    InitConserve(segs);
    if EvenDegrees(segs) {
      InitParity(segs);
    }
  }

  lemma InitShape(segs: seq<Segment>)
    requires |segs| > 0
    ensures Shaped(segs, [[segs[0]]])
  {
    assert segs[0] in segs;
  }

  lemma InitSource(segs: seq<Segment>)
    requires |segs| > 0
    ensures Sourced(segs, segs[1..], [[segs[0]]])
  {
    FlattenSnoc([], [segs[0]]);
    RemoveSubset(segs, 0);
    assert segs[..0] + segs[1..] == segs[1..];
    assert segs[0] in segs;
  }

  lemma InitConserve(segs: seq<Segment>)
    requires |segs| > 0
    ensures Conserved(segs, segs[1..], [[segs[0]]])
  {
    FlattenSnoc([], [segs[0]]);
    KeysRemove(segs, 0);
    assert segs[..0] + segs[1..] == segs[1..];
  }

  lemma InitParity(segs: seq<Segment>)
    requires |segs| > 0 && EvenDegrees(segs)
    ensures ParityAt(segs[1..], segs[0].b, segs[0].a)
  {
    EvenParity(segs, segs[0].a);
    ParityRemove(segs, 0, segs[0].a, segs[0].b, segs[0].a);
    assert segs[..0] + segs[1..] == segs[1..];
  }

  lemma EvenParity(s: seq<Segment>, e: Point)
    requires EvenDegrees(s)
    ensures ParityAt(s, e, e)
  {
    forall p ensures Deg(s, p) % 2 == (Ind(p == e) + Ind(p == e)) % 2 {
      assert Deg(s, p) % 2 == 0;
    }
  }

  lemma ShapeAppend(segs: seq<Segment>, cycles: seq<seq<Segment>>, seg: Segment)
    requires Shaped(segs, cycles) && seg.a == Last(Last(cycles)).b
    requires !Closed(Last(cycles))
    ensures Shaped(segs, cycles[..|cycles| - 1] + [Last(cycles) + [seg]])
  {
    var open := Last(cycles);
    var cycles' := cycles[..|cycles| - 1] + [open + [seg]];
    var n := |cycles|;
    assert cycles'[n - 1] == open + [seg];
    forall k | 0 <= k < n - 1 ensures cycles'[k] == cycles[k] { }
    assert Chained(open + [seg]);
    assert NoEarlyReturn(open + [seg], |open|);
  }

  lemma SourceAppend(segs: seq<Segment>, rest: seq<Segment>, cycles: seq<seq<Segment>>, i: nat, seg: Segment)
    requires Sourced(segs, rest, cycles) && |cycles| > 0
    requires i < |rest| && (seg == rest[i] || seg == Flip(rest[i]))
    ensures Sourced(segs, rest[..i] + rest[i + 1..], cycles[..|cycles| - 1] + [Last(cycles) + [seg]])
  {
    FlattenExtendLast(cycles, seg);
    RemoveSubset(rest, i);
    assert rest[i] in rest;
  }

  lemma ConserveAppend(segs: seq<Segment>, rest: seq<Segment>, cycles: seq<seq<Segment>>, i: nat, seg: Segment)
    requires Conserved(segs, rest, cycles) && |cycles| > 0
    requires i < |rest| && (seg == rest[i] || seg == Flip(rest[i]))
    ensures Conserved(segs, rest[..i] + rest[i + 1..], cycles[..|cycles| - 1] + [Last(cycles) + [seg]])
  {
    FlattenExtendLast(cycles, seg);
    KeysRemove(rest, i);
    CanonFlip(rest[i]);
    KeysAppend(Flatten(cycles), [seg]);
  }

  /** Placing `seg`, entry `i` of `rest` oriented so that it starts at the open
      cycle's current end, keeps everything but the closure test. */
  lemma AppendStep(segs: seq<Segment>, rest: seq<Segment>, cycles: seq<seq<Segment>>, i: nat, seg: Segment)
    requires Assembling(segs, rest, cycles)
    requires i < |rest| && (seg == rest[i] || seg == Flip(rest[i]))
    requires seg.a == Last(Last(cycles)).b
    ensures Placed(segs, rest[..i] + rest[i + 1..], cycles[..|cycles| - 1] + [Last(cycles) + [seg]])
  {
    var cycles' := cycles[..|cycles| - 1] + [Last(cycles) + [seg]];
    ShapeAppend(segs, cycles, seg);
    SourceAppend(segs, rest, cycles, i, seg);
    ConserveAppend(segs, rest, cycles, i, seg);
    if EvenDegrees(segs) {
      ParityRemove(rest, i, seg.a, seg.b, Last(cycles)[0].a);
      assert Last(cycles')[0] == Last(cycles)[0];
    }
  }

  /** After a cycle closes with segments left, the next cycle is seeded with
      the first remaining segment, as it is. */
  lemma OpenStep(segs: seq<Segment>, rest: seq<Segment>, cycles: seq<seq<Segment>>)
    requires Placed(segs, rest, cycles) && Closed(Last(cycles)) && |rest| > 0
    ensures Assembling(segs, rest[1..], cycles + [[rest[0]]])
  {
    var cycles' := cycles + [[rest[0]]];
    assert rest[..0] + rest[1..] == rest[1..];
    ShapeOpen(segs, rest, cycles);
    SourceOpen(segs, rest, cycles);
    ConserveOpen(segs, rest, cycles);
    if EvenDegrees(segs) {
      ParityOpen(rest, Last(Last(cycles)).b);
    }
  }

  lemma ShapeOpen(segs: seq<Segment>, rest: seq<Segment>, cycles: seq<seq<Segment>>)
    requires Shaped(segs, cycles) && Closed(Last(cycles)) && |rest| > 0
    requires forall seg :: seg in rest ==> seg in segs
    ensures Shaped(segs, cycles + [[rest[0]]])
  {
    var cycles' := cycles + [[rest[0]]];
    assert rest[0] in rest;
    assert forall k :: 0 <= k < |cycles| ==> cycles'[k] == cycles[k];
  }

  lemma SourceOpen(segs: seq<Segment>, rest: seq<Segment>, cycles: seq<seq<Segment>>)
    requires Sourced(segs, rest, cycles) && |rest| > 0
    ensures Sourced(segs, rest[1..], cycles + [[rest[0]]])
  {
    FlattenSnoc(cycles, [rest[0]]);
    RemoveSubset(rest, 0);
    assert rest[..0] + rest[1..] == rest[1..];
    assert rest[0] in rest;
  }

  lemma ConserveOpen(segs: seq<Segment>, rest: seq<Segment>, cycles: seq<seq<Segment>>)
    requires Conserved(segs, rest, cycles) && |rest| > 0
    ensures Conserved(segs, rest[1..], cycles + [[rest[0]]])
  {
    FlattenSnoc(cycles, [rest[0]]);
    KeysRemove(rest, 0);
    assert rest[..0] + rest[1..] == rest[1..];
    KeysAppend(Flatten(cycles), [rest[0]]);
  }

  lemma ParityOpen(rest: seq<Segment>, e: Point)
    requires ParityAt(rest, e, e) && |rest| > 0
    ensures ParityAt(rest[1..], rest[0].b, rest[0].a)
  {
    forall p ensures Deg(rest, p) % 2 == (Ind(p == rest[0].a) + Ind(p == rest[0].a)) % 2 {
      assert Deg(rest, p) % 2 == (Ind(p == e) + Ind(p == e)) % 2;
    }
    ParityRemove(rest, 0, rest[0].a, rest[0].b, rest[0].a);
    assert rest[..0] + rest[1..] == rest[1..];
  }

  /** With even degrees, the open path's ends coincide once no segment at its current end remains. */
  lemma EndsMeet(segs: seq<Segment>, rest: seq<Segment>, cycles: seq<seq<Segment>>)
    requires Placed(segs, rest, cycles) && EvenDegrees(segs)
    requires forall seg :: seg in rest ==> !Touches(seg, Last(Last(cycles)).b)
    ensures Last(Last(cycles)).b == Last(cycles)[0].a
  {
    var e := Last(Last(cycles)).b;
    DegZero(rest, e);
    assert Deg(rest, e) % 2 == (1 + Ind(e == Last(cycles)[0].a)) % 2;
  }

  /** A scan that finds nothing with segments left is only possible when some
      point has odd degree or some segment is degenerate. */
  lemma StuckMalformed(segs: seq<Segment>, rest: seq<Segment>, cycles: seq<seq<Segment>>)
    requires Assembling(segs, rest, cycles) && |rest| > 0
    requires forall seg :: seg in rest ==> !Touches(seg, Last(Last(cycles)).b)
    ensures EvenDegrees(segs) ==> !NoDegenerate(segs)
  {
    if EvenDegrees(segs) {
      EndsMeet(segs, rest, cycles);
      var open := Last(cycles);
      assert |open| == 1;
      assert open[0] in segs && open[0].a == open[0].b;
    }
  }

  /** With even degrees and no degenerate segment, the last cycle is closed too. */
  lemma FinishedClosed(segs: seq<Segment>, cycles: seq<seq<Segment>>)
    requires Assembling(segs, [], cycles)
    ensures EvenDegrees(segs) && NoDegenerate(segs) ==> Closed(Last(cycles))
  {
    if EvenDegrees(segs) && NoDegenerate(segs) {
      EndsMeet(segs, [], cycles);
      var open := Last(cycles);
      assert open[0] in segs;
    }
  }

  /** Stitches the deduplicated segments into cycles. The first segment seeds
      the first cycle; then scans over the remaining segments run until none
      remains. The run stops once no segment remains, even if the last cycle is
      still open. An empty input, and a scan that places nothing (on which the
      loop would otherwise repeat the same scan for ever), are failures.
      Ties are broken by position: a scan goes through the remaining segments in
      list order and takes each one that touches the current end when it
      reaches it, and a new cycle is seeded with the first remaining segment. `Assembled` only records that each seed is an
      input segment; these choices are kept step by step by `Scan` and
      `OpenStep`. */
  method StitchCycles(segs: seq<Segment>) returns (r: Result<seq<seq<Segment>>>)
    ensures r == Failure(EmptyContour) <==> segs == []
    ensures r.Failure? ==> r.error == EmptyContour || r.error == MalformedContour
    ensures r.Success? ==> Assembled(segs, r.value)
    ensures r.Success? ==> |Flatten(r.value)| == |segs|
    ensures segs != [] && EvenDegrees(segs) && NoDegenerate(segs) ==> r.Success? && Closed(Last(r.value))
  {
    if |segs| == 0 {
      return Failure(EmptyContour);
    }
    var rest := segs[1..];
    var cycles := [[segs[0]]];
    InitStep(segs);
    while |rest| != 0
      invariant Assembling(segs, rest, cycles)
      decreases |rest|
    {
      var found;
      rest, cycles, found := Scan(segs, rest, cycles);
      if !found {
        return Failure(MalformedContour);
      }
    }
    FinishedClosed(segs, cycles);
    assert |multiset(Keys(Flatten(cycles)))| == |multiset(Keys(segs))|;
    return Success(cycles);
  }

  /** One scan over the remaining segments. Each segment that starts or ends at
      the open cycle's current end (the end of its last segment) is removed and
      appended to that cycle, flipped when it matched on its second endpoint,
      and the scan goes on with the next index against the new end. When the
      appended segment ends at the cycle's start and segments remain, the first
      remaining segment, as it is, seeds a new cycle and the scan stops. */
  method Scan(ghost segs: seq<Segment>, rest: seq<Segment>, cycles: seq<seq<Segment>>)
    returns (rest': seq<Segment>, cycles': seq<seq<Segment>>, found: bool)
    requires Assembling(segs, rest, cycles) && |rest| > 0
    ensures Assembling(segs, rest', cycles')
    ensures found ==> |rest'| < |rest|
    ensures !found ==> rest' == rest && cycles' == cycles
    ensures !found ==> EvenDegrees(segs) ==> !NoDegenerate(segs)
  {
    rest', cycles', found := rest, cycles, false;
    var i := 0;
    while i < |rest'|
      invariant 0 <= i <= |rest'| + 1
      invariant Assembling(segs, rest', cycles')
      invariant found ==> |rest'| < |rest|
      invariant !found ==> rest' == rest && cycles' == cycles && i <= |rest|
      invariant !found ==> forall j :: 0 <= j < i ==> !Touches(rest[j], Last(Last(cycles)).b)
      decreases |rest'| + 1 - i
    {
      var open := Last(cycles');
      var end := Last(open).b;
      var matched := false;
      var seg := rest'[i];
      if end == rest'[i].a {
        matched := true;
      }
      if end == rest'[i].b {
        matched := true;
        seg := Flip(rest'[i]);
      }
      if matched {
        AppendStep(segs, rest', cycles', i, seg);
        rest' := rest'[..i] + rest'[i + 1..];
        cycles' := cycles'[..|cycles'| - 1] + [open + [seg]];
        found := true;
        if seg.b == open[0].a && |rest'| != 0 {
          OpenStep(segs, rest', cycles');
          cycles' := cycles' + [[rest'[0]]];
          rest' := rest'[1..];
          break;
        }
      }
      i := i + 1;
    }
    if !found {
      forall seg | seg in rest ensures !Touches(seg, Last(Last(cycles)).b) {
        var j :| 0 <= j < |rest| && rest[j] == seg;
      }
      StuckMalformed(segs, rest, cycles);
    }
  }
}
