/** The segment soup: the flat point list that the contour graph's links produce. */
module Soup {
  import opened Wrappers
  import opened Geometry

  /** A contour vertex: its position and the indices of its front and back
      neighbours in the graph, where the source holds node pointers. */
  datatype Node = Node(position: Point, front: Option<nat>, back: Option<nat>)

  /** The graph as the visualiser receives it; a NULL node is `None`. */
  type ContourGraph = seq<Option<Node>>

  /** Node `k` is present and has both a front and a back link. */
  predicate Linked(graph: ContourGraph, k: nat)
    requires k < |graph|
  {
    graph[k].Some? && graph[k].value.front.Some? && graph[k].value.back.Some?
  }

  /** Index `j` names a node that is in the graph. */
  predicate Present(graph: ContourGraph, j: nat) {
    j < |graph| && graph[j].Some?
  }

  /** Node `k` is linked but one of its neighbours is not in the graph. */
  predicate Dangling(graph: ContourGraph, k: nat)
    requires k < |graph|
  {
    Linked(graph, k) &&
    !(Present(graph, graph[k].value.front.value) && Present(graph, graph[k].value.back.value))
  }

  function FrontOf(graph: ContourGraph, k: nat): Point
    requires k < |graph| && Linked(graph, k) && !Dangling(graph, k)
  {
    graph[graph[k].value.front.value].value.position
  }

  function BackOf(graph: ContourGraph, k: nat): Point
    requires k < |graph| && Linked(graph, k) && !Dangling(graph, k)
  {
    graph[graph[k].value.back.value].value.position
  }

  /** What node `k` adds to the point list: (vertex, front), (vertex, back), or nothing. */
  function NodeSoup(graph: ContourGraph, k: nat): seq<Point>
    requires k < |graph| && !Dangling(graph, k)
  {
    if Linked(graph, k) then
      var v := graph[k].value.position;
      [v, FrontOf(graph, k), v, BackOf(graph, k)]
    else []
  }

  /** The point list produced by the first `n` nodes. */
  function SoupUpTo(graph: ContourGraph, n: nat): seq<Point>
    requires n <= |graph|
    requires forall k :: 0 <= k < n ==> !Dangling(graph, k)
  {
    if n == 0 then [] else SoupUpTo(graph, n - 1) + NodeSoup(graph, n - 1)
  }

  /** Points `p`, `q` are node `k`'s position and one of its neighbours' positions. */
  predicate LinkOf(graph: ContourGraph, k: nat, p: Point, q: Point) {
    k < |graph| && Linked(graph, k) && !Dangling(graph, k) &&
    p == graph[k].value.position && (q == FrontOf(graph, k) || q == BackOf(graph, k))
  }

  /** Some node among the first `n` has position `p` and a neighbour at `q`. */
  predicate IsLink(graph: ContourGraph, n: nat, p: Point, q: Point) {
    exists k :: 0 <= k < n && LinkOf(graph, k, p, q)
  }

  /** Builds the contour line list: for every present node with both links, the
      pairs (vertex, front) and (vertex, back); NULL nodes and nodes with a
      missing link add nothing. A link to a node outside the graph is refused. */
  method ContourSoup(graph: ContourGraph) returns (r: Result<seq<Point>>)
    ensures r.Success? <==> forall k :: 0 <= k < |graph| ==> !Dangling(graph, k)
    ensures r.Success? ==> r.value == SoupUpTo(graph, |graph|)
    ensures r.Failure? ==>
              && r.error.DanglingReference? && r.error.node < |graph|
              && Dangling(graph, r.error.node)
              && forall k :: 0 <= k < r.error.node ==> !Dangling(graph, k)
  {
    var points: seq<Point> := [];
    var k := 0;
    while k < |graph|
      invariant 0 <= k <= |graph|
      invariant forall j :: 0 <= j < k ==> !Dangling(graph, j)
      invariant points == SoupUpTo(graph, k)
    {
      if graph[k].Some? {
        var v := graph[k].value;
        if v.front.Some? && v.back.Some? {
          if !(Present(graph, v.front.value) && Present(graph, v.back.value)) {
            assert Dangling(graph, k);
            return Failure(DanglingReference(k));
          }
          points := points + [v.position, graph[v.front.value].value.position];
          points := points + [v.position, graph[v.back.value].value.position];
        }
      }
      k := k + 1;
    }
    return Success(points);
  }

  /** The point list has even length, and each of its consecutive pairs is a
      vertex followed by one of its two neighbours. */
  lemma {:induction false} SoupPairsAreLinks(graph: ContourGraph, n: nat)
    requires n <= |graph|
    requires forall k :: 0 <= k < n ==> !Dangling(graph, k)
    ensures |SoupUpTo(graph, n)| % 2 == 0
    ensures forall j :: 0 <= j < |SoupUpTo(graph, n)| && j % 2 == 0 ==>
              IsLink(graph, n, SoupUpTo(graph, n)[j], SoupUpTo(graph, n)[j + 1])
  {
    if n > 0 {
      SoupPairsAreLinks(graph, n - 1);
      var prev, last := SoupUpTo(graph, n - 1), NodeSoup(graph, n - 1);
      var s := SoupUpTo(graph, n);
      assert s == prev + last;
      forall j | 0 <= j < |s| && j % 2 == 0
        ensures IsLink(graph, n, s[j], s[j + 1])
      {
        if j < |prev| {
          var k :| 0 <= k < n - 1 && LinkOf(graph, k, prev[j], prev[j + 1]);
          assert s[j] == prev[j] && s[j + 1] == prev[j + 1];
          assert LinkOf(graph, k, s[j], s[j + 1]);
        } else {
          assert LinkOf(graph, n - 1, s[j], s[j + 1]);
        }
      }
    }
  }
}
