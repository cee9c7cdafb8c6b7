/**
 The ground truth: the Go reference builds the graph from the edge list and walks it. Every
 traversal is tied to the raw edge list here, so that agreeing with it means something.
 */
module Reference {
  import opened Sets
  import opened Digraph
  import opened Bytes
  import opened EdgeList
  import opened Library
  import opened Csr
  import opened CountThenFill
  import opened Levels
  import opened RowWalk
  import opened Stamping
  import opened Pushing
  import opened Options
  import opened Plans

  /** The distinct identifiers, ascending. They are collected from a map, so in any order. */
  method DistinctIds(edges: seq<u32>) returns (ids: seq<int>)
    ensures Increasing(ids) && Elems(ids) == Elems<int>(edges)
  {
    var seen := CollectIds(edges);
    var unsorted := ListInAnyOrder(seen);
    ids := Sort(unsorted);
    SortedDistinct(unsorted, ids);
  }

  /** Build: map identifiers to dense indexes, count each row, then fill the rows. */
  method Build(edges: seq<u32>) returns (g: Graph)
    requires |edges| % 2 == 0 && |Nodes(Pairs(edges))| <= 0x8000_0000
    ensures IsCsr(g, Pairs(edges))
  {
    NodesOfPairs(edges);
    var ids := DistinctIds(edges);
    IncreasingSize(ids);
    var index := IndexMap(ids);
    var lookup := id requires id in index => index[id];
    var offset := CountRows(edges, ids, lookup);
    var target := FillRows(edges, ids, lookup, offset);
    g := Graph(ids, offset[..], target[..]);
  }

  // ----- Traversals over dense indexes

  /** The index of an identifier, or -1. */
  method Index(g: Graph, id: int) returns (i: int)
    requires Increasing(g.ids) && |g.ids| <= 0x8000_0000
    ensures id in g.ids ==> 0 <= i < |g.ids| && g.ids[i] == id
    ensures id !in g.ids ==> i == -1
  {
    var at := LowerBound(g.ids, id);
    if at < |g.ids| && g.ids[at] == id {
      assert Int32(at) == at;
      return Int32(at);
    }
    return -1;
  }

  /** The distinct nodes within two hops, not counting the seed. */
  method TwoHop(g: Graph, from: int, mark: Stamps, ghost es: seq<Edge>) returns (n: int)
    requires AnswersForAll(g, es) && Ready(g, mark) && 0 <= from < |g.ids|
    modifies mark, mark.seen
    ensures Ready(g, mark)
    ensures n == TwoHopCount(es, g.ids[from])
  {
    hide Ball, Succ, Hops, Reach, Radius, TwoHopCount;
    mark.Reset();
    var _ := mark.Mark(from);
    var ones := g.Neighbours(from);
    n := CountRow(ones, mark, 0);
    n := CountBeyond(g, ones, mark, n);
    TwoHopsMarked(g, from, mark.Marked());
    assert AnswersFor(g, es, from);
  }

  /** The shortest path length, or -1. */
  method ShortestPath(g: Graph, from: int, to: int, mark: Stamps, ghost es: seq<Edge>) returns (hops: int)
    requires AnswersForAll(g, es) && Ready(g, mark) && 0 <= from < |g.ids| && 0 <= to < |g.ids|
    modifies mark, mark.seen
    ensures Ready(g, mark)
    ensures hops == HopCount(es, g.ids[from], g.ids[to])
  {
    hide Ball, Hops, HopCount;
    ghost var arcs := g.Arcs();
    assert AnswersFor(g, es, from) && SameHops(g, es, from, to);
    FirstLevel(arcs, from);
    if from == to {
      HopsAt(arcs, from, to, 0);
      return 0;
    }
    mark.Reset();
    var _ := mark.Mark(from);
    var frontier := [from];
    var depth := 1;
    ghost var d := 0;
    while |frontier| > 0
      invariant Ready(g, mark) && d >= 0 && depth == d + 1
      invariant IsFrontier(arcs, from, d, frontier)
      invariant mark.Marked() == Ball(arcs, from, d) && to !in mark.Marked()
      decreases Universe(arcs, from) - Ball(arcs, from, d), |frontier|
    {
      var found, next := SearchLevel(g, from, to, d, frontier, [], mark);
      if found {
        return depth;
      }
      LevelProgress(arcs, from, d, next);
      frontier := next;
      depth := depth + 1;
      d := d + 1;
    }
    FrontierEmpty(arcs, from, d);
    return -1;
  }

  /** The size of the reachable set and how deep it goes. */
  method Traverse(g: Graph, from: int, mark: Stamps, ghost es: seq<Edge>) returns (reached: int, depth: int)
    requires AnswersForAll(g, es) && Ready(g, mark) && 0 <= from < |g.ids|
    modifies mark, mark.seen
    ensures Ready(g, mark)
    ensures reached == Reached(es, g.ids[from]) && depth == Depth(es, g.ids[from])
  {
    hide Ball, Radius;
    ghost var arcs := g.Arcs();
    FirstLevel(arcs, from);
    mark.Reset();
    var _ := mark.Mark(from);
    var frontier := [from];
    reached, depth := 1, 0;
    ghost var d := 0;
    while |frontier| > 0
      invariant Ready(g, mark) && d >= 0
      invariant IsFrontier(arcs, from, d, frontier) && mark.Marked() == Ball(arcs, from, d)
      invariant reached == |mark.Marked()| && depth == if frontier == [] then d - 1 else d
      invariant d > 0 ==> Ball(arcs, from, d - 1) != Ball(arcs, from, d - 2)
      decreases Universe(arcs, from) - Ball(arcs, from, d), |frontier|
    {
      FrontierNotEmpty(arcs, from, d, frontier);
      var next;
      next, reached := ExpandLevel(g, from, d, frontier, [], mark, reached);
      if |next| > 0 {
        depth := depth + 1;
      }
      LevelProgress(arcs, from, d, next);
      frontier := next;
      d := d + 1;
    }
    FrontierEmpty(arcs, from, d);
    RadiusAtEnd(arcs, from, d);
    assert AnswersFor(g, es, from);
  }

  // ----- The answers file

  /** `dense` holds the indexes of the seeds. */
  ghost predicate IsDense(dense: seq<int>, g: Graph, seeds: seq<int>) {
    |dense| == |seeds| && forall i :: 0 <= i < |seeds| ==> 0 <= dense[i] < |g.ids| && g.ids[dense[i]] == seeds[i]
  }

  datatype AnswerError = BadPlan(why: PlanError) | TooFewSeeds | NotInGraph(seed: int)

  ghost predicate IsFirstMissing(g: Graph, seeds: seq<int>, i: nat) {
    i < |seeds| && seeds[i] !in g.ids && forall j :: 0 <= j < i ==> seeds[j] in g.ids
  }

  method DenseSeeds(g: Graph, seeds: seq<u32>) returns (r: Result<seq<int>, AnswerError>)
    requires Increasing(g.ids) && |g.ids| <= 0x8000_0000
    ensures r.Ok? <==> forall i :: 0 <= i < |seeds| ==> seeds[i] in g.ids
    ensures r.Ok? ==> IsDense(r.value, g, seeds)
    ensures r.Err? ==> exists i :: 0 <= i < |seeds| && r.error == NotInGraph(seeds[i]) && IsFirstMissing(g, seeds, i)
  {
    var dense: seq<int> := [];
    for i := 0 to |seeds|
      invariant |dense| == i
      invariant forall j :: 0 <= j < i ==> 0 <= dense[j] < |g.ids| && g.ids[dense[j]] == seeds[j]
    {
      var at := Index(g, seeds[i]);
      if at < 0 {
        return Err(NotInGraph(seeds[i]));
      }
      dense := dense + [at];
    }
    return Ok(dense);
  }

  method DegreeAt(g: Graph, i: int, ghost es: seq<Edge>) returns (degree: int)
    requires AnswersForAll(g, es) && 0 <= i < |g.ids|
    ensures degree == Degree(es, g.ids[i])
  {
    assert AnswersFor(g, es, i);
    degree := |g.Neighbours(i)|;
  }

  method DegreesOf(g: Graph, dense: seq<int>, n: nat, ghost es: seq<Edge>, ghost seeds: seq<int>)
    returns (out: seq<int>)
    requires AnswersForAll(g, es) && IsDense(dense, g, seeds) && n <= |seeds|
    ensures out == Listed(n, Degrees(es, seeds))
  {
    out := [];
    for i := 0 to n
      invariant out == Listed(i, Degrees(es, seeds))
    {
      var degree := DegreeAt(g, dense[i], es);
      out := out + [degree];
    }
  }

  method TwoHopsOf(g: Graph, dense: seq<int>, n: nat, mark: Stamps, ghost es: seq<Edge>, ghost seeds: seq<int>)
    returns (out: seq<int>)
    requires AnswersForAll(g, es) && Ready(g, mark) && IsDense(dense, g, seeds) && n <= |seeds|
    modifies mark, mark.seen
    ensures Ready(g, mark) && out == Listed(n, TwoHops(es, seeds))
  {
    hide TwoHopCount;
    out := [];
    for i := 0 to n
      invariant Ready(g, mark) && out == Listed(i, TwoHops(es, seeds))
    {
      var count := TwoHop(g, dense[i], mark, es);
      out := out + [count];
    }
  }

  method PathsOf(g: Graph, dense: seq<int>, n: nat, mark: Stamps, ghost es: seq<Edge>, ghost seeds: seq<int>)
    returns (out: seq<int>)
    requires AnswersForAll(g, es) && Ready(g, mark) && IsDense(dense, g, seeds) && 2 * n <= |seeds|
    modifies mark, mark.seen
    ensures Ready(g, mark) && out == Listed(n, Paths(es, seeds))
  {
    hide HopCount;
    out := [];
    for i := 0 to n
      invariant Ready(g, mark) && out == Listed(i, Paths(es, seeds))
    {
      var from, to := dense[2 * i], dense[2 * i + 1];
      var hops := ShortestPath(g, from, to, mark, es);
      assert g.ids[from] == seeds[2 * i] && g.ids[to] == seeds[2 * i + 1];
      out := out + [hops];
    }
  }

  method TraversalsOf(g: Graph, dense: seq<int>, n: nat, mark: Stamps, ghost es: seq<Edge>, ghost seeds: seq<int>)
    returns (out: seq<int>)
    requires AnswersForAll(g, es) && Ready(g, mark) && IsDense(dense, g, seeds) && n <= |seeds|
    modifies mark, mark.seen
    ensures Ready(g, mark) && out == ListedPairs(n, Traversals(es, seeds))
  {
    hide Reached, Depth;
    out := [];
    for i := 0 to n
      invariant Ready(g, mark) && out == ListedPairs(i, Traversals(es, seeds))
    {
      var reached, depth := Traverse(g, dense[i], mark, es);
      out := out + [reached, depth];
    }
  }

  /** Works out what every operation should come back with, or says why it cannot. */
  method Answer(g: Graph, seeds: seq<u32>, p: Plan, ghost es: seq<Edge>) returns (r: Result<Answers, AnswerError>)
    requires IsCsr(g, es) && |g.ids| <= 0x8000_0000 && p.CountsMakeSense()
    ensures p.Check().Some? ==> r == Err(BadPlan(p.Check().value))
    ensures p.Check().None? && |seeds| < p.seeds ==> r == Err(TooFewSeeds)
    ensures r.Ok? <==> p.Check().None? && |seeds| >= p.seeds && forall i :: 0 <= i < |seeds| ==> seeds[i] in Nodes(es)
    ensures p.Check().None? && |seeds| >= p.seeds && r.Err? ==>
              exists i :: 0 <= i < |seeds| && r.error == NotInGraph(seeds[i]) && IsFirstMissing(g, seeds, i)
    ensures r.Ok? ==> IsTruth(r.value, es, seeds, p)
  {
    var bad := p.Check();
    if bad.Some? {
      return Err(BadPlan(bad.value));
    }
    if |seeds| < p.seeds {
      return Err(TooFewSeeds);
    }
    assert forall id :: id in g.ids <==> id in Nodes(es) by {
      assert forall id :: id in g.ids <==> id in Elems(g.ids);
    }
    var found := DenseSeeds(g, seeds);
    if found.Err? {
      return Err(found.error);
    }
    var dense := found.value;
    CsrAnswers(g, es);
    IncreasingSize(g.ids);
    var degrees := DegreesOf(g, dense, p.neighbour, es, seeds);
    var mark := new Stamps(|g.ids|);
    var counts := TwoHopsOf(g, dense, p.twoHop, mark, es, seeds);
    var hops := PathsOf(g, dense, p.path, mark, es, seeds);
    var reach := TraversalsOf(g, dense, p.bfs, mark, es, seeds);
    var ranked := HighestRanked(g, p.iterations, p.damping, p.top, es);
    return Ok(Answers(|g.ids|, |g.target|, p, degrees, counts, hops, reach, ranked));
  }
}
