/**
 The whole correctness check for the Rust baseline: the Go reference builds the graph and works out
 the answers, the engine builds its own copy, writes it, opens it again and is asked, and the harness
 scores what it said.
 */
module EndToEnd {
  import opened Bytes
  import opened EdgeList
  import opened Library
  import opened Csr
  import opened PageRank
  import opened Pushing
  import opened Options
  import opened Plans
  import opened Harness
  import Reference
  import CsrEngine
  import CsrFile

  /** The Rust engine as the harness sees it: what its operations answer, unknown identifiers included. */
  ghost function Answering(es: seq<Edge>): Engine {
    Engine(
      op => false,
      u => if u in Nodes(es) then Degree(es, u) else -1,
      u => if u in Nodes(es) then TwoHopCount(es, u) else -1,
      (s, t) => if s in Nodes(es) && t in Nodes(es) then HopCount(es, s, t) else -1,
      u => if u in Nodes(es) then (Reached(es, u), Depth(es, u)) else (-1, -1),
      (iterations, damping, top) =>
        if iterations >= 0 && top >= 0 then Ranking(es, damping, iterations, top) else [])
  }

  /** It tells the truth about every graph. */
  lemma RustEngineIsTruthful(es: seq<Edge>)
    ensures Truthful(Answering(es), es)
  {
    hide IsRanking, Degree, TwoHopCount, HopCount, Reached, Depth;
  }

  lemma AnswersTo(es: seq<Edge>, u: int)
    ensures Answering(es).neighbours(u) == if u in Nodes(es) then Degree(es, u) else -1
    ensures Answering(es).twoHop(u) == if u in Nodes(es) then TwoHopCount(es, u) else -1
    ensures Answering(es).bfs(u) == if u in Nodes(es) then (Reached(es, u), Depth(es, u)) else (-1, -1)
  {
    hide Nodes, TwoHopCount, Reached, Depth;
  }

  lemma AnswersOf(es: seq<Edge>, seeds: seq<int>, i: nat)
    requires i < |seeds|
    ensures var u := seeds[i];
            && NeighboursCall(Answering(es), seeds)(i) == (if u in Nodes(es) then Degree(es, u) else -1)
            && TwoHopCall(Answering(es), seeds)(i) == (if u in Nodes(es) then TwoHopCount(es, u) else -1)
            && BfsCall(Answering(es), seeds)(i) == (if u in Nodes(es) then (Reached(es, u), Depth(es, u)) else (-1, -1))
  {
    hide Answering, Degree, TwoHopCount, Reached, Depth;
    var eng := Answering(es);
    AnswersTo(es, seeds[i]);
    assert SeedAt(seeds, i) == seeds[i];
    assert NeighboursCall(eng, seeds)(i) == eng.neighbours(SeedAt(seeds, i));
    assert TwoHopCall(eng, seeds)(i) == eng.twoHop(SeedAt(seeds, i));
    assert BfsCall(eng, seeds)(i) == eng.bfs(SeedAt(seeds, i));
  }

  // ----- Asking the engine

  method AskDegrees(g: Graph, seeds: seq<u32>, n: nat, ghost es: seq<Edge>) returns (got: seq<int>)
    requires CsrEngine.Serves(g, es) && n <= |seeds|
    ensures got == Listed(n, NeighboursCall(Answering(es), seeds))
  {
    hide Degree, CsrEngine.Serves, NeighboursCall, Answering, Listed;
    got := [];
    for i := 0 to n
      invariant got == Listed(i, NeighboursCall(Answering(es), seeds))
    {
      var answer := CsrEngine.Neighbours(g, seeds[i], es);
      AnswersOf(es, seeds, i);
      ListedNext(i, NeighboursCall(Answering(es), seeds));
      got := got + [answer];
    }
  }

  method AskTwoHops(g: Graph, s: CsrEngine.Scratch, seeds: seq<u32>, n: nat, ghost es: seq<Edge>)
    returns (got: seq<int>)
    requires CsrEngine.Serves(g, es) && s.Valid() && n <= |seeds|
    modifies s, s.marks, s.marks.seen
    ensures CsrEngine.StillOwned(s)
    ensures got == Listed(n, TwoHopCall(Answering(es), seeds))
  {
    hide TwoHopCount, CsrEngine.Serves, TwoHopCall, Answering, Listed;
    got := [];
    for i := 0 to n
      invariant CsrEngine.StillOwned(s)
      invariant got == Listed(i, TwoHopCall(Answering(es), seeds))
    {
      var answer := CsrEngine.TwoHop(g, s, seeds[i], es);
      AnswersOf(es, seeds, i);
      ListedNext(i, TwoHopCall(Answering(es), seeds));
      got := got + [answer];
    }
  }

  method AskPaths(g: Graph, s: CsrEngine.Scratch, seeds: seq<u32>, n: nat, ghost es: seq<Edge>) returns (got: seq<int>)
    requires CsrEngine.Serves(g, es) && s.Valid() && 2 * n <= |seeds|
    modifies s, s.marks, s.marks.seen
    ensures CsrEngine.StillOwned(s)
    ensures got == Listed(n, PathCall(Answering(es), seeds))
  {
    hide HopCount, CsrEngine.Serves, Listed;
    got := [];
    for i := 0 to n
      invariant CsrEngine.StillOwned(s)
      invariant got == Listed(i, PathCall(Answering(es), seeds))
    {
      var answer := CsrEngine.ShortestPath(g, s, seeds[2 * i], seeds[2 * i + 1], es);
      ListedNext(i, PathCall(Answering(es), seeds));
      got := got + [answer];
    }
  }

  method AskTraversals(g: Graph, s: CsrEngine.Scratch, seeds: seq<u32>, n: nat, ghost es: seq<Edge>)
    returns (got: seq<int>)
    requires CsrEngine.Serves(g, es) && s.Valid() && n <= |seeds|
    modifies s, s.marks, s.marks.seen
    ensures CsrEngine.StillOwned(s)
    ensures got == ListedPairs(n, BfsCall(Answering(es), seeds))
  {
    hide Reached, Depth, CsrEngine.Serves, BfsCall, Answering, ListedPairs;
    got := [];
    for i := 0 to n
      invariant CsrEngine.StillOwned(s)
      invariant got == ListedPairs(i, BfsCall(Answering(es), seeds))
    {
      var reached, depth := CsrEngine.Bfs(g, s, seeds[i], es);
      AnswersOf(es, seeds, i);
      ListedPairsNext(i, BfsCall(Answering(es), seeds));
      got := got + [reached, depth];
    }
  }

  method AskRanking(g: Graph, p: Plan, ghost es: seq<Edge>) returns (got: seq<int>)
    requires IsCsr(g, es) && p.iterations >= 0 && p.top >= 0
    ensures got == Answering(es).pageRank(p.iterations, p.damping, p.top)
  {
    hide IsRanking;
    got := HighestRanked(g, p.iterations, p.damping, p.top, es);
    RankingIsUnique(es, es, p.damping, p.iterations, p.top, got, Ranking(es, p.damping, p.iterations, p.top));
  }

  /** One operation asked of the engine: seeds from the front of the list, in order. */
  method Ask(g: Graph, s: CsrEngine.Scratch, seeds: seq<u32>, p: Plan, op: Op, ghost es: seq<Edge>)
    returns (got: seq<int>)
    requires IsCsr(g, es) && s.Valid() && p.CountsMakeSense() && p.iterations >= 0 && p.top >= 0
    modifies s, s.marks, s.marks.seen
    ensures CsrEngine.StillOwned(s)
    ensures got == Collected(Answering(es), seeds, p, op)
  {
    hide Answering, NeighboursCall, TwoHopCall, PathCall, BfsCall, IsCsr;
    CsrEngine.BuiltServes(g, es);
    var n := RunsOf(p, seeds, op);
    match op {
      case Neighbours => got := AskDegrees(g, seeds, n, es);
      case TwoHop => got := AskTwoHops(g, s, seeds, n, es);
      case ShortestPath => got := AskPaths(g, s, seeds, n, es);
      case Bfs => got := AskTraversals(g, s, seeds, n, es);
      case PageRank => got := AskRanking(g, p, es);
    }
  }

  // ----- The run

  /** The harness over the engine itself: the report it makes over an engine that answers like this. */
  method RunEngine(cfg: Config, g: Graph, seeds: seq<u32>, a: Answers, ghost es: seq<Edge>) returns (out: seq<OpStat>)
    requires cfg.Valid() && IsCsr(g, es)
    requires a.plan.CountsMakeSense() && a.plan.iterations >= 0 && a.plan.top >= 0
    ensures forall op: Op :: |set i | 0 <= i < |out| && out[i].op == op| == if cfg.wants(op) then 1 else 0
    ensures forall i, j :: 0 <= i < j < |out| ==> Precedes(out[i].op, out[j].op)
    ensures (forall op :: cfg.wants(op)) ==>
              && |out| == 5 && out[0].op == Neighbours && out[1].op == TwoHop && out[2].op == ShortestPath
              && out[3].op == Bfs && out[4].op == PageRank
    ensures RowsAreStats(out, cfg, Answering(es), seeds, a)
  {
    hide StatOn, Collected, WantedOf, IsCsr, Wanted;
    var s := new CsrEngine.Scratch();
    out := [];
    assert RowsSoFar(out, cfg.wants, 0) by { NoRows(cfg.wants); }
    for n := 0 to |OPERATIONS|
      invariant s.Valid() && fresh(s) && fresh(s.marks) && fresh(s.marks.seen)
      invariant RowsSoFar(out, cfg.wants, n) && RowsAreStats(out, cfg, Answering(es), seeds, a)
    {
      hide RowsSoFar;
      var op := OPERATIONS[n];
      if !cfg.wants(op) {
        RowsGrow(out, Unsupported(op), cfg.wants, n);
        continue;
      }
      var got := Ask(g, s, seeds, a.plan, op, es);
      var stat := StatOf(got, WantedOf(a, op), op, RunsOf(a.plan, seeds, op), cfg);
      assert StatFor(stat, Answering(es), seeds, a, op, cfg.workers);
      assert stat.op == op by { StatNamesOperation(stat, Answering(es), seeds, a, op, cfg.workers); }
      RowsGrow(out, stat, cfg.wants, n);
      out := out + [stat];
    }
    RowsInOrder(out, cfg.wants);
  }

  /** Nothing is asked only when the plan or the seeds do not fit the graph; otherwise nothing disagrees. */
  method Benchmark(cfg: Config, edges: seq<u32>, undirected: bool, seeds: seq<u32>, p: Plan)
    returns (stats: Option<seq<OpStat>>)
    requires cfg.Valid() && p.CountsMakeSense()
    requires |edges| % 2 == 0 && 4 * |edges| < TWO63 && |Nodes(Pairs(edges))| <= 0x8000_0000
    ensures stats.Some? <==>
            p.Check().None? && |seeds| >= p.seeds && forall i :: 0 <= i < |seeds| ==> seeds[i] in edges
    ensures stats.Some? ==>
              var out := stats.value;
              && (forall op: Op :: |set i | 0 <= i < |out| && out[i].op == op| == if cfg.wants(op) then 1 else 0)
              && (forall i, j :: 0 <= i < j < |out| ==> Precedes(out[i].op, out[j].op))
              && ((forall op :: cfg.wants(op)) ==>
                    && |out| == 5 && out[0].op == Neighbours && out[1].op == TwoHop && out[2].op == ShortestPath
                    && out[3].op == Bfs && out[4].op == PageRank)
              && forall i :: 0 <= i < |out| ==> Perfect(out[i], p, cfg.workers)
  {
    hide IsRanking, Degrees, TwoHops, Paths, Traversals, IsCsr, Truthful, RowsAreStats, Perfect;
    ghost var es := Pairs(edges);
    NodesOfPairs(edges);
    var reference := Reference.Build(edges);
    BuiltSizes(reference, es);
    var answers := Reference.Answer(reference, seeds, p, es);
    if answers.Err? {
      return None;
    }
    var a := answers.value;
    var built := CsrEngine.Build(edges);
    var store := CsrFile.Reopened(built, undirected, edges);
    var g := store.graph;
    BuiltSizes(g, es);
    assert a.nodes == |g.ids| && a.edges == |g.target|;
    var out := RunEngine(cfg, g, seeds, a, es);
    RustEngineIsTruthful(es);
    TruthfulEngineScoresPerfectly(out, cfg, Answering(es), es, seeds, a);
    return Some(out);
  }

  lemma BuiltSizes(g: Graph, es: seq<Edge>)
    requires IsCsr(g, es)
    ensures |g.ids| == |Nodes(es)| && |g.target| == |es|
  {
    IncreasingSize(g.ids);
  }
}
