/**
 The harness: which seeds each operation is asked about, what is collected, and how it is
 scored against the answers file.
 */
module Harness {
  import opened Sets
  import opened Counting
  import opened EdgeList
  import opened Library
  import opened Csr
  import opened FirstK
  import opened PageRank
  import opened Options
  import opened Plans
  import CursorPool

  // ----- Scoring

  /** The truth has nothing to say there, or something else. */
  ghost function Differs(got: seq<int>, want: seq<int>): int -> bool {
    i => 0 <= i < |got| && !(i < |want| && want[i] == got[i])
  }

  /** The fraction of answers that matched, and at how many positions they did not. */
  method Score(got: seq<int>, want: seq<int>) returns (correct: real, wrong: nat)
    ensures wrong == |set i: nat | i < |got| && !(i < |want| && want[i] == got[i])|
    ensures got == [] ==> correct == 0.0
    ensures got != [] ==> correct * |got| as real == (|got| - wrong) as real
    ensures wrong == 0 <==> got <= want
    ensures correct == 1.0 <==> got != [] && got <= want
  {
    ghost var differs := Differs(got, want);
    HowManyNext(0, differs);
    MismatchesAreCounted(got, want);
    NoMismatchIsPrefix(got, want);
    if |got| == 0 {
      return 0.0, 0;
    }
    wrong := 0;
    for i := 0 to |got|
      invariant wrong == HowMany(i, differs) <= i
    {
      HowManyNext(i, differs);
      if i >= |want| || want[i] != got[i] {
        wrong := wrong + 1;
      }
    }
    correct := (|got| - wrong) as real / |got| as real;
    WholeFraction(|got| - wrong, |got|);
  }

  lemma MismatchesAreCounted(got: seq<int>, want: seq<int>)
    ensures HowMany(|got|, Differs(got, want)) == |set i: nat | i < |got| && !(i < |want| && want[i] == got[i])|
  {
    assert Where(|got|, Differs(got, want)) == set i: nat | i < |got| && !(i < |want| && want[i] == got[i]);
  }

  /** An answer the truth says nothing about is wrong, so all correct means a prefix of the truth. */
  lemma NoMismatchIsPrefix(got: seq<int>, want: seq<int>)
    ensures |set i: nat | i < |got| && !(i < |want| && want[i] == got[i])| == 0 <==> got <= want
  {
    var wrong := set i: nat | i < |got| && !(i < |want| && want[i] == got[i]);
    if !(got <= want) {
      if |want| < |got| {
        assert |want| in wrong;
      } else {
        var i: nat :| i < |got| && got[i] != want[i];
        assert i in wrong;
      }
    } else {
      assert wrong == {};
    }
  }

  // ----- Running the operations

  datatype Op = Neighbours | TwoHop | ShortestPath | Bfs | PageRank

  const OPERATIONS: seq<Op> := [Neighbours, TwoHop, ShortestPath, Bfs, PageRank]

  /** Cheapest first, which is the order the report shows them in. */
  predicate Precedes(a: Op, b: Op) {
    match a
    case Neighbours => b != Neighbours
    case TwoHop => b != Neighbours && b != TwoHop
    case ShortestPath => b == Bfs || b == PageRank
    case Bfs => b == PageRank
    case PageRank => false
  }

  /** An engine as the harness sees it: an answer to every call. */
  datatype Engine = Engine(
    cannot: Op -> bool,
    neighbours: int -> int,
    twoHop: int -> int,
    shortestPath: (int, int) -> int,
    bfs: int -> (int, int),
    pageRank: (int, real, int) -> seq<int>)

  /** The workers of the concurrent pass and how many calls they timed. */
  datatype ConcurrentStat = ConcurrentStat(workers: int, queries: nat)

  datatype OpStat =
    | Unsupported(op: Op)
    | Scored(op: Op, runs: nat, correct: real, wrong: nat, concurrent: Option<ConcurrentStat>)

  /** What is asked for, with how many workers, and how those happen to interleave. */
  datatype Config = Config(wants: Op -> bool, workers: int, schedule: (nat, nat) -> seq<CursorPool.State>) {
    ghost predicate Valid() {
      forall w: nat, c: nat :: w > 0 ==> CursorPool.IsSchedule(schedule(w, c), w, c)
    }
  }

  /** How many runs an operation needs before it is also run with several in flight. */
  const CONCURRENT_MIN := 100

  function WantedOf(a: Answers, op: Op): seq<int> {
    match op
    case Neighbours => a.neighbours
    case TwoHop => a.twoHop
    case ShortestPath => a.shortestPath
    case Bfs => a.bfs
    case PageRank => a.pageRank
  }

  /** How often an operation is run: never more than there are seeds for. */
  function RunsOf(p: Plan, seeds: seq<int>, op: Op): (runs: int)
    ensures op == Neighbours ==> runs <= p.neighbour && runs <= |seeds| && (runs == p.neighbour || runs == |seeds|)
    ensures op == TwoHop ==> runs <= p.twoHop && runs <= |seeds| && (runs == p.twoHop || runs == |seeds|)
    ensures op == ShortestPath ==> runs <= p.path && 2 * runs <= |seeds| && (runs == p.path || |seeds| < 2 * runs + 2)
    ensures op == Bfs ==> runs <= p.bfs && runs <= |seeds| && (runs == p.bfs || runs == |seeds|)
    ensures op == PageRank ==> runs == 1
  {
    match op
    case Neighbours => Min(p.neighbour, |seeds|)
    case TwoHop => Min(p.twoHop, |seeds|)
    case ShortestPath => Min(p.path, |seeds| / 2)
    case Bfs => Min(p.bfs, |seeds|)
    case PageRank => 1
  }

  method OnePerSeed(count: nat, call: int -> int) returns (got: seq<int>)
    ensures got == Listed(count, call)
  {
    got := [];
    for i := 0 to count
      invariant got == Listed(i, call)
    {
      got := got + [call(i)];
    }
  }

  method PairPerSeed(count: nat, call: int -> (int, int)) returns (got: seq<int>)
    ensures got == ListedPairs(count, call)
  {
    got := [];
    for i := 0 to count
      invariant got == ListedPairs(i, call)
    {
      var (reached, depth) := call(i);
      got := got + [reached, depth];
    }
  }

  function NeighboursCall(eng: Engine, seeds: seq<int>): int -> int {
    i => eng.neighbours(SeedAt(seeds, i))
  }

  function TwoHopCall(eng: Engine, seeds: seq<int>): int -> int {
    i => eng.twoHop(SeedAt(seeds, i))
  }

  function PathCall(eng: Engine, seeds: seq<int>): int -> int {
    i => eng.shortestPath(SeedAt(seeds, 2 * i), SeedAt(seeds, 2 * i + 1))
  }

  function BfsCall(eng: Engine, seeds: seq<int>): int -> (int, int) {
    i => eng.bfs(SeedAt(seeds, i))
  }

  /** What is collected for one operation, seeds taken from the front of the list. */
  function Collected(eng: Engine, seeds: seq<int>, p: Plan, op: Op): seq<int>
    requires p.CountsMakeSense()
  {
    match op
    case Neighbours => Listed(RunsOf(p, seeds, op), NeighboursCall(eng, seeds))
    case TwoHop => Listed(RunsOf(p, seeds, op), TwoHopCall(eng, seeds))
    case ShortestPath => Listed(RunsOf(p, seeds, op), PathCall(eng, seeds))
    case Bfs => ListedPairs(RunsOf(p, seeds, op), BfsCall(eng, seeds))
    case PageRank => eng.pageRank(p.iterations, p.damping, p.top)
  }

  // ----- The same calls again, with several in flight

  /** Every call of the pass is timed once, under every schedule, so the timings are as many as the calls. */
  method Alongside(cfg: Config, count: nat) returns (r: Option<ConcurrentStat>)
    requires cfg.Valid()
    ensures r == if count >= 100 && cfg.workers > 0 then Some(ConcurrentStat(cfg.workers, count)) else None
  {
    if count < CONCURRENT_MIN || cfg.workers <= 0 {
      return None;
    }
    var run := cfg.schedule(cfg.workers, count);
    assert CursorPool.IsSchedule(run, cfg.workers, count);
    CursorPool.EveryIndexExactlyOnce(run, cfg.workers, count);
    return Some(ConcurrentStat(cfg.workers, |run[|run| - 1].times|));
  }

  // ----- One row of the report

  /** The three lookups are run again with several in flight; traversals and PageRank are not. */
  ghost predicate ConcurrentOn(stat: OpStat, workers: int)
    requires stat.Scored?
  {
    var lookup := stat.op == Neighbours || stat.op == TwoHop || stat.op == ShortestPath;
    stat.concurrent ==
    if lookup && stat.runs >= 100 && workers > 0 then Some(ConcurrentStat(workers, stat.runs)) else None
  }

  /** What was collected, scored, and what the concurrent pass came to. */
  ghost predicate StatOn(stat: OpStat, got: seq<int>, want: seq<int>, op: Op, runs: nat, workers: int) {
    && stat.Scored? && stat.op == op && stat.runs == runs && ConcurrentOn(stat, workers)
    && stat.wrong == |set i: nat | i < |got| && !(i < |want| && want[i] == got[i])|
    && (if got == [] then stat.correct == 0.0 else stat.correct * |got| as real == (|got| - stat.wrong) as real)
    && (stat.wrong == 0 <==> got <= want) && (stat.correct == 1.0 <==> got != [] && got <= want)
  }

  ghost predicate StatFor(stat: OpStat, eng: Engine, seeds: seq<int>, a: Answers, op: Op, workers: int)
    requires a.plan.CountsMakeSense()
  {
    if eng.cannot(op) then stat == Unsupported(op)
    else StatOn(stat, Collected(eng, seeds, a.plan, op), WantedOf(a, op), op, RunsOf(a.plan, seeds, op), workers)
  }

  method StatOf(got: seq<int>, want: seq<int>, op: Op, runs: nat, cfg: Config) returns (stat: OpStat)
    requires cfg.Valid()
    ensures StatOn(stat, got, want, op, runs, cfg.workers)
  {
    var correct, wrong := Score(got, want);
    var concurrent := None;
    if op == Neighbours || op == TwoHop || op == ShortestPath {
      concurrent := Alongside(cfg, runs);
    }
    stat := Scored(op, runs, correct, wrong, concurrent);
  }

  method RunOne(cfg: Config, eng: Engine, seeds: seq<int>, a: Answers, op: Op) returns (stat: OpStat)
    requires cfg.Valid() && a.plan.CountsMakeSense()
    ensures StatFor(stat, eng, seeds, a, op, cfg.workers)
  {
    hide StatOn, Collected, WantedOf;
    if eng.cannot(op) {
      return Unsupported(op);
    }
    var got := Collect(eng, seeds, a.plan, op);
    stat := StatOf(got, WantedOf(a, op), op, RunsOf(a.plan, seeds, op), cfg);
  }

  method Collect(eng: Engine, seeds: seq<int>, p: Plan, op: Op) returns (got: seq<int>)
    requires p.CountsMakeSense()
    ensures got == Collected(eng, seeds, p, op)
  {
    match op {
      case Neighbours => got := OnePerSeed(Min(p.neighbour, |seeds|), NeighboursCall(eng, seeds));
      case TwoHop => got := OnePerSeed(Min(p.twoHop, |seeds|), TwoHopCall(eng, seeds));
      case ShortestPath => got := OnePerSeed(Min(p.path, |seeds| / 2), PathCall(eng, seeds));
      case Bfs => got := PairPerSeed(Min(p.bfs, |seeds|), BfsCall(eng, seeds));
      case PageRank => got := eng.pageRank(p.iterations, p.damping, p.top);
    }
  }

  // ----- Which rows a report has

  /** The operations asked for among the first `n`, in report order. */
  function Wanted(wants: Op -> bool, n: nat): seq<Op>
    requires n <= |OPERATIONS|
  {
    if n == 0 then [] else Wanted(wants, n - 1) + if wants(OPERATIONS[n - 1]) then [OPERATIONS[n - 1]] else []
  }

  lemma {:induction false} WantedInOrder(wants: Op -> bool, n: nat)
    requires n <= |OPERATIONS|
    ensures forall op :: op in Wanted(wants, n) <==> wants(op) && op in OPERATIONS[..n]
    ensures forall i, j :: 0 <= i < j < |Wanted(wants, n)| ==> Precedes(Wanted(wants, n)[i], Wanted(wants, n)[j])
  {
    if n > 0 {
      WantedInOrder(wants, n - 1);
      assert OPERATIONS[..n] == OPERATIONS[..n - 1] + [OPERATIONS[n - 1]];
      var before, last := Wanted(wants, n - 1), OPERATIONS[n - 1];
      forall i | 0 <= i < |before|
        ensures Precedes(before[i], last)
      {
        assert before[i] in OPERATIONS[..n - 1];
      }
    }
  }

  lemma AllWanted(wants: Op -> bool)
    ensures (forall op :: wants(op)) ==>
              Wanted(wants, |OPERATIONS|) == [Neighbours, TwoHop, ShortestPath, Bfs, PageRank]
  {
    if forall op :: wants(op) {
      assert wants(Neighbours) && wants(TwoHop) && wants(ShortestPath) && wants(Bfs) && wants(PageRank);
      assert Wanted(wants, 2) == [Neighbours, TwoHop];
      assert Wanted(wants, 4) == [Neighbours, TwoHop, ShortestPath, Bfs];
    }
  }

  lemma EveryOperationIsListed(op: Op)
    ensures op in OPERATIONS
  {
    assert OPERATIONS[0] == Neighbours && OPERATIONS[1] == TwoHop && OPERATIONS[2] == ShortestPath;
    assert OPERATIONS[3] == Bfs && OPERATIONS[4] == PageRank;
  }

  /** As far as `n` operations, one row for each that is wanted. */
  ghost predicate RowsSoFar(out: seq<OpStat>, wants: Op -> bool, n: nat)
    requires n <= |OPERATIONS|
  {
    |out| == |Wanted(wants, n)| && forall i :: 0 <= i < |out| ==> out[i].op == Wanted(wants, n)[i]
  }

  /** Exactly one row for every operation that is wanted, none for the others, in report order. */
  lemma RowsInOrder(out: seq<OpStat>, wants: Op -> bool)
    requires RowsSoFar(out, wants, |OPERATIONS|)
    ensures forall op: Op :: |set i | 0 <= i < |out| && out[i].op == op| == if wants(op) then 1 else 0
    ensures forall i, j :: 0 <= i < j < |out| ==> Precedes(out[i].op, out[j].op)
    ensures forall i :: 0 <= i < |out| ==> wants(out[i].op)
    ensures (forall op :: wants(op)) ==>
              && |out| == 5 && out[0].op == Neighbours && out[1].op == TwoHop && out[2].op == ShortestPath
              && out[3].op == Bfs && out[4].op == PageRank
  {
    AllWanted(wants);
    hide Wanted;
    var ops := Wanted(wants, |OPERATIONS|);
    WantedInOrder(wants, |OPERATIONS|);
    assert OPERATIONS[..|OPERATIONS|] == OPERATIONS;
    forall op: Op
      ensures |set i | 0 <= i < |out| && out[i].op == op| == if wants(op) then 1 else 0
    {
      EveryOperationIsListed(op);
      OneRow(out, ops, op);
    }
  }

  lemma OneRow(out: seq<OpStat>, ops: seq<Op>, op: Op)
    requires |out| == |ops| && forall i :: 0 <= i < |out| ==> out[i].op == ops[i]
    requires forall i, j :: 0 <= i < j < |ops| ==> Precedes(ops[i], ops[j])
    ensures |set i | 0 <= i < |out| && out[i].op == op| == if op in ops then 1 else 0
  {
    var rows := set i | 0 <= i < |out| && out[i].op == op;
    if op in ops {
      var i :| 0 <= i < |ops| && ops[i] == op;
      assert rows == {i};
    } else {
      assert rows == {};
    }
  }

  /** A row says what running its operation came to; an unsupported operation keeps its row. */
  ghost predicate RowsAreStats(out: seq<OpStat>, cfg: Config, eng: Engine, seeds: seq<int>, a: Answers)
    requires a.plan.CountsMakeSense()
  {
    forall i :: 0 <= i < |out| ==> StatFor(out[i], eng, seeds, a, out[i].op, cfg.workers)
  }

  lemma RowsGrow(out: seq<OpStat>, stat: OpStat, wants: Op -> bool, n: nat)
    requires n < |OPERATIONS| && RowsSoFar(out, wants, n)
    ensures !wants(OPERATIONS[n]) ==> RowsSoFar(out, wants, n + 1)
    ensures wants(OPERATIONS[n]) && stat.op == OPERATIONS[n] ==> RowsSoFar(out + [stat], wants, n + 1)
  {
  }

  method RunOps(cfg: Config, eng: Engine, seeds: seq<int>, a: Answers) returns (out: seq<OpStat>)
    requires cfg.Valid() && a.plan.CountsMakeSense()
    ensures forall op: Op :: |set i | 0 <= i < |out| && out[i].op == op| == if cfg.wants(op) then 1 else 0
    ensures forall i, j :: 0 <= i < j < |out| ==> Precedes(out[i].op, out[j].op)
    ensures (forall op :: cfg.wants(op)) ==>
              && |out| == 5 && out[0].op == Neighbours && out[1].op == TwoHop && out[2].op == ShortestPath
              && out[3].op == Bfs && out[4].op == PageRank
    ensures RowsAreStats(out, cfg, eng, seeds, a)
  {
    hide StatFor, Wanted;
    out := [];
    assert RowsSoFar(out, cfg.wants, 0) by { NoRows(cfg.wants); }
    for n := 0 to |OPERATIONS|
      invariant RowsSoFar(out, cfg.wants, n) && RowsAreStats(out, cfg, eng, seeds, a)
    {
      hide RowsSoFar;
      var op := OPERATIONS[n];
      if !cfg.wants(op) {
        RowsGrow(out, Unsupported(op), cfg.wants, n);
        continue;
      }
      var stat := RunOne(cfg, eng, seeds, a, op);
      assert stat.op == op by { StatNamesOperation(stat, eng, seeds, a, op, cfg.workers); }
      RowsGrow(out, stat, cfg.wants, n);
      out := out + [stat];
    }
    RowsInOrder(out, cfg.wants);
  }

  lemma NoRows(wants: Op -> bool)
    ensures RowsSoFar([], wants, 0)
  {
  }

  lemma StatNamesOperation(stat: OpStat, eng: Engine, seeds: seq<int>, a: Answers, op: Op, workers: int)
    requires a.plan.CountsMakeSense() && StatFor(stat, eng, seeds, a, op, workers)
    ensures stat.op == op
  {
  }

  // ----- An engine that tells the truth

  ghost predicate Truthful(eng: Engine, es: seq<Edge>) {
    && (forall u :: TruthfulAt(eng, es, u))
    && (forall s, t :: TruthfulPath(eng, es, s, t))
    && (forall k: nat, d: real, top: nat :: IsRanking(es, d, k, top, eng.pageRank(k, d, top)))
  }

  ghost predicate TruthfulAt(eng: Engine, es: seq<Edge>, u: int) {
    u in Nodes(es) ==>
      && eng.neighbours(u) == Degree(es, u) && eng.twoHop(u) == TwoHopCount(es, u)
      && eng.bfs(u) == (Reached(es, u), Depth(es, u))
  }

  ghost predicate TruthfulPath(eng: Engine, es: seq<Edge>, s: int, t: int) {
    s in Nodes(es) && t in Nodes(es) ==> eng.shortestPath(s, t) == HopCount(es, s, t)
  }

  ghost predicate FromGraph(seeds: seq<int>, es: seq<Edge>) {
    forall i :: 0 <= i < |seeds| ==> seeds[i] in Nodes(es)
  }

  lemma TruthfulSeed(eng: Engine, es: seq<Edge>, seeds: seq<int>, i: int)
    requires Truthful(eng, es) && FromGraph(seeds, es) && 0 <= i < |seeds|
    ensures NeighboursCall(eng, seeds)(i) == Degrees(es, seeds)(i)
    ensures TwoHopCall(eng, seeds)(i) == TwoHops(es, seeds)(i)
    ensures BfsCall(eng, seeds)(i) == Traversals(es, seeds)(i)
  {
    assert TruthfulAt(eng, es, seeds[i]);
  }

  lemma TruthfulPair(eng: Engine, es: seq<Edge>, seeds: seq<int>, i: int)
    requires Truthful(eng, es) && FromGraph(seeds, es) && 0 <= i && 2 * i + 1 < |seeds|
    ensures PathCall(eng, seeds)(i) == Paths(es, seeds)(i)
  {
    assert TruthfulPath(eng, es, seeds[2 * i], seeds[2 * i + 1]);
  }

  lemma TruthfulRanking(eng: Engine, es: seq<Edge>, seeds: seq<int>, a: Answers)
    requires Truthful(eng, es) && IsTruth(a, es, seeds, a.plan)
    ensures eng.pageRank(a.plan.iterations, a.plan.damping, a.plan.top) == a.pageRank
  {
    hide IsRanking, Degrees, TwoHops, Paths, Traversals, TruthfulAt, TruthfulPath;
    var p := a.plan;
    RankingIsUnique(es, es, p.damping, p.iterations, p.top, eng.pageRank(p.iterations, p.damping, p.top), a.pageRank);
  }

  /** What a truthful engine collects is the truth, operation by operation. */
  lemma TruthfulCollectsTruth(eng: Engine, es: seq<Edge>, seeds: seq<int>, a: Answers, op: Op)
    requires Truthful(eng, es) && FromGraph(seeds, es) && IsTruth(a, es, seeds, a.plan)
    ensures Collected(eng, seeds, a.plan, op) == WantedOf(a, op)
  {
    hide Degrees, TwoHops, Paths, Traversals, NeighboursCall, TwoHopCall, PathCall, BfsCall, Truthful, IsRanking;
    var p := a.plan;
    match op
    case Neighbours =>
      forall i | 0 <= i < p.neighbour { TruthfulSeed(eng, es, seeds, i); }
      SameCallsSameList(p.neighbour, NeighboursCall(eng, seeds), Degrees(es, seeds));
    case TwoHop =>
      forall i | 0 <= i < p.twoHop { TruthfulSeed(eng, es, seeds, i); }
      SameCallsSameList(p.twoHop, TwoHopCall(eng, seeds), TwoHops(es, seeds));
    case ShortestPath =>
      forall i | 0 <= i < p.path { TruthfulPair(eng, es, seeds, i); }
      SameCallsSameList(p.path, PathCall(eng, seeds), Paths(es, seeds));
    case Bfs =>
      forall i | 0 <= i < p.bfs { TruthfulSeed(eng, es, seeds, i); }
      SameCallsSamePairs(p.bfs, BfsCall(eng, seeds), Traversals(es, seeds));
    case PageRank => TruthfulRanking(eng, es, seeds, a);
  }

  /** Run as often as the plan asks, PageRank once, no disagreement, and a full score if it was run at all. */
  ghost predicate Perfect(stat: OpStat, p: Plan, workers: int) {
    && stat.Scored? && stat.wrong == 0 && (stat.runs > 0 ==> stat.correct == 1.0) && ConcurrentOn(stat, workers)
    && (stat.op == Neighbours ==> stat.runs == p.neighbour)
    && (stat.op == TwoHop ==> stat.runs == p.twoHop)
    && (stat.op == ShortestPath ==> stat.runs == p.path)
    && (stat.op == Bfs ==> stat.runs == p.bfs)
    && (stat.op == PageRank ==> stat.runs == 1)
  }

  lemma RunMeansWanted(es: seq<Edge>, seeds: seq<int>, a: Answers, op: Op)
    requires IsTruth(a, es, seeds, a.plan) && a.plan.Check().None? && FromGraph(seeds, es) && |seeds| >= a.plan.seeds
    ensures RunsOf(a.plan, seeds, op) > 0 ==> WantedOf(a, op) != []
  {
    hide IsRanking, Degrees, TwoHops, Paths, Traversals;
    if op == PageRank {
      assert seeds[0] in Nodes(es);
      RankingNotEmpty(es, a.plan, a.pageRank);
    }
  }

  lemma RankingNotEmpty(es: seq<Edge>, p: Plan, out: seq<int>)
    requires Nodes(es) != {} && p.iterations >= 0 && p.top > 0 && IsRanking(es, p.damping, p.iterations, p.top, out)
    ensures out != []
  {
    var ids := CanBeListed(Nodes(es));
    ElemsEmpty(ids);
    assert ListsNodes(ids, es) && Highest(es, ids, p.damping, p.iterations, p.top, out);
    assert ids[0] in Iterate(es, ids, Times(p.damping), p.iterations);
  }

  /** No mismatch on any operation, and a full score on every one that was run at all. */
  lemma TruthfulEngineScoresPerfectly(out: seq<OpStat>, cfg: Config, eng: Engine, es: seq<Edge>, seeds: seq<int>,
                                      a: Answers)
    requires Truthful(eng, es) && FromGraph(seeds, es) && IsTruth(a, es, seeds, a.plan)
    requires a.plan.Check().None? && |seeds| >= a.plan.seeds && forall op :: !eng.cannot(op)
    requires RowsAreStats(out, cfg, eng, seeds, a)
    ensures forall i :: 0 <= i < |out| ==> Perfect(out[i], a.plan, cfg.workers)
  {
    assert a.plan.CountsMakeSense();
    hide Truthful, IsTruth, Collected, WantedOf, FromGraph, ConcurrentOn;
    forall i | 0 <= i < |out|
      ensures Perfect(out[i], a.plan, cfg.workers)
    {
      var op := out[i].op;
      assert StatFor(out[i], eng, seeds, a, op, cfg.workers);
      TruthfulCollectsTruth(eng, es, seeds, a, op);
      RunMeansWanted(es, seeds, a, op);
    }
  }

  /** What is collected, position by position: the seeds from the front, two at a time for a path. */
  lemma CollectedMeans(eng: Engine, seeds: seq<int>, p: Plan, op: Op, i: nat)
    requires p.CountsMakeSense() && i < RunsOf(p, seeds, op)
    ensures var got, n := Collected(eng, seeds, p, op), RunsOf(p, seeds, op);
            && (op == Neighbours ==> |got| == n && got[i] == eng.neighbours(seeds[i]))
            && (op == TwoHop ==> |got| == n && got[i] == eng.twoHop(seeds[i]))
            && (op == ShortestPath ==> |got| == n && got[i] == eng.shortestPath(seeds[2 * i], seeds[2 * i + 1]))
            && (op == Bfs ==> |got| == 2 * n && (got[2 * i], got[2 * i + 1]) == eng.bfs(seeds[i]))
            && (op == PageRank ==> got == eng.pageRank(p.iterations, p.damping, p.top))
  {
    if op == ShortestPath {
      assert SeedAt(seeds, 2 * i) == seeds[2 * i] && SeedAt(seeds, 2 * i + 1) == seeds[2 * i + 1];
      assert PathCall(eng, seeds)(i) == eng.shortestPath(SeedAt(seeds, 2 * i), SeedAt(seeds, 2 * i + 1));
    } else if op != PageRank {
      hide ListedPairs, NeighboursCall, TwoHopCall, BfsCall;
      CallsAt(eng, seeds, i);
      if op == Bfs {
        ListedPairsAt(RunsOf(p, seeds, Bfs), BfsCall(eng, seeds), i);
      }
    }
  }

  lemma CallsAt(eng: Engine, seeds: seq<int>, i: nat)
    requires i < |seeds|
    ensures NeighboursCall(eng, seeds)(i) == eng.neighbours(seeds[i])
    ensures TwoHopCall(eng, seeds)(i) == eng.twoHop(seeds[i])
    ensures BfsCall(eng, seeds)(i) == eng.bfs(seeds[i])
  {
    assert SeedAt(seeds, i) == seeds[i];
  }
}
