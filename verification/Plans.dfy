/** How much of each operation a run does, and the record of what it should answer. */
module Plans {
  import opened EdgeList
  import opened PageRank
  import opened FirstK
  import opened Options

  datatype PlanError = NoSeeds | TooManyAsked | TooManyPairs | BadPageRank | NothingRecorded

  /** Go's integer division by two, which truncates towards zero. */
  function Half(n: int): int {
    if n >= 0 then n / 2 else -((-n) / 2)
  }

  datatype Plan = Plan(seeds: int, neighbour: int, twoHop: int, path: int, bfs: int,
                       iterations: int, damping: real, top: int) {
    function Fit(nodes: int): Plan {
      if nodes <= 0 then this else
        var seeds := Min(seeds, nodes);
        Plan(seeds, Min(neighbour, seeds), Min(twoHop, seeds), Min(path, Half(seeds)), Min(bfs, seeds),
             iterations, damping, top)
    }

    function Check(): Option<PlanError> {
      if seeds <= 0 then Some(NoSeeds)
      else if neighbour > seeds || twoHop > seeds || bfs > seeds then Some(TooManyAsked)
      else if path * 2 > seeds then Some(TooManyPairs)
      else if iterations <= 0 || damping <= 0.0 || damping >= 1.0 then Some(BadPageRank)
      else if top <= 0 then Some(NothingRecorded)
      else None
    }

    /** Counts a slice can be made with. */
    predicate CountsMakeSense() {
      neighbour >= 0 && twoHop >= 0 && path >= 0 && bfs >= 0
    }
  }

  /** Fitting mends exactly the faults that come from asking for too much of a graph. */
  lemma FitMendsTheCounts(p: Plan, nodes: int)
    requires nodes > 0
    ensures p.Fit(nodes).Check().None? <==>
            p.seeds > 0 && p.iterations > 0 && 0.0 < p.damping < 1.0 && p.top > 0
    ensures p.seeds > 0 && p.CountsMakeSense() ==>
            p.Fit(nodes).CountsMakeSense() && p.Fit(nodes).seeds <= nodes
    ensures p.Fit(nodes).Fit(nodes) == p.Fit(nodes)
    ensures p.Check().None? && p.seeds <= nodes ==> p.Fit(nodes) == p
  {
  }

  /** No count is larger, and nothing but the counts differs. */
  predicate NoMoreThan(p: Plan, q: Plan) {
    && p.seeds <= q.seeds && p.neighbour <= q.neighbour && p.twoHop <= q.twoHop && p.path <= q.path && p.bfs <= q.bfs
    && p.(seeds := q.seeds, neighbour := q.neighbour, twoHop := q.twoHop, path := q.path, bfs := q.bfs) == q
  }

  /** Fitting takes away no more than it has to: no plan that can be carried out keeps more of it. */
  lemma FitIsLargest(p: Plan, nodes: int, other: Plan)
    requires nodes > 0 && NoMoreThan(other, p) && other.seeds <= nodes && other.Check().None?
    ensures NoMoreThan(p.Fit(nodes), p) && NoMoreThan(other, p.Fit(nodes))
  {
  }

  /** One list of whole numbers per operation. */
  datatype Answers = Answers(nodes: int, edges: int, plan: Plan,
                             neighbours: seq<int>, twoHop: seq<int>, shortestPath: seq<int>,
                             bfs: seq<int>, pageRank: seq<int>)

  /** The seed at a position, or nothing anybody asks about. */
  function SeedAt(seeds: seq<int>, i: int): int {
    if 0 <= i < |seeds| then seeds[i] else -1
  }

  /** One number per call. */
  function Listed(n: nat, call: int -> int): (list: seq<int>)
    ensures |list| == n
  {
    seq(n, i => call(i))
  }

  /** Two numbers per call. */
  function ListedPairs(n: nat, call: int -> (int, int)): (list: seq<int>)
    ensures |list| == 2 * n
  {
    seq(2 * n, i => if i % 2 == 0 then call(i / 2).0 else call(i / 2).1)
  }

  lemma ListedNext(n: nat, call: int -> int)
    ensures Listed(n + 1, call) == Listed(n, call) + [call(n)]
  {
  }

  lemma ListedPairsNext(n: nat, call: int -> (int, int))
    ensures ListedPairs(n + 1, call) == ListedPairs(n, call) + [call(n).0, call(n).1]
  {
  }

  lemma ListedPairsAt(n: nat, call: int -> (int, int), i: nat)
    requires i < n
    ensures ListedPairs(n, call)[2 * i] == call(i).0 && ListedPairs(n, call)[2 * i + 1] == call(i).1
  {
    assert (2 * i) / 2 == i && (2 * i + 1) / 2 == i;
  }

  lemma SameCallsSameList(n: nat, f: int -> int, g: int -> int)
    requires forall i :: 0 <= i < n ==> f(i) == g(i)
    ensures Listed(n, f) == Listed(n, g)
  {
  }

  lemma SameCallsSamePairs(n: nat, f: int -> (int, int), g: int -> (int, int))
    requires forall i :: 0 <= i < n ==> f(i) == g(i)
    ensures ListedPairs(n, f) == ListedPairs(n, g)
  {
  }

  /** The out degree of each seed. */
  ghost function Degrees(es: seq<Edge>, seeds: seq<int>): int -> int {
    i => Degree(es, SeedAt(seeds, i))
  }

  /** The distinct nodes within two hops of each seed, not counting the seed. */
  ghost function TwoHops(es: seq<Edge>, seeds: seq<int>): int -> int {
    i => TwoHopCount(es, SeedAt(seeds, i))
  }

  /** The hop count of each pair of seeds, -1 when there is no path. */
  ghost function Paths(es: seq<Edge>, seeds: seq<int>): int -> int {
    i => HopCount(es, SeedAt(seeds, 2 * i), SeedAt(seeds, 2 * i + 1))
  }

  /** The reachable count and the depth from each seed. */
  ghost function Traversals(es: seq<Edge>, seeds: seq<int>): int -> (int, int) {
    i => (Reached(es, SeedAt(seeds, i)), Depth(es, SeedAt(seeds, i)))
  }

  /** Every list says what is true of the edge list itself. */
  ghost predicate IsTruth(a: Answers, es: seq<Edge>, seeds: seq<int>, p: Plan) {
    && a.nodes == |Nodes(es)| && a.edges == |es| && a.plan == p
    && p.CountsMakeSense() && p.neighbour <= |seeds| && p.twoHop <= |seeds| && 2 * p.path <= |seeds| && p.bfs <= |seeds|
    && a.neighbours == Listed(p.neighbour, Degrees(es, seeds))
    && a.twoHop == Listed(p.twoHop, TwoHops(es, seeds))
    && a.shortestPath == Listed(p.path, Paths(es, seeds))
    && a.bfs == ListedPairs(p.bfs, Traversals(es, seeds))
    && p.iterations >= 0 && p.top >= 0 && IsRanking(es, p.damping, p.iterations, p.top, a.pageRank)
  }

  /** The truth, position by position: the seeds from the front, two at a time for a path. */
  lemma TruthMeans(a: Answers, es: seq<Edge>, seeds: seq<int>, p: Plan)
    requires IsTruth(a, es, seeds, p)
    ensures a.nodes == |Nodes(es)| && a.edges == |es| && a.plan == p
    ensures |a.neighbours| == p.neighbour &&
            forall i :: 0 <= i < p.neighbour ==> a.neighbours[i] == Degree(es, seeds[i])
    ensures |a.twoHop| == p.twoHop && forall i :: 0 <= i < p.twoHop ==> a.twoHop[i] == TwoHopCount(es, seeds[i])
    ensures |a.shortestPath| == p.path &&
            forall i :: 0 <= i < p.path ==> a.shortestPath[i] == HopCount(es, seeds[2 * i], seeds[2 * i + 1])
    ensures |a.bfs| == 2 * p.bfs &&
            forall i :: 0 <= i < p.bfs ==>
              a.bfs[2 * i] == Reached(es, seeds[i]) && a.bfs[2 * i + 1] == Depth(es, seeds[i])
    ensures IsRanking(es, p.damping, p.iterations, p.top, a.pageRank)
  {
    hide IsRanking, Degree, TwoHopCount, HopCount, Reached, Depth;
    forall i | 0 <= i < |seeds|
      ensures Degrees(es, seeds)(i) == Degree(es, seeds[i])
      ensures TwoHops(es, seeds)(i) == TwoHopCount(es, seeds[i])
      ensures Traversals(es, seeds)(i) == (Reached(es, seeds[i]), Depth(es, seeds[i]))
    {
      assert SeedAt(seeds, i) == seeds[i];
    }
    forall i | 0 <= i < p.path
      ensures Paths(es, seeds)(i) == HopCount(es, seeds[2 * i], seeds[2 * i + 1])
    {
      assert SeedAt(seeds, 2 * i) == seeds[2 * i] && SeedAt(seeds, 2 * i + 1) == seeds[2 * i + 1];
    }
    forall i | 0 <= i < p.bfs
      ensures a.bfs[2 * i] == Reached(es, seeds[i]) && a.bfs[2 * i + 1] == Depth(es, seeds[i])
    {
      ListedPairsAt(p.bfs, Traversals(es, seeds), i);
    }
  }

  /** What a plan is accepted for, and the first fault it is refused for. */
  lemma CheckMeans(p: Plan)
    ensures p.Check().None? <==>
            && 0 < p.seeds && p.neighbour <= p.seeds && p.twoHop <= p.seeds && p.bfs <= p.seeds
            && 2 * p.path <= p.seeds && 0 < p.iterations && 0.0 < p.damping < 1.0 && 0 < p.top
    ensures p.Check() == Some(NoSeeds) <==> p.seeds <= 0
    ensures p.Check() == Some(TooManyAsked) ==> p.neighbour > p.seeds || p.twoHop > p.seeds || p.bfs > p.seeds
    ensures p.Check() == Some(TooManyPairs) ==> 2 * p.path > p.seeds
    ensures p.Check() == Some(NothingRecorded) ==> p.top <= 0 && p.(top := 1).Check().None?
  {
  }
}
