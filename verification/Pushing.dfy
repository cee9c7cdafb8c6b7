/**
 PageRank as the engines compute it: every node pushes its share along its row into an
 array. Each loop is tied to the pull form of module PageRank.
 */
module Pushing {
  import opened Sets
  import opened EdgeList
  import opened Library
  import opened Csr
  import opened FirstK
  import opened PageRank

  /** The array holds, at each dense index, the rank of the identifier there. */
  ghost predicate Mirrors(array_: seq<real>, rank: Ranks, ids: seq<int>) {
    |array_| == |ids| && forall x :: 0 <= x < |ids| ==> ids[x] in rank && array_[x] == rank[ids[x]]
  }

  /** After the edges in `done`, each entry is what those edges push into that node. */
  ghost predicate Pushes(next: seq<real>, done: seq<Edge>, share: Ranks, ids: seq<int>) {
    |next| == |ids| && forall x :: 0 <= x < |ids| ==> next[x] == Pulled(done, share, ids[x])
  }

  lemma PushSize(next: seq<real>, done: seq<Edge>, share: Ranks, ids: seq<int>)
    requires Pushes(next, done, share, ids)
    ensures |next| == |ids|
  {
  }

  lemma PushStep(next: seq<real>, done: seq<Edge>, share: Ranks, ids: seq<int>, u: int, m: nat)
    requires Increasing(ids) && Pushes(next, done, share, ids) && m < |ids|
    ensures Pushes(next[m := next[m] + At(share, u)], done + [(u, ids[m])], share, ids)
  {
    forall x | 0 <= x < |ids|
      ensures Pulled(done + [(u, ids[m])], share, ids[x])
           == Pulled(done, share, ids[x]) + if x == m then At(share, u) else 0.0
    {
      PulledSnoc(done, (u, ids[m]), share, ids[x]);
    }
  }

  /** One row: the same share goes to every node in it, as often as it is there. */
  method PushRow(next: array<real>, row: seq<int>, share: real, ghost done: seq<Edge>, ghost shares: Ranks,
                 ghost ids: seq<int>, ghost u: int)
    requires Increasing(ids) && Pushes(next[..], done, shares, ids) && share == At(shares, u)
    requires forall j :: 0 <= j < |row| ==> 0 <= row[j] < |ids|
    modifies next
    ensures Pushes(next[..], done + Tagged(u, Names(ids, row)), shares, ids)
  {
    assert done + Tagged(u, Names(ids, row[..0])) == done;
    for j := 0 to |row|
      invariant Pushes(next[..], done + Tagged(u, Names(ids, row[..j])), shares, ids)
    {
      ghost var before, sofar := next[..], done + Tagged(u, Names(ids, row[..j]));
      PushStep(before, sofar, shares, ids, u, row[j]);
      next[row[j]] := next[row[j]] + share;
      assert next[..] == before[row[j] := before[row[j]] + share];
      assert done + Tagged(u, Names(ids, row[..j + 1])) == sofar + [(u, ids[row[j]])];
    }
    assert row[..|row|] == row;
  }

  lemma ShareOfNode(es: seq<Edge>, ranks: Ranks, u: int)
    requires u in ranks && Degree(es, u) > 0
    ensures At(Share(es, ranks), u) == ranks[u] / Degree(es, u) as real
  {
  }

  lemma RowInGraph(g: Graph, es: seq<Edge>, i: int)
    requires IsCsr(g, es) && g.WellFormed() && 0 <= i < |g.ids|
    ensures |g.Neighbours(i)| == Degree(es, g.ids[i])
    ensures g.RowEdges(i + 1) == g.RowEdges(i) + Tagged(g.ids[i], Names(g.ids, g.Neighbours(i)))
  {
    RowsAreInputRows(g, es, i);
  }

  /** What one node does: push along its row, or leave its rank dangling if it has none. */
  method PushNode(g: Graph, i: int, held: real, dangling: real, next: array<real>, ghost es: seq<Edge>,
                  ghost ranks: Ranks)
    returns (more: real)
    requires IsCsr(g, es) && g.WellFormed() && 0 <= i < |g.ids| && g.ids[i] in ranks && held == ranks[g.ids[i]]
    requires Pushes(next[..], g.RowEdges(i), Share(es, ranks), g.ids)
    modifies next
    ensures Pushes(next[..], g.RowEdges(i + 1), Share(es, ranks), g.ids)
    ensures more == dangling + if Degree(es, g.ids[i]) == 0 then held else 0.0
  {
    var out := g.Neighbours(i);
    RowInGraph(g, es, i);
    if |out| == 0 {
      assert g.RowEdges(i + 1) == g.RowEdges(i);
      return dangling + held;
    }
    ShareOfNode(es, ranks, g.ids[i]);
    PushRow(next, out, held / |out| as real, g.RowEdges(i), Share(es, ranks), g.ids, g.ids[i]);
    return dangling;
  }

  /** One pass over the rows. */
  method PushRows(g: Graph, rank: array<real>, next: array<real>, ghost es: seq<Edge>, ghost ranks: Ranks)
    returns (dangling: real)
    requires IsCsr(g, es) && rank != next && Mirrors(rank[..], ranks, g.ids)
    requires Pushes(next[..], [], Share(es, ranks), g.ids)
    modifies next
    ensures Pushes(next[..], es, Share(es, ranks), g.ids)
    ensures dangling == Dangling(es, g.ids, ranks, |g.ids|)
  {
    hide IsCsr, Mirrors, Pushes;
    IsCsrWellFormed(g, es);
    MirrorSize(rank[..], ranks, g.ids);
    dangling := 0.0;
    for i := 0 to |g.ids|
      invariant Mirrors(rank[..], ranks, g.ids)
      invariant Pushes(next[..], g.RowEdges(i), Share(es, ranks), g.ids)
      invariant dangling == Dangling(es, g.ids, ranks, i)
    {
      MirrorsAt(rank[..], ranks, g.ids, i);
      dangling := PushNode(g, i, rank[i], dangling, next, es, ranks);
    }
    BuildLosesNothing(g, es);
    SameEdgesSamePushes(next[..], g.RowEdges(|g.ids|), es, Share(es, ranks), g.ids);
  }

  lemma MirrorSize(array_: seq<real>, rank: Ranks, ids: seq<int>)
    requires Mirrors(array_, rank, ids)
    ensures |array_| == |ids|
  {
  }

  lemma MirrorsAt(array_: seq<real>, rank: Ranks, ids: seq<int>, i: nat)
    requires Mirrors(array_, rank, ids) && i < |ids|
    ensures ids[i] in rank && array_[i] == rank[ids[i]]
  {
  }

  lemma SameEdgesSamePushes(next: seq<real>, done: seq<Edge>, es: seq<Edge>, share: Ranks, ids: seq<int>)
    requires multiset(done) == multiset(es) && Pushes(next, done, share, ids)
    ensures Pushes(next, es, share, ids)
  {
    forall x | 0 <= x < |ids|
      ensures Pulled(done, share, ids[x]) == Pulled(es, share, ids[x])
    {
      SameEdgesSamePull(done, es, share, ids[x]);
    }
  }

  method Clear(next: array<real>, ghost share: Ranks, ghost ids: seq<int>)
    requires next.Length == |ids|
    modifies next
    ensures Pushes(next[..], [], share, ids)
  {
    for i := 0 to next.Length
      invariant forall k :: 0 <= k < i ==> next[k] == 0.0
    {
      next[i] := 0.0;
    }
  }

  /** What every node is given, by the formula in the code. */
  method BaseOf(n: real, damping: real, dangling: real, ghost es: seq<Edge>, ghost ids: seq<int>, ghost ranks: Ranks)
    returns (base: real)
    requires |ids| > 0 && n == |ids| as real && dangling == Dangling(es, ids, ranks, |ids|)
    ensures base == Base(es, ids, Times(damping), ranks)
  {
    hide Times, Dangling;
    var spread := damping * dangling;
    base := (1.0 - damping) / n + spread / n;
    AddQuotients(n, 1.0 - damping, spread);
    assert Times(damping)(1.0) == damping by { TimesAt(damping, 1.0); }
    assert Times(damping)(dangling) == spread by { TimesAt(damping, dangling); }
  }

  lemma TimesAt(damping: real, x: real)
    ensures Times(damping)(x) == damping * x
  {
  }

  method Damped(base: real, damping: real, arrived: real) returns (rank: real)
    ensures rank == base + Times(damping)(arrived)
  {
    rank := base + damping * arrived;
  }

  /** Damps what arrived and adds what every node is given. */
  method Damp(next: array<real>, damping: real, base: real, ghost es: seq<Edge>, ghost share: Ranks,
              ghost ids: seq<int>)
    requires Pushes(next[..], es, share, ids)
    modifies next
    ensures Mirrors(next[..], Spread(es, ids, Times(damping), share, base), ids)
  {
    ghost var damp := Times(damping);
    for i := 0 to next.Length
      invariant forall k :: 0 <= k < i ==> next[k] == base + damp(Pulled(es, share, ids[k]))
      invariant forall k :: i <= k < next.Length ==> next[k] == Pulled(es, share, ids[k])
    {
      next[i] := Damped(base, damping, next[i]);
    }
    assert forall x :: 0 <= x < |ids| ==> ids[x] in Elems(ids);
  }

  /** The iterations, over two arrays that swap roles. */
  method RunIterations(g: Graph, iterations: nat, damping: real, ghost es: seq<Edge>) returns (ranks: seq<real>)
    requires IsCsr(g, es) && |g.ids| > 0
    ensures Mirrors(ranks, Iterate(es, g.ids, Times(damping), iterations), g.ids)
  {
    var n := |g.ids|;
    var rank := new real[n](_ => 1.0 / n as real);
    var next := new real[n](_ => 0.0);
    assert Mirrors(rank[..], Iterate(es, g.ids, Times(damping), 0), g.ids);
    for k := 0 to iterations
      invariant rank.Length == next.Length == n && rank != next && fresh(rank) && fresh(next)
      invariant Mirrors(rank[..], Iterate(es, g.ids, Times(damping), k), g.ids)
    {
      ghost var current := Iterate(es, g.ids, Times(damping), k);
      Clear(next, Share(es, current), g.ids);
      var dangling := PushRows(g, rank, next, es, current);
      var base := BaseOf(n as real, damping, dangling, es, g.ids, current);
      Damp(next, damping, base, es, Share(es, current), g.ids);
      rank, next := next, rank;
    }
    ranks := rank[..];
  }

  // ----- Ranking

  /** Whether `a` comes before `b`: higher rank first, then the earlier position. */
  ghost predicate Outranks(rank: seq<real>, a: int, b: int)
    requires 0 <= a < |rank| && 0 <= b < |rank|
  {
    rank[a] > rank[b] || (rank[a] == rank[b] && a < b)
  }

  /** The comparators in use order by rank, and on equal ranks at most agree with position. */
  ghost predicate Comparator(less: (int, int) -> bool, rank: seq<real>) {
    forall a, b :: 0 <= a < |rank| && 0 <= b < |rank| ==>
      && (rank[a] > rank[b] ==> less(a, b))
      && (less(a, b) ==> Outranks(rank, a, b))
  }

  /** Rank first, then identifier, as the reference and the Rust engine compare. */
  function RankThenId(ids: seq<int>, rank: seq<real>): (less: (int, int) -> bool)
    requires |rank| == |ids| && Increasing(ids)
    ensures Comparator(less, rank)
  {
    (a: int, b: int) =>
      && 0 <= a < |rank| && 0 <= b < |rank|
      && if rank[a] != rank[b] then rank[a] > rank[b] else ids[a] < ids[b]
  }

  /** A stable sort of the positions `0..n`. */
  method StableOrder(ghost rank: seq<real>, n: nat, less: (int, int) -> bool) returns (order: seq<int>)
    requires |rank| == n && Comparator(less, rank)
    ensures |order| == n && forall p :: 0 <= p < n ==> 0 <= order[p] < n
    ensures forall p, q :: 0 <= p < q < n ==> Outranks(rank, order[p], order[q])
  {
    order := [];
    for i := 0 to n
      invariant |order| == i && forall p :: 0 <= p < i ==> 0 <= order[p] < i
      invariant forall p, q :: 0 <= p < q < i ==> Outranks(rank, order[p], order[q])
    {
      var at := i;
      while at > 0 && less(i, order[at - 1])
        invariant 0 <= at <= i
        invariant forall p :: at <= p < i ==> Outranks(rank, i, order[p])
      {
        at := at - 1;
      }
      order := order[..at] + [i] + order[at..];
    }
  }

  /** The identifiers of the first `top` positions. */
  method FirstIds(ids: seq<int>, order: seq<int>, top: nat) returns (out: seq<int>)
    requires top <= |order| && forall p :: 0 <= p < |order| ==> 0 <= order[p] < |ids|
    ensures |out| == top && forall p :: 0 <= p < top ==> out[p] == ids[order[p]]
  {
    out := [];
    for i := 0 to top
      invariant |out| == i && forall p :: 0 <= p < i ==> out[p] == ids[order[p]]
    {
      out := out + [ids[order[i]]];
    }
  }

  lemma RankOrderIsScoreOrder(ranks: Ranks, ids: seq<int>, rank: seq<real>, order: seq<int>)
    requires Increasing(ids) && Elems(ids) == ranks.Keys && Mirrors(rank, ranks, ids)
    requires |order| == |ids| && forall p :: 0 <= p < |order| ==> 0 <= order[p] < |ids|
    requires forall p, q :: 0 <= p < q < |order| ==> Outranks(rank, order[p], order[q])
    ensures Ordered(Scored(ranks), Names(ids, order)) && Elems(Names(ids, order)) == ranks.Keys
  {
    var score, all := Scored(ranks), Names(ids, order);
    forall p, q | 0 <= p < q < |all|
      ensures Before(score, all[p], all[q])
    {
      assert Outranks(rank, order[p], order[q]);
    }
    assert score.Keys == ranks.Keys;
    OrderedSize(score, all);
    IncreasingSize(ids);
    SubsetSize(Elems(all), score.Keys);
  }

  lemma FirstOfOrder(ranks: Ranks, top: nat, ids: seq<int>, rank: seq<real>, order: seq<int>, out: seq<int>)
    requires Increasing(ids) && Elems(ids) == ranks.Keys && Mirrors(rank, ranks, ids)
    requires |order| == |ids| && forall p :: 0 <= p < |order| ==> 0 <= order[p] < |ids|
    requires forall p, q :: 0 <= p < q < |order| ==> Outranks(rank, order[p], order[q])
    requires |out| == Min(top, |ids|) && forall p :: 0 <= p < |out| ==> out[p] == ids[order[p]]
    ensures IsFirst(Scored(ranks), out, top)
  {
    RankOrderIsScoreOrder(ranks, ids, rank, order);
    FirstIsPrefixOfSorted(Scored(ranks), Names(ids, order), out, top);
    assert out == Names(ids, order)[..Min(top, |ids|)];
  }

  /** The first identifiers in that order are the ranking. */
  lemma OrderIsRanking(es: seq<Edge>, damping: real, iterations: nat, top: nat, ids: seq<int>,
                       rank: seq<real>, order: seq<int>, out: seq<int>)
    requires |ids| > 0 && ListsNodes(ids, es)
    requires Mirrors(rank, Iterate(es, ids, Times(damping), iterations), ids)
    requires |order| == |ids| && forall p :: 0 <= p < |order| ==> 0 <= order[p] < |ids|
    requires forall p, q :: 0 <= p < q < |order| ==> Outranks(rank, order[p], order[q])
    requires |out| == Min(top, |ids|) && forall p :: 0 <= p < |out| ==> out[p] == ids[order[p]]
    ensures IsRanking(es, damping, iterations, top, out)
  {
    var ranks := Iterate(es, ids, Times(damping), iterations);
    FirstOfOrder(ranks, top, ids, rank, order, out);
    HighestIsRanking(es, ids, damping, iterations, top, out);
  }

  /** The whole operation: the reference and the Rust engine run the same statements over the same rows. */
  method HighestRanked(g: Graph, iterations: nat, damping: real, top: nat, ghost es: seq<Edge>) returns (out: seq<int>)
    requires IsCsr(g, es)
    ensures IsRanking(es, damping, iterations, top, out)
  {
    var n := |g.ids|;
    if n == 0 {
      HighestIsRanking(es, g.ids, damping, iterations, top, []);
      return [];
    }
    var rank := RunIterations(g, iterations, damping, es);
    var order := StableOrder(rank, n, RankThenId(g.ids, rank));
    out := FirstIds(g.ids, order, Min(top, n));
    OrderIsRanking(es, damping, iterations, top, g.ids, rank, order, out);
  }
}
