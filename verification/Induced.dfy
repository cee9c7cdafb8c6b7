/** The graph a machine that cannot hold the whole one is given: the lowest identifiers and the edges between them. */
module Induced {
  import opened Sets
  import opened Counting
  import opened Digraph
  import opened EdgeList
  import opened Library
  import opened Options

  datatype SubgraphError = NoNodesAsked | NoEdgesKept

  /** The edges with both ends kept, in order. */
  function Between(es: seq<Edge>, keep: set<int>): seq<Edge> {
    if es == [] then [] else
      var e := es[|es| - 1];
      Between(es[..|es| - 1], keep) + if e.0 in keep && e.1 in keep then [e] else []
  }

  /** `keep` is the `n` lowest of the identifiers in `all`. */
  ghost predicate AreLowest(keep: set<int>, all: set<int>, n: nat) {
    && keep <= all && |keep| == n
    && forall a, b :: a in keep && b in all && b !in keep ==> a < b
  }

  method LowestIds(seen: set<int>, n: nat) returns (keep: set<int>)
    requires n < |seen|
    ensures AreLowest(keep, seen, n)
  {
    var unsorted := ListInAnyOrder(seen);
    var ids := Sort(unsorted);
    SortedDistinct(unsorted, ids);
    IncreasingSize(ids);
    keep := {};
    for i := 0 to n
      invariant keep == Elems(ids[..i])
    {
      ElemsUpTo(ids, i);
      keep := keep + {ids[i]};
    }
    FirstAreLowest(ids, n);
  }

  lemma FirstAreLowest(ids: seq<int>, n: nat)
    requires Increasing(ids) && n <= |ids|
    ensures AreLowest(Elems(ids[..n]), Elems(ids), n)
  {
    IncreasingSize(ids[..n]);
    forall a, b | a in Elems(ids[..n]) && b in Elems(ids) && b !in Elems(ids[..n])
      ensures a < b
    {
      var i :| 0 <= i < n && ids[..n][i] == a;
      var j :| 0 <= j < |ids| && ids[j] == b;
      assert forall p :: 0 <= p < n ==> ids[..n][p] == ids[p];
      assert j >= n;
      assert ids[i] < ids[j];
    }
  }

  lemma BetweenUpTo(es: seq<Edge>, k: nat, keep: set<int>)
    requires k < |es|
    ensures Between(es[..k + 1], keep)
         == Between(es[..k], keep) + if es[k].0 in keep && es[k].1 in keep then [es[k]] else []
  {
    assert es[..k + 1][..k] == es[..k];
  }

  lemma NodesAppend(es: seq<Edge>, e: Edge)
    ensures Nodes(es + [e]) == Nodes(es) + {e.0, e.1}
  {
    assert forall f :: f in es + [e] <==> f in es || f == e;
  }

  lemma PairsSnoc(out: seq<u32>, from: u32, to: u32)
    requires |out| % 2 == 0
    ensures Pairs(out + [from, to]) == Pairs(out) + [(from, to)]
  {
  }

  method KeepEdges(edges: seq<u32>, keep: set<int>) returns (out: seq<u32>, kept: set<int>)
    requires |edges| % 2 == 0
    ensures |out| % 2 == 0 && Pairs(out) == Between(Pairs(edges), keep) && kept == Nodes(Pairs(out))
  {
    ghost var es := Pairs(edges);
    out, kept := [], {};
    for k := 0 to |edges| / 2
      invariant |out| % 2 == 0 && Pairs(out) == Between(es[..k], keep) && kept == Nodes(Pairs(out))
    {
      BetweenUpTo(es, k, keep);
      var from, to := edges[2 * k], edges[2 * k + 1];
      if from !in keep {
        continue;
      }
      if to !in keep {
        continue;
      }
      PairsSnoc(out, from, to);
      NodesAppend(Pairs(out), (from, to));
      out := out + [from, to];
      kept := kept + {from};
      kept := kept + {to};
    }
    assert es[..|edges| / 2] == es;
  }

  /** The whole list when it is small enough, else the induced edges and the nodes left with one. */
  method Subgraph(edges: seq<u32>, n: int) returns (r: Result<(nat, seq<u32>), SubgraphError>, ghost keep: set<int>)
    requires |edges| % 2 == 0
    ensures n <= 0 ==> r == Err(NoNodesAsked)
    ensures n > 0 && n >= |Nodes(Pairs(edges))| ==>
              r == Ok((|Nodes(Pairs(edges))|, edges)) && keep == Nodes(Pairs(edges))
    ensures 0 < n < |Nodes(Pairs(edges))| ==>
              AreLowest(keep, Nodes(Pairs(edges)), n) &&
              (r.Err? <==> Between(Pairs(edges), keep) == []) && (r.Err? ==> r == Err(NoEdgesKept))
    ensures r.Ok? ==>
              && |r.value.1| % 2 == 0 && Pairs(r.value.1) == Between(Pairs(edges), keep)
              && r.value.0 == |Nodes(Pairs(r.value.1))|
  {
    keep := {};
    if n <= 0 {
      return Err(NoNodesAsked), keep;
    }
    NodesOfPairs(edges);
    var seen := CollectIds(edges);
    if n >= |seen| {
      KeepingAll(Pairs(edges), Nodes(Pairs(edges)));
      return Ok((|seen|, edges)), seen;
    }
    var lowest := LowestIds(seen, n);
    var out, kept := KeepEdges(edges, lowest);
    if |out| == 0 {
      return Err(NoEdgesKept), lowest;
    }
    return Ok((|kept|, out)), lowest;
  }

  lemma {:induction false} KeepingAll(es: seq<Edge>, keep: set<int>)
    requires Nodes(es) <= keep
    ensures Between(es, keep) == es
    decreases |es|
  {
    if es != [] {
      var front, e := es[..|es| - 1], es[|es| - 1];
      assert es == front + [e];
      NodesAppend(front, e);
      KeepingAll(front, keep);
    }
  }

  // ----- What an induced graph keeps

  lemma {:induction false} BetweenCounts(es: seq<Edge>, keep: set<int>, e: Edge)
    ensures multiset(Between(es, keep))[e] == if e.0 in keep && e.1 in keep then multiset(es)[e] else 0
    decreases |es|
  {
    if es != [] {
      var front, last := es[..|es| - 1], es[|es| - 1];
      assert es == front + [last];
      BetweenCounts(front, keep, e);
    }
  }

  /** An undirected graph stays undirected: every edge as often as the one back. */
  lemma StaysUndirected(es: seq<Edge>, keep: set<int>)
    requires forall u, v :: multiset(es)[(u, v)] == multiset(es)[(v, u)]
    ensures forall u, v :: multiset(Between(es, keep))[(u, v)] == multiset(Between(es, keep))[(v, u)]
  {
    forall u, v
      ensures multiset(Between(es, keep))[(u, v)] == multiset(Between(es, keep))[(v, u)]
    {
      BetweenCounts(es, keep, (u, v));
      BetweenCounts(es, keep, (v, u));
    }
  }

  lemma {:induction false} BetweenPrefix(es: seq<Edge>, k: nat, keep: set<int>)
    requires k <= |es|
    ensures Between(es[..k], keep) <= Between(es, keep)
    decreases |es| - k
  {
    if k < |es| {
      BetweenUpTo(es, k, keep);
      BetweenPrefix(es, k + 1, keep);
    } else {
      assert es[..k] == es;
    }
  }

  ghost function KeptAt(es: seq<Edge>, keep: set<int>): int -> bool {
    i => 0 <= i < |es| && es[i].0 in keep && es[i].1 in keep
  }

  lemma {:induction false} BetweenIsCounted(es: seq<Edge>, k: nat, keep: set<int>)
    requires k <= |es|
    ensures |Between(es[..k], keep)| == HowMany(k, KeptAt(es, keep))
  {
    hide HowMany;
    if k == 0 {
      HowManyNext(0, KeptAt(es, keep));
    } else {
      BetweenIsCounted(es, k - 1, keep);
      HowManyNext(k - 1, KeptAt(es, keep));
      BetweenUpTo(es, k - 1, keep);
    }
  }

  /** The order is kept: an edge that survives comes behind as many as survive of those before it. */
  lemma KeptInOrder(es: seq<Edge>, keep: set<int>, k: nat)
    requires k < |es| && es[k].0 in keep && es[k].1 in keep
    ensures var before := |set i: nat | i < k && es[i].0 in keep && es[i].1 in keep|;
            before < |Between(es, keep)| && Between(es, keep)[before] == es[k]
  {
    BetweenIsCounted(es, k, keep);
    assert Where(k, KeptAt(es, keep)) == set i: nat | i < k && es[i].0 in keep && es[i].1 in keep;
    BetweenUpTo(es, k, keep);
    BetweenPrefix(es, k + 1, keep);
  }

  /** Exactly the edges with both ends kept survive, and no path gets shorter by losing the rest. */
  lemma DistancesNeverShorten(es: seq<Edge>, keep: set<int>, s: int, t: int)
    ensures ArcsOf(Between(es, keep)) == set e | e in ArcsOf(es) && e.0 in keep && e.1 in keep
    ensures HopCount(Between(es, keep), s, t) == -1
         || 0 <= HopCount(es, s, t) <= HopCount(Between(es, keep), s, t)
  {
    forall e
      ensures e in Between(es, keep) <==> e in es && e.0 in keep && e.1 in keep
    {
      BetweenCounts(es, keep, e);
      assert e in Between(es, keep) <==> e in multiset(Between(es, keep));
      assert e in es <==> e in multiset(es);
    }
    FewerArcsNeverShorten(ArcsOf(Between(es, keep)), ArcsOf(es), s, t);
  }

  method MaxId(edges: seq<u32>) returns (top: int)
    ensures forall i :: 0 <= i < |edges| ==> edges[i] <= top
    ensures if edges == [] then top == 0 else exists i :: 0 <= i < |edges| && edges[i] == top
  {
    top := 0;
    for i := 0 to |edges|
      invariant forall k :: 0 <= k < i ==> edges[k] <= top
      invariant top == 0 || exists k :: 0 <= k < i && edges[k] == top
      invariant i == 0 ==> top == 0
    {
      if edges[i] > top {
        top := edges[i];
      }
    }
    if |edges| > 0 && top == 0 {
      assert edges[0] == top;
    }
  }
}
