/**
 PageRank in exact arithmetic, written the way it is defined: every node pulls its rank in
 over the edges that end at it. The engines push instead. What is proved about the pull form
 is that it conserves the total, bounds every rank from below, and does not depend on the
 order of the edges.
 */
module PageRank {
  import opened Sets
  import opened EdgeList
  import opened Library
  import opened Csr
  import opened FirstK

  type Ranks = map<int, real>

  ghost function At(m: Ranks, u: int): real {
    if u in m then m[u] else 0.0
  }

  /** What each node gives every edge leaving it. */
  ghost function Share(es: seq<Edge>, rank: Ranks): Ranks {
    map u | u in rank :: if Degree(es, u) == 0 then 0.0 else rank[u] / Degree(es, u) as real
  }

  /** The shares arriving at `v`, one for every edge that ends there. */
  ghost function Pulled(es: seq<Edge>, share: Ranks, v: int): real {
    if es == [] then 0.0 else
      var e := es[|es| - 1];
      Pulled(es[..|es| - 1], share, v) + if e.1 == v then At(share, e.0) else 0.0
  }

  ghost function Total(ids: seq<int>, rank: Ranks, i: nat): real
    requires i <= |ids|
  {
    if i == 0 then 0.0 else Total(ids, rank, i - 1) + At(rank, ids[i - 1])
  }

  /** The rank held by the first `i` nodes that have no outgoing edge. */
  ghost function Dangling(es: seq<Edge>, ids: seq<int>, rank: Ranks, i: nat): real
    requires i <= |ids|
  {
    if i == 0 then 0.0 else
      Dangling(es, ids, rank, i - 1) + if Degree(es, ids[i - 1]) == 0 then At(rank, ids[i - 1]) else 0.0
  }

  /** Multiplying by the damping factor. */
  function Times(damping: real): real -> real {
    x => damping * x
  }

  ghost predicate Linear(damp: real -> real) {
    forall a, b :: AddsOver(damp, a, b)
  }

  ghost predicate AddsOver(damp: real -> real, a: real, b: real) {
    damp(a + b) == damp(a) + damp(b)
  }

  /** What every node is given: the undamped part and the dangling mass, evenly spread. */
  ghost function Base(es: seq<Edge>, ids: seq<int>, damp: real -> real, rank: Ranks): real
    requires |ids| > 0
  {
    ((1.0 - damp(1.0)) + damp(Dangling(es, ids, rank, |ids|))) / |ids| as real
  }

  ghost function Spread(es: seq<Edge>, ids: seq<int>, damp: real -> real, share: Ranks, base: real): Ranks {
    map v | v in Elems(ids) :: base + damp(Pulled(es, share, v))
  }

  ghost function Step(es: seq<Edge>, ids: seq<int>, damp: real -> real, rank: Ranks): Ranks
    requires |ids| > 0
  {
    Spread(es, ids, damp, Share(es, rank), Base(es, ids, damp, rank))
  }

  ghost function Iterate(es: seq<Edge>, ids: seq<int>, damp: real -> real, iterations: nat): (rank: Ranks)
    requires |ids| > 0
    ensures rank.Keys == Elems(ids)
  {
    if iterations == 0 then map v | v in Elems(ids) :: 1.0 / |ids| as real
    else Step(es, ids, damp, Iterate(es, ids, damp, iterations - 1))
  }

  // ----- Arithmetic kept apart from the sums it is about

  lemma TimesQuotient(n: real, a: real)
    requires n != 0.0
    ensures n * (a / n) == a
  {
  }

  lemma AddQuotients(n: real, a: real, b: real)
    requires n != 0.0
    ensures a / n + b / n == (a + b) / n
  {
  }

  lemma {:induction false} RepeatIsProduct(n: nat, x: real)
    ensures Repeat(n, x) == n as real * x
  {
    if n > 0 {
      RepeatIsProduct(n - 1, x);
      assert n as real * x == (n - 1) as real * x + x;
    }
  }

  lemma RepeatQuotient(n: nat, a: real)
    requires n > 0
    ensures Repeat(n, a / n as real) == a
  {
    RepeatIsProduct(n, a / n as real);
    TimesQuotient(n as real, a);
  }

  // ----- Every share sent arrives somewhere

  ghost function Sent(es: seq<Edge>, share: Ranks): real {
    if es == [] then 0.0 else Sent(es[..|es| - 1], share) + At(share, es[|es| - 1].0)
  }

  ghost function Arriving(es: seq<Edge>, share: Ranks, ids: seq<int>, i: nat): real
    requires i <= |ids|
  {
    if i == 0 then 0.0 else Arriving(es, share, ids, i - 1) + Pulled(es, share, ids[i - 1])
  }

  ghost function Repeat(n: int, x: real): real {
    if n <= 0 then 0.0 else Repeat(n - 1, x) + x
  }

  ghost function Leaving(es: seq<Edge>, share: Ranks, ids: seq<int>, i: nat): real
    requires i <= |ids|
  {
    if i == 0 then 0.0 else
      Leaving(es, share, ids, i - 1) + Repeat(Degree(es, ids[i - 1]), At(share, ids[i - 1]))
  }

  lemma PulledSnoc(es: seq<Edge>, e: Edge, share: Ranks, v: int)
    ensures Pulled(es + [e], share, v) == Pulled(es, share, v) + if e.1 == v then At(share, e.0) else 0.0
  {
    assert (es + [e])[..|es|] == es;
  }

  lemma {:induction false} ArrivingSnoc(es: seq<Edge>, e: Edge, share: Ranks, ids: seq<int>, i: nat)
    requires i <= |ids| && Increasing(ids)
    ensures Arriving(es + [e], share, ids, i)
         == Arriving(es, share, ids, i) + if e.1 in ids[..i] then At(share, e.0) else 0.0
  {
    if i > 0 {
      ArrivingSnoc(es, e, share, ids, i - 1);
      PulledSnoc(es, e, share, ids[i - 1]);
      InNextSlice(ids, i, e.1);
    }
  }

  lemma {:induction false} LeavingSnoc(es: seq<Edge>, e: Edge, share: Ranks, ids: seq<int>, i: nat)
    requires i <= |ids| && Increasing(ids)
    ensures Leaving(es + [e], share, ids, i)
         == Leaving(es, share, ids, i) + if e.0 in ids[..i] then At(share, e.0) else 0.0
  {
    if i > 0 {
      LeavingSnoc(es, e, share, ids, i - 1);
      InNextSlice(ids, i, e.0);
      var u := ids[i - 1];
      RowSnoc(es, e, u);
    }
  }

  lemma {:induction false} NoEdges(share: Ranks, ids: seq<int>, i: nat)
    requires i <= |ids|
    ensures Arriving([], share, ids, i) == 0.0 && Leaving([], share, ids, i) == 0.0
  {
    if i > 0 {
      NoEdges(share, ids, i - 1);
    }
  }

  lemma {:induction false} SentIsArrivingAndLeaving(es: seq<Edge>, share: Ranks, ids: seq<int>)
    requires Increasing(ids) && forall e :: e in es ==> e.0 in ids && e.1 in ids
    ensures Arriving(es, share, ids, |ids|) == Sent(es, share) == Leaving(es, share, ids, |ids|)
    decreases |es|
  {
    if es == [] {
      NoEdges(share, ids, |ids|);
    } else {
      var rest, e := es[..|es| - 1], es[|es| - 1];
      assert es == rest + [e];
      SentIsArrivingAndLeaving(rest, share, ids);
      ArrivingSnoc(rest, e, share, ids, |ids|);
      LeavingSnoc(rest, e, share, ids, |ids|);
      assert ids[..|ids|] == ids;
    }
  }

  lemma {:induction false} SharesAreTheRank(es: seq<Edge>, rank: Ranks, ids: seq<int>, i: nat)
    requires i <= |ids| && Elems(ids) == rank.Keys
    ensures Leaving(es, Share(es, rank), ids, i) + Dangling(es, ids, rank, i) == Total(ids, rank, i)
  {
    if i > 0 {
      SharesAreTheRank(es, rank, ids, i - 1);
      var u := ids[i - 1];
      assert u in Elems(ids);
      if Degree(es, u) != 0 {
        RepeatQuotient(Degree(es, u), rank[u]);
      }
    }
  }

  // ----- Conservation

  lemma {:induction false} SpreadTotal(es: seq<Edge>, ids: seq<int>, damp: real -> real, share: Ranks, base: real,
                                       i: nat)
    requires i <= |ids| && Linear(damp)
    ensures Total(ids, Spread(es, ids, damp, share, base), i) == Repeat(i, base) + damp(Arriving(es, share, ids, i))
  {
    if i == 0 {
      assert AddsOver(damp, 0.0, 0.0);
    } else {
      SpreadTotal(es, ids, damp, share, base, i - 1);
      assert ids[i - 1] in Elems(ids);
      assert AddsOver(damp, Arriving(es, share, ids, i - 1), Pulled(es, share, ids[i - 1]));
    }
  }

  lemma ArrivingIsNotDangling(es: seq<Edge>, ids: seq<int>, rank: Ranks)
    requires ListsNodes(ids, es) && Nodes(es) == rank.Keys
    ensures Dangling(es, ids, rank, |ids|) + Arriving(es, Share(es, rank), ids, |ids|) == Total(ids, rank, |ids|)
  {
    forall e | e in es
      ensures e.0 in ids && e.1 in ids
    {
      assert e.0 in Elems(ids) && e.1 in Elems(ids);
    }
    SentIsArrivingAndLeaving(es, Share(es, rank), ids);
    SharesAreTheRank(es, rank, ids, |ids|);
  }

  lemma StepConserves(es: seq<Edge>, ids: seq<int>, damp: real -> real, rank: Ranks)
    requires |ids| > 0 && ListsNodes(ids, es) && Nodes(es) == rank.Keys && Linear(damp)
    requires Total(ids, rank, |ids|) == 1.0
    ensures Total(ids, Step(es, ids, damp, rank), |ids|) == 1.0
  {
    var dangling, arriving := Dangling(es, ids, rank, |ids|), Arriving(es, Share(es, rank), ids, |ids|);
    ArrivingIsNotDangling(es, ids, rank);
    assert AddsOver(damp, dangling, arriving);
    RepeatQuotient(|ids|, (1.0 - damp(1.0)) + damp(dangling));
    SpreadTotal(es, ids, damp, Share(es, rank), Base(es, ids, damp, rank), |ids|);
  }

  lemma OverItself(n: real)
    requires n != 0.0
    ensures n / n == 1.0
  {
  }

  lemma {:induction false} StartTotalIsOne(ids: seq<int>, rank: Ranks, i: nat)
    requires |ids| > 0 && i <= |ids| && rank == map v | v in Elems(ids) :: 1.0 / |ids| as real
    ensures Total(ids, rank, i) == i as real / |ids| as real
  {
    if i > 0 {
      StartTotalIsOne(ids, rank, i - 1);
      assert ids[i - 1] in Elems(ids);
      AddQuotients(|ids| as real, (i - 1) as real, 1.0);
    }
  }

  /** However many iterations are run, the ranks add up to one. */
  lemma {:induction false} RanksAddUpToOne(es: seq<Edge>, ids: seq<int>, damp: real -> real, iterations: nat)
    requires |ids| > 0 && ListsNodes(ids, es) && Linear(damp)
    ensures Total(ids, Iterate(es, ids, damp, iterations), |ids|) == 1.0
  {
    if iterations == 0 {
      StartTotalIsOne(ids, Iterate(es, ids, damp, 0), |ids|);
      OverItself(|ids| as real);
    } else {
      hide Total, Step, Linear;
      RanksAddUpToOne(es, ids, damp, iterations - 1);
      StepConserves(es, ids, damp, Iterate(es, ids, damp, iterations - 1));
    }
  }

  // ----- No rank falls below the floor

  lemma {:induction false} PulledNotNegative(es: seq<Edge>, share: Ranks, v: int)
    requires forall u :: u in share ==> share[u] >= 0.0
    ensures Pulled(es, share, v) >= 0.0
    decreases |es|
  {
    if es != [] {
      PulledNotNegative(es[..|es| - 1], share, v);
    }
  }

  lemma {:induction false} DanglingNotNegative(es: seq<Edge>, ids: seq<int>, rank: Ranks, i: nat)
    requires i <= |ids| && forall u :: u in rank ==> rank[u] >= 0.0
    ensures Dangling(es, ids, rank, i) >= 0.0
  {
    if i > 0 {
      DanglingNotNegative(es, ids, rank, i - 1);
    }
  }

  lemma QuotientNotNegative(a: real, b: real)
    requires a >= 0.0 && b > 0.0
    ensures a / b >= 0.0
  {
  }

  lemma StepAboveFloor(es: seq<Edge>, ids: seq<int>, damp: real -> real, rank: Ranks)
    requires |ids| > 0 && AllAbove(rank, 0.0)
    requires forall x :: x >= 0.0 ==> damp(x) >= 0.0
    ensures AllAbove(Step(es, ids, damp, rank), (1.0 - damp(1.0)) / |ids| as real)
  {
    var share := Share(es, rank);
    forall u | u in share
      ensures share[u] >= 0.0
    {
      if Degree(es, u) != 0 {
        QuotientNotNegative(rank[u], Degree(es, u) as real);
      }
    }
    forall v | v in Elems(ids)
      ensures Pulled(es, share, v) >= 0.0
    {
      PulledNotNegative(es, share, v);
    }
    DanglingNotNegative(es, ids, rank, |ids|);
    QuotientNotNegative(damp(Dangling(es, ids, rank, |ids|)), |ids| as real);
    AddQuotients(|ids| as real, 1.0 - damp(1.0), damp(Dangling(es, ids, rank, |ids|)));
  }

  ghost predicate AllAbove(rank: Ranks, floor: real) {
    forall u :: u in rank ==> rank[u] >= floor
  }

  lemma StartAboveFloor(ids: seq<int>, damp: real -> real)
    requires |ids| > 0 && 0.0 <= damp(1.0) <= 1.0
    ensures 1.0 / |ids| as real >= (1.0 - damp(1.0)) / |ids| as real >= 0.0
  {
    var n := |ids| as real;
    QuotientNotNegative(1.0 - damp(1.0), n);
    AddQuotients(n, 1.0 - damp(1.0), damp(1.0));
    QuotientNotNegative(damp(1.0), n);
  }

  /** Every node keeps at least its part of what is not passed along. */
  lemma {:induction false} RanksAboveFloor(es: seq<Edge>, ids: seq<int>, damp: real -> real, iterations: nat)
    requires |ids| > 0 && damp(1.0) <= 1.0
    requires forall x :: x >= 0.0 ==> damp(x) >= 0.0
    ensures AllAbove(Iterate(es, ids, damp, iterations), (1.0 - damp(1.0)) / |ids| as real)
  {
    StartAboveFloor(ids, damp);
    if iterations > 0 {
      RanksAboveFloor(es, ids, damp, iterations - 1);
      var rank := Iterate(es, ids, damp, iterations - 1);
      assert AllAbove(rank, 0.0);
      StepAboveFloor(es, ids, damp, rank);
    }
  }

  // ----- The order of the edges does not matter

  function Without(es: seq<Edge>, k: nat): seq<Edge>
    requires k < |es|
  {
    es[..k] + es[k + 1..]
  }

  lemma {:induction false} PulledWithout(es: seq<Edge>, share: Ranks, v: int, k: nat)
    requires k < |es|
    ensures Pulled(es, share, v) == Pulled(Without(es, k), share, v) + if es[k].1 == v then At(share, es[k].0) else 0.0
    decreases |es|
  {
    var rest, e := es[..|es| - 1], es[|es| - 1];
    if k == |es| - 1 {
      assert Without(es, k) == rest;
    } else {
      PulledWithout(rest, share, v, k);
      assert Without(es, k) == Without(rest, k) + [e];
      PulledSnoc(Without(rest, k), e, share, v);
    }
  }

  lemma {:induction false} DegreeWithout(es: seq<Edge>, u: int, k: nat)
    requires k < |es|
    ensures Degree(es, u) == Degree(Without(es, k), u) + if es[k].0 == u then 1 else 0
    decreases |es|
  {
    var rest, e := es[..|es| - 1], es[|es| - 1];
    if k == |es| - 1 {
      assert Without(es, k) == rest;
    } else {
      DegreeWithout(rest, u, k);
      assert Without(es, k) == Without(rest, k) + [e];
      RowSnoc(Without(rest, k), e, u);
    }
  }

  /** Takes the last edge of `es` out of both lists, wherever `fs` has it. */
  lemma MatchLast(es: seq<Edge>, fs: seq<Edge>) returns (k: nat)
    requires es != [] && multiset(es) == multiset(fs)
    ensures k < |fs| && fs[k] == es[|es| - 1]
    ensures multiset(es[..|es| - 1]) == multiset(Without(fs, k))
  {
    var rest, e := es[..|es| - 1], es[|es| - 1];
    assert es == rest + [e];
    assert e in multiset(fs);
    k :| 0 <= k < |fs| && fs[k] == e;
    assert fs == fs[..k] + [e] + fs[k + 1..];
    assert multiset(Without(fs, k)) == multiset(fs) - multiset{e};
    assert multiset(rest) == multiset(es) - multiset{e};
  }

  lemma {:induction false} SameEdgesSamePull(es: seq<Edge>, fs: seq<Edge>, share: Ranks, u: int)
    requires multiset(es) == multiset(fs)
    ensures Pulled(es, share, u) == Pulled(fs, share, u) && Degree(es, u) == Degree(fs, u)
    decreases |es|
  {
    if es == [] {
      assert |fs| == |multiset(fs)| == 0;
    } else {
      var k := MatchLast(es, fs);
      SameEdgesSamePull(es[..|es| - 1], Without(fs, k), share, u);
      PulledWithout(fs, share, u, k);
      DegreeWithout(fs, u, k);
      RowSnoc(es[..|es| - 1], es[|es| - 1], u);
      assert es == es[..|es| - 1] + [es[|es| - 1]];
    }
  }

  lemma SameEdgesSameShare(es: seq<Edge>, fs: seq<Edge>, rank: Ranks)
    requires multiset(es) == multiset(fs)
    ensures Share(es, rank) == Share(fs, rank)
  {
    forall u | u in rank
      ensures Degree(es, u) == Degree(fs, u)
    {
      SameEdgesSamePull(es, fs, rank, u);
    }
  }

  lemma {:induction false} SameEdgesSameDangling(es: seq<Edge>, fs: seq<Edge>, ids: seq<int>, rank: Ranks, i: nat)
    requires i <= |ids| && multiset(es) == multiset(fs)
    ensures Dangling(es, ids, rank, i) == Dangling(fs, ids, rank, i)
  {
    if i > 0 {
      SameEdgesSameDangling(es, fs, ids, rank, i - 1);
      SameEdgesSamePull(es, fs, rank, ids[i - 1]);
    }
  }

  lemma SameEdgesSameSpread(es: seq<Edge>, fs: seq<Edge>, ids: seq<int>, damp: real -> real, share: Ranks, base: real)
    requires multiset(es) == multiset(fs)
    ensures Spread(es, ids, damp, share, base) == Spread(fs, ids, damp, share, base)
  {
    forall v | v in Elems(ids)
      ensures Pulled(es, share, v) == Pulled(fs, share, v)
    {
      SameEdgesSamePull(es, fs, share, v);
    }
  }

  lemma SameEdgesSameStep(es: seq<Edge>, fs: seq<Edge>, ids: seq<int>, damp: real -> real, rank: Ranks)
    requires |ids| > 0 && multiset(es) == multiset(fs)
    ensures Step(es, ids, damp, rank) == Step(fs, ids, damp, rank)
  {
    SameEdgesSameShare(es, fs, rank);
    SameEdgesSameDangling(es, fs, ids, rank, |ids|);
    assert Base(es, ids, damp, rank) == Base(fs, ids, damp, rank);
    SameEdgesSameSpread(es, fs, ids, damp, Share(es, rank), Base(es, ids, damp, rank));
  }

  /** The ranks depend on which edges there are and how often, not on how they are laid out. */
  lemma {:induction false} OrderOfEdgesIsIrrelevant(es: seq<Edge>, fs: seq<Edge>, ids: seq<int>, damp: real -> real,
                                                    iterations: nat)
    requires |ids| > 0 && multiset(es) == multiset(fs)
    ensures Iterate(es, ids, damp, iterations) == Iterate(fs, ids, damp, iterations)
  {
    if iterations > 0 {
      OrderOfEdgesIsIrrelevant(es, fs, ids, damp, iterations - 1);
      var rank := Iterate(es, ids, damp, iterations - 1);
      SameEdgesSameStep(es, fs, ids, damp, rank);
      assert Iterate(es, ids, damp, iterations) == Step(es, ids, damp, rank);
      assert Iterate(fs, ids, damp, iterations) == Step(fs, ids, damp, rank);
    }
  }

  // ----- The engines' damping factor, and the answer they report

  lemma TimesFacts(damping: real)
    ensures Linear(Times(damping)) && Times(damping)(1.0) == damping
    ensures damping >= 0.0 ==> forall x :: x >= 0.0 ==> Times(damping)(x) >= 0.0
  {
    forall a, b
      ensures AddsOver(Times(damping), a, b)
    {
      assert damping * (a + b) == damping * a + damping * b;
    }
  }

  /** For a damping factor a plan accepts, the ranks are a distribution with a positive floor. */
  lemma RanksAreADistribution(es: seq<Edge>, ids: seq<int>, damping: real, iterations: nat)
    requires |ids| > 0 && ListsNodes(ids, es) && 0.0 < damping < 1.0
    ensures Total(ids, Iterate(es, ids, Times(damping), iterations), |ids|) == 1.0
    ensures AllAbove(Iterate(es, ids, Times(damping), iterations), (1.0 - damping) / |ids| as real)
  {
    TimesFacts(damping);
    RanksAddUpToOne(es, ids, Times(damping), iterations);
    RanksAboveFloor(es, ids, Times(damping), iterations);
  }

  lemma Greatest(members: set<int>) returns (m: int)
    requires members != {}
    ensures m in members && forall x :: x in members ==> x <= m
  {
    var x := Element(members);
    var others := members - {x};
    m := x;
    if others != {} {
      var rest := Greatest(others);
      m := if x < rest then rest else x;
    }
    assert forall y :: y in members ==> y == x || y in others;
  }

  lemma {:induction false} CanBeListed(members: set<int>) returns (ids: seq<int>)
    ensures Increasing(ids) && Elems(ids) == members
  {
    if members == {} {
      ids := [];
    } else {
      var m := Greatest(members);
      var front := CanBeListed(members - {m});
      assert forall x :: x in front ==> x in Elems(front);
      ElemsAppend(front, [m]);
      assert Elems([m]) == {m};
      ids := front + [m];
      forall i, j | 0 <= i < j < |ids|
        ensures ids[i] < ids[j]
      {
        assert ids[i] == front[i] && front[i] in front;
      }
    }
  }

  /** The highest rank is the lowest score, so that ties still go to the lower identifier. */
  ghost function Scored(rank: Ranks): Scores {
    map v | v in rank :: -rank[v]
  }

  ghost predicate Highest(es: seq<Edge>, ids: seq<int>, damping: real, iterations: nat, top: nat, out: seq<int>) {
    if ids == [] then out == [] else IsFirst(Scored(Iterate(es, ids, Times(damping), iterations)), out, top)
  }

  /** `out` holds the `top` highest ranked nodes, best first, ties by identifier. */
  ghost predicate IsRanking(es: seq<Edge>, damping: real, iterations: nat, top: nat, out: seq<int>) {
    forall ids {:trigger Highest(es, ids, damping, iterations, top, out)} ::
      ListsNodes(ids, es) ==> Highest(es, ids, damping, iterations, top, out)
  }

  lemma HighestIsRanking(es: seq<Edge>, ids: seq<int>, damping: real, iterations: nat, top: nat, out: seq<int>)
    requires ListsNodes(ids, es) && Highest(es, ids, damping, iterations, top, out)
    ensures IsRanking(es, damping, iterations, top, out)
  {
    hide Highest;
    forall other | ListsNodes(other, es)
      ensures Highest(es, other, damping, iterations, top, out)
    {
      IncreasingUnique(ids, other);
    }
  }

  lemma SameNodes(es: seq<Edge>, fs: seq<Edge>)
    requires multiset(es) == multiset(fs)
    ensures Nodes(es) == Nodes(fs)
  {
    assert forall e :: e in es <==> e in multiset(es);
    assert forall e :: e in fs <==> e in multiset(fs);
  }

  /** Engines that hold the same edges in any order have to report the same list. */
  lemma RankingIsUnique(es: seq<Edge>, fs: seq<Edge>, damping: real, iterations: nat, top: nat, out: seq<int>,
                        other: seq<int>)
    requires multiset(es) == multiset(fs)
    requires IsRanking(es, damping, iterations, top, out) && IsRanking(fs, damping, iterations, top, other)
    ensures out == other
  {
    SameNodes(es, fs);
    var ids := CanBeListed(Nodes(es));
    assert ListsNodes(ids, es) && ListsNodes(ids, fs);
    assert Highest(es, ids, damping, iterations, top, out) && Highest(fs, ids, damping, iterations, top, other);
    if ids != [] {
      OrderOfEdgesIsIrrelevant(es, fs, ids, Times(damping), iterations);
      FirstIsUnique(Scored(Iterate(es, ids, Times(damping), iterations)), out, other, top);
    }
  }

  lemma RankingExists(es: seq<Edge>, damping: real, iterations: nat, top: nat)
    ensures exists out :: IsRanking(es, damping, iterations, top, out)
  {
    var ids := CanBeListed(Nodes(es));
    var out: seq<int> := [];
    if ids != [] {
      out := FirstExists(Scored(Iterate(es, ids, Times(damping), iterations)), top);
    }
    HighestIsRanking(es, ids, damping, iterations, top, out);
  }

  /** The one ranking there is. */
  ghost function Ranking(es: seq<Edge>, damping: real, iterations: nat, top: nat): (out: seq<int>)
    ensures IsRanking(es, damping, iterations, top, out)
  {
    RankingExists(es, damping, iterations, top);
    var out :| IsRanking(es, damping, iterations, top, out);
    out
  }
}
