/**
 What the ranks are, said about the raw edge list: the recurrence every iteration follows, and the closed
 form. A surfer starts anywhere with equal chance. At every step they follow one of the edges leaving the
 node they are at with the chance `damping`, all edges alike, and otherwise jump to any node; where no edge
 leaves they jump. After so many iterations a node's rank is the chance that they are there.
 */
module Surfing {
  import opened Sets
  import opened EdgeList
  import opened Library
  import opened Csr
  import opened FirstK
  import opened PageRank
  import opened Sums

  /** A node's rank after `k` iterations. */
  ghost function RankAfter(es: seq<Edge>, ids: seq<int>, damping: real, k: nat, v: int): real
    requires |ids| > 0 && v in ids
  {
    Iterate(es, ids, Times(damping), k)[v]
  }

  // ----- The recurrence

  /** The rank of the nodes without an edge, node by node. */
  ghost function DanglingAt(es: seq<Edge>, ids: seq<int>, rank: Ranks): int -> real {
    i => if 0 <= i < |ids| && |Row(es, ids[i])| == 0 then At(rank, ids[i]) else 0.0
  }

  /** What each edge brings to `v`: its source's rank, divided by the number of edges leaving it. */
  ghost function ArrivingAt(es: seq<Edge>, rank: Ranks, v: int): int -> real {
    k => if 0 <= k < |es| && es[k].1 == v && |Row(es, es[k].0)| > 0
         then At(rank, es[k].0) / |Row(es, es[k].0)| as real else 0.0
  }

  lemma {:induction false} DanglingIsSum(es: seq<Edge>, ids: seq<int>, rank: Ranks, i: nat)
    requires i <= |ids|
    ensures Dangling(es, ids, rank, i) == Sum(i, DanglingAt(es, ids, rank))
  {
    hide Row, At;
    if i > 0 {
      DanglingIsSum(es, ids, rank, i - 1);
    }
  }

  lemma {:induction false} PulledIsSum(es: seq<Edge>, rank: Ranks, v: int, k: nat)
    requires k <= |es| && forall e :: e in es ==> e.0 in rank
    ensures Pulled(es[..k], Share(es, rank), v) == Sum(k, ArrivingAt(es, rank, v))
  {
    if k > 0 {
      PulledIsSum(es, rank, v, k - 1);
      assert es[..k] == es[..k - 1] + [es[k - 1]];
      PulledSnoc(es[..k - 1], es[k - 1], Share(es, rank), v);
      assert es[k - 1] in es;
      ArrivingIsShare(es, rank, v, k - 1);
    }
  }

  lemma ArrivingIsShare(es: seq<Edge>, rank: Ranks, v: int, k: nat)
    requires k < |es| && es[k].0 in rank
    ensures ArrivingAt(es, rank, v)(k) == if es[k].1 == v then At(Share(es, rank), es[k].0) else 0.0
  {
    var j := EdgeInRow(es, es[k]);
  }

  /** An equal rank to start with; then an equal part of what does not follow edges, and what edges bring. */
  lemma RanksFollowTheRecurrence(es: seq<Edge>, ids: seq<int>, damping: real, k: nat, v: int)
    requires |ids| > 0 && ListsNodes(ids, es) && v in ids
    ensures RankAfter(es, ids, damping, 0, v) == 1.0 / |ids| as real
    ensures var before := Iterate(es, ids, Times(damping), k);
            RankAfter(es, ids, damping, k + 1, v)
            == ((1.0 - damping) + Mul(damping, Sum(|ids|, DanglingAt(es, ids, before)))) / |ids| as real
               + Mul(damping, Sum(|es|, ArrivingAt(es, before, v)))
  {
    hide Iterate, Step, Dangling, Pulled, Share, Sum, DanglingAt, ArrivingAt, Times, Row, Mul;
    var before, damp := Iterate(es, ids, Times(damping), k), Times(damping);
    assert v in Elems(ids);
    FirstRanks(es, ids, damp, k, v);
    SourcesAreRanked(es, ids, before);
    DanglingIsSum(es, ids, before, |ids|);
    PulledIsSum(es, before, v, |es|);
    assert es[..|es|] == es;
    StepTimes(es, ids, damping, before, v);
  }

  lemma StepTimes(es: seq<Edge>, ids: seq<int>, damping: real, rank: Ranks, v: int)
    requires |ids| > 0 && v in Elems(ids)
    ensures v in Step(es, ids, Times(damping), rank)
    ensures Step(es, ids, Times(damping), rank)[v]
         == ((1.0 - damping) + Mul(damping, Dangling(es, ids, rank, |ids|))) / |ids| as real
            + Mul(damping, Pulled(es, Share(es, rank), v))
  {
    hide Step, Dangling, Pulled, Share, Times, Mul;
    StepAt(es, ids, Times(damping), rank, v);
    TimesIs(damping, 1.0);
    MulFacts(damping, 0.0, 0.0);
    TimesIs(damping, Dangling(es, ids, rank, |ids|));
    TimesIs(damping, Pulled(es, Share(es, rank), v));
  }

  lemma FirstRanks(es: seq<Edge>, ids: seq<int>, damp: real -> real, k: nat, v: int)
    requires |ids| > 0 && v in Elems(ids)
    ensures Iterate(es, ids, damp, 0)[v] == 1.0 / |ids| as real
    ensures Iterate(es, ids, damp, k + 1) == Step(es, ids, damp, Iterate(es, ids, damp, k))
  {
    hide Step;
  }

  lemma SourcesAreRanked(es: seq<Edge>, ids: seq<int>, rank: Ranks)
    requires ListsNodes(ids, es) && rank.Keys == Elems(ids)
    ensures forall e :: e in es ==> e.0 in rank
  {
    EdgeEndsAreIds(es, ids);
    forall e | e in es
      ensures e.0 in rank
    {
      assert e.0 in Elems(ids);
    }
  }

  lemma TimesIs(damping: real, x: real)
    ensures Times(damping)(x) == Mul(damping, x)
  {
  }

  lemma StepAt(es: seq<Edge>, ids: seq<int>, damp: real -> real, rank: Ranks, v: int)
    requires |ids| > 0 && v in Elems(ids)
    ensures v in Step(es, ids, damp, rank)
    ensures Step(es, ids, damp, rank)[v]
         == ((1.0 - damp(1.0)) + damp(Dangling(es, ids, rank, |ids|))) / |ids| as real
            + damp(Pulled(es, Share(es, rank), v))
  {
  }

  // ----- The surfer

  /** How many edges lead from one node to another. */
  ghost function EdgesFrom(es: seq<Edge>, u: int, v: int): nat {
    multiset(es)[(u, v)]
  }

  /** The chance of going from node `i` to node `j` along an edge, or by a jump where there is no edge. */
  ghost function Follow(es: seq<Edge>, ids: seq<int>, i: int, j: int): real
    requires 0 <= i < |ids| && 0 <= j < |ids|
  {
    if |Row(es, ids[i])| == 0 then 1.0 / |ids| as real
    else EdgesFrom(es, ids[i], ids[j]) as real / |Row(es, ids[i])| as real
  }

  /** The chance of going from node `i` to node `j` at one step. */
  ghost function Chance(es: seq<Edge>, ids: seq<int>, damping: real): (int, int) -> real {
    (i, j) =>
      if 0 <= i < |ids| && 0 <= j < |ids|
      then Mul(1.0 - damping, 1.0 / |ids| as real) + Mul(damping, Follow(es, ids, i, j))
      else 0.0
  }

  ghost function RankAt(es: seq<Edge>, ids: seq<int>, damping: real): (int, int) -> real {
    (k, i) => if 0 <= k && 0 <= i < |ids| then RankAfter(es, ids, damping, k, ids[i]) else 0.0
  }

  // ----- Edges sorted by the node they leave

  /** What the first `m` edges from node `w` to `v` bring, if each brings `each(w)`. */
  ghost function Brought(es: seq<Edge>, ids: seq<int>, v: int, each: int -> real): int -> real {
    w => if 0 <= w < |ids| then Mul(EdgesFrom(es, ids[w], v) as real, each(w)) else 0.0
  }

  lemma BroughtByNone(ids: seq<int>, v: int, each: int -> real)
    ensures Sum(|ids|, Brought([], ids, v, each)) == 0.0
  {
    var none := Brought([], ids, v, each);
    forall w | 0 <= w < |ids|
      ensures none(w) == 0.0
    {
      MulFacts(each(w), 0.0, 0.0);
    }
    SumOfNothing(|ids|, none);
  }

  lemma BroughtByOneMore(es: seq<Edge>, e: Edge, ids: seq<int>, v: int, each: int -> real, at: nat)
    requires Increasing(ids) && at < |ids| && ids[at] == e.0
    ensures Sum(|ids|, Brought(es + [e], ids, v, each))
         == Sum(|ids|, Brought(es, ids, v, each)) + if e.1 == v then each(at) else 0.0
  {
    var more, before := Brought(es + [e], ids, v, each), Brought(es, ids, v, each);
    var added := w => if w == at && e.1 == v then each(at) else 0.0;
    forall w | 0 <= w < |ids|
      ensures more(w) == before(w) + added(w)
    {
      CountsOneMore(es, e, ids[w], v);
      MulFacts(each(w), EdgesFrom(es, ids[w], v) as real, 1.0);
      MulFacts(each(w), 1.0, 0.0);
      MulFacts(EdgesFrom(es, ids[w], v) as real, each(w), 0.0);
      MulFacts(EdgesFrom(es + [e], ids[w], v) as real, each(w), 0.0);
    }
    SumAdds(|ids|, before, added, more);
    SumOfOne(|ids|, added, at);
  }

  lemma CountsOneMore(es: seq<Edge>, e: Edge, u: int, v: int)
    ensures EdgesFrom(es + [e], u, v) == EdgesFrom(es, u, v) + if e == (u, v) then 1 else 0
  {
  }

  /** Counted edge by edge or node by node, the same arrives. */
  lemma {:induction false} ArrivingByNode(es: seq<Edge>, ids: seq<int>, rank: Ranks, v: int, each: int -> real, m: nat)
    requires ListsNodes(ids, es) && m <= |es|
    requires forall w :: 0 <= w < |ids| && |Row(es, ids[w])| > 0 ==>
               each(w) == At(rank, ids[w]) / |Row(es, ids[w])| as real
    ensures Sum(|ids|, Brought(es[..m], ids, v, each)) == Sum(m, ArrivingAt(es, rank, v))
  {
    hide Sum, Brought, Row;
    if m == 0 {
      BroughtByNone(ids, v, each);
      SumOfNothing(0, ArrivingAt(es, rank, v));
    } else {
      var e := es[m - 1];
      ArrivingByNode(es, ids, rank, v, each, m - 1);
      EdgeEndsAreIds(es, ids);
      assert e in es;
      var at :| 0 <= at < |ids| && ids[at] == e.0;
      BroughtByOneMore(es[..m - 1], e, ids, v, each, at);
      assert es[..m] == es[..m - 1] + [e];
      SumNext(m - 1, ArrivingAt(es, rank, v));
      var j := EdgeInRow(es, e);
    }
  }

  // ----- A step of the surfer is an iteration

  lemma {:induction false} TotalIsSum(ids: seq<int>, rank: Ranks, i: nat, held: int -> real)
    requires i <= |ids| && forall w :: 0 <= w < i ==> held(w) == At(rank, ids[w])
    ensures Total(ids, rank, i) == Sum(i, held)
  {
    if i > 0 {
      TotalIsSum(ids, rank, i - 1, held);
    }
  }

  lemma OverIsMul(x: real, n: nat)
    requires n > 0
    ensures x / n as real == Mul(x, 1.0 / n as real)
  {
  }

  lemma RankTimesCount(rank: real, edges: nat, degree: nat)
    requires degree > 0
    ensures Mul(rank, edges as real / degree as real) == Mul(edges as real, rank / degree as real)
  {
    OverIsMul(edges as real, degree);
    OverIsMul(rank, degree);
    var part := 1.0 / degree as real;
    MulFacts(rank, edges as real, part);
    MulFacts(edges as real, rank, part);
  }

  /** What is sent along edges, and by jumps from where there is none. */
  lemma FollowedArrives(es: seq<Edge>, ids: seq<int>, rank: Ranks, held: int -> real, j: nat)
    requires ListsNodes(ids, es) && j < |ids|
    requires forall w :: 0 <= w < |ids| ==> held(w) == At(rank, ids[w])
    ensures Sum(|ids|, w => if 0 <= w < |ids| then Mul(held(w), Follow(es, ids, w, j)) else 0.0)
         == Mul(1.0 / |ids| as real, Sum(|ids|, DanglingAt(es, ids, rank))) + Sum(|es|, ArrivingAt(es, rank, ids[j]))
  {
    hide Sum, Mul, Row;
    var n, u, v := |ids|, 1.0 / |ids| as real, ids[j];
    var each := w => if 0 <= w < |ids| && |Row(es, ids[w])| > 0 then held(w) / |Row(es, ids[w])| as real else 0.0;
    var sent := w => if 0 <= w < |ids| then Mul(held(w), Follow(es, ids, w, j)) else 0.0;
    var jumped := w => Mul(u, DanglingAt(es, ids, rank)(w));
    var brought := Brought(es, ids, v, each);
    forall w | 0 <= w < n
      ensures sent(w) == jumped(w) + brought(w)
    {
      SentByOne(es, ids, rank, held(w), each, w, j);
    }
    SumAdds(n, jumped, brought, sent);
    SumScales(n, DanglingAt(es, ids, rank), u, jumped);
    ArrivingByNode(es, ids, rank, v, each, |es|);
    assert es[..|es|] == es;
    SumOfSame(n, sent, w => if 0 <= w < |ids| then Mul(held(w), Follow(es, ids, w, j)) else 0.0);
  }

  lemma SentByOne(es: seq<Edge>, ids: seq<int>, rank: Ranks, held: real, each: int -> real, w: nat, j: nat)
    requires w < |ids| && j < |ids| && held == At(rank, ids[w])
    requires each(w) == if |Row(es, ids[w])| > 0 then held / |Row(es, ids[w])| as real else 0.0
    ensures Mul(held, Follow(es, ids, w, j))
         == Mul(1.0 / |ids| as real, DanglingAt(es, ids, rank)(w)) + Brought(es, ids, ids[j], each)(w)
  {
    hide Mul, Row;
    var degree, edges := |Row(es, ids[w])|, EdgesFrom(es, ids[w], ids[j]);
    if degree == 0 {
      MulFacts(held, 1.0 / |ids| as real, 0.0);
      MulFacts(edges as real, 0.0, 0.0);
    } else {
      RankTimesCount(held, edges, degree);
      MulFacts(1.0 / |ids| as real, 0.0, 0.0);
    }
  }

  /** One iteration is one step of the surfer, wherever they are. */
  lemma IterationIsAStep(es: seq<Edge>, ids: seq<int>, damping: real, k: nat)
    requires |ids| > 0 && ListsNodes(ids, es)
    ensures MovesOn(Chance(es, ids, damping), |ids|, RankAt(es, ids, damping), k)
  {
    hide Sum, Mul, Iterate, Follow;
    var n, next := |ids|, k + 1;
    var step, rank := Chance(es, ids, damping), RankAt(es, ids, damping);
    forall j | 0 <= j < n
      ensures rank(next, j) == Sum(n, w => Mul(rank(k, w), step(w, j)))
    {
      ArrivesAt(es, ids, damping, k, j);
    }
  }

  lemma ArrivesAt(es: seq<Edge>, ids: seq<int>, damping: real, k: nat, j: nat)
    requires |ids| > 0 && ListsNodes(ids, es) && j < |ids|
    ensures RankAt(es, ids, damping)(k + 1, j)
         == Sum(|ids|, w => Mul(RankAt(es, ids, damping)(k, w), Chance(es, ids, damping)(w, j)))
  {
    hide Sum, Mul, Iterate, Follow, Times, Chance, DanglingAt, ArrivingAt;
    var n, u := |ids|, 1.0 / |ids| as real;
    var rank, before := RankAt(es, ids, damping), Iterate(es, ids, Times(damping), k);
    var held := w => rank(k, w);
    var jump := Mul(1.0 - damping, u);
    var sent := w => if 0 <= w < |ids| then Mul(held(w), Follow(es, ids, w, j)) else 0.0;
    forall w | 0 <= w < n
      ensures held(w) == At(before, ids[w])
    {
      assert ids[w] in Elems(ids);
    }
    SentByAll(es, ids, damping, held, sent, j);
    SumOfSame(n, w => Mul(held(w), Chance(es, ids, damping)(w, j)),
              w => Mul(RankAt(es, ids, damping)(k, w), Chance(es, ids, damping)(w, j)));
    HeldIsOne(es, ids, damping, k, held);
    FollowedArrives(es, ids, before, held, j);
    SumOfSame(n, sent, w => if 0 <= w < |ids| then Mul(held(w), Follow(es, ids, w, j)) else 0.0);
    NextRank(es, ids, damping, k, j, Sum(n, sent));
    MulFacts(jump, 0.0, 0.0);
  }

  lemma NextRank(es: seq<Edge>, ids: seq<int>, damping: real, k: nat, j: nat, sent: real)
    requires |ids| > 0 && ListsNodes(ids, es) && j < |ids|
    requires var before := Iterate(es, ids, Times(damping), k);
             sent == Mul(1.0 / |ids| as real, Sum(|ids|, DanglingAt(es, ids, before)))
                     + Sum(|es|, ArrivingAt(es, before, ids[j]))
    ensures RankAt(es, ids, damping)(k + 1, j) == Mul(1.0 - damping, 1.0 / |ids| as real) + Mul(damping, sent)
  {
    hide Sum, Mul, Iterate, Times, DanglingAt, ArrivingAt;
    var before := Iterate(es, ids, Times(damping), k);
    RanksFollowTheRecurrence(es, ids, damping, k, ids[j]);
    var dangling, arriving := Sum(|ids|, DanglingAt(es, ids, before)), Sum(|es|, ArrivingAt(es, before, ids[j]));
    assert sent == Mul(1.0 / |ids| as real, dangling) + arriving;
    RegroupedTo(|ids|, damping, dangling, arriving, sent, RankAt(es, ids, damping)(k + 1, j));
  }

  lemma RegroupedTo(n: nat, damping: real, dangling: real, arriving: real, sent: real, rank: real)
    requires n > 0 && sent == Mul(1.0 / n as real, dangling) + arriving
    requires rank == ((1.0 - damping) + Mul(damping, dangling)) / n as real + Mul(damping, arriving)
    ensures rank == Mul(1.0 - damping, 1.0 / n as real) + Mul(damping, sent)
  {
    hide Mul;
    Regrouped(n, damping, dangling, arriving);
  }

  lemma HeldIsOne(es: seq<Edge>, ids: seq<int>, damping: real, k: nat, held: int -> real)
    requires |ids| > 0 && ListsNodes(ids, es)
    requires forall w :: 0 <= w < |ids| ==> held(w) == At(Iterate(es, ids, Times(damping), k), ids[w])
    ensures Sum(|ids|, held) == 1.0
  {
    hide Sum, Iterate, Times;
    TimesFacts(damping);
    RanksAddUpToOne(es, ids, Times(damping), k);
    TotalIsSum(ids, Iterate(es, ids, Times(damping), k), |ids|, held);
  }

  /** What is sent to `j`: the jumps, all alike, and what follows edges. */
  lemma SentByAll(es: seq<Edge>, ids: seq<int>, damping: real, held: int -> real, sent: int -> real, j: nat)
    requires j < |ids|
    requires forall w :: 0 <= w < |ids| ==> sent(w) == Mul(held(w), Follow(es, ids, w, j))
    ensures Sum(|ids|, w => Mul(held(w), Chance(es, ids, damping)(w, j)))
         == Mul(Mul(1.0 - damping, 1.0 / |ids| as real), Sum(|ids|, held)) + Mul(damping, Sum(|ids|, sent))
  {
    hide Sum, Mul, Follow;
    var n, jump := |ids|, Mul(1.0 - damping, 1.0 / |ids| as real);
    var jumped := w => Mul(jump, held(w));
    var followed := w => Mul(damping, sent(w));
    var all := w => Mul(held(w), Chance(es, ids, damping)(w, j));
    forall w | 0 <= w < n
      ensures all(w) == jumped(w) + followed(w)
    {
      var follow := Follow(es, ids, w, j);
      assert Chance(es, ids, damping)(w, j) == jump + Mul(damping, follow);
      MulFacts(held(w), jump, Mul(damping, follow));
      MulFacts(held(w), damping, follow);
      MulFacts(damping, held(w), follow);
    }
    SumAdds(n, jumped, followed, all);
    SumScales(n, held, jump, jumped);
    SumScales(n, sent, damping, followed);
    SumOfSame(n, all, w => Mul(held(w), Chance(es, ids, damping)(w, j)));
  }

  lemma Regrouped(n: nat, damping: real, dangling: real, arriving: real)
    requires n > 0
    ensures ((1.0 - damping) + Mul(damping, dangling)) / n as real + Mul(damping, arriving)
         == Mul(1.0 - damping, 1.0 / n as real) + Mul(damping, Mul(1.0 / n as real, dangling) + arriving)
  {
    hide Mul;
    var u := 1.0 / n as real;
    OverIsMul((1.0 - damping) + Mul(damping, dangling), n);
    MulFacts(u, 1.0 - damping, Mul(damping, dangling));
    MulFacts(damping, dangling, u);
    MulFacts(dangling, u, 0.0);
    MulFacts(damping, Mul(u, dangling), arriving);
  }

  /** A node's rank after `k` iterations is the chance that the surfer is there after `k` steps. */
  lemma RanksAreTheSurfers(es: seq<Edge>, ids: seq<int>, damping: real, k: nat, j: nat)
    requires |ids| > 0 && ListsNodes(ids, es) && j < |ids|
    ensures RankAfter(es, ids, damping, k, ids[j])
         == Sum(|ids|, i => Mul(1.0 / |ids| as real, Carried(Chance(es, ids, damping), |ids|, k, i, j)))
  {
    hide Sum, Mul, Carried, MovesOn, Iterate, Chance;
    var n, u, step, rank := |ids|, 1.0 / |ids| as real, Chance(es, ids, damping), RankAt(es, ids, damping);
    forall m: nat | m < k
      ensures MovesOn(step, n, rank, m)
    {
      IterationIsAStep(es, ids, damping, m);
    }
    CarriedFromStart(step, n, rank, k, j);
    forall i | 0 <= i < n
      ensures rank(0, i) == u
    {
      RanksFollowTheRecurrence(es, ids, damping, 0, ids[i]);
    }
    SumOfSame(n, i => Mul(rank(0, i), Carried(step, n, k, i, j)),
              i => Mul(1.0 / |ids| as real, Carried(Chance(es, ids, damping), |ids|, k, i, j)));
  }

  // ----- The chances are chances

  lemma {:induction false} EdgesLeavingAddUp(es: seq<Edge>, ids: seq<int>, u: int, m: nat, leaving: int -> real)
    requires ListsNodes(ids, es) && m <= |es|
    requires forall j :: 0 <= j < |ids| ==> leaving(j) == EdgesFrom(es[..m], u, ids[j]) as real
    ensures Sum(|ids|, leaving) == |Row(es[..m], u)| as real
  {
    hide Sum, Row, EdgesFrom;
    if m == 0 {
      NoEdgesLeave(u);
      SumOfNothing(|ids|, leaving);
    } else {
      var e := es[m - 1];
      EdgeEndsAreIds(es, ids);
      assert e in es;
      var at :| 0 <= at < |ids| && ids[at] == e.1;
      var before := j => if 0 <= j < |ids| then EdgesFrom(es[..m - 1], u, ids[j]) as real else 0.0;
      var added := j => if j == at && e.0 == u then 1.0 else 0.0;
      assert es[..m] == es[..m - 1] + [e];
      forall j | 0 <= j < |ids|
        ensures leaving(j) == before(j) + added(j)
      {
        CountsOneMore(es[..m - 1], e, u, ids[j]);
      }
      EdgesLeavingAddUp(es, ids, u, m - 1, before);
      SumAdds(|ids|, before, added, leaving);
      SumOfOne(|ids|, added, at);
      RowUpTo(es, m - 1, u);
    }
  }

  lemma NoEdgesLeave(u: int)
    ensures Row([], u) == [] && forall v :: EdgesFrom([], u, v) == 0
  {
  }

  lemma FollowAddsUp(es: seq<Edge>, ids: seq<int>, i: nat, follow: int -> real)
    requires ListsNodes(ids, es) && i < |ids|
    requires forall j :: 0 <= j < |ids| ==> follow(j) == Follow(es, ids, i, j)
    ensures Sum(|ids|, follow) == 1.0
  {
    hide Sum, Mul, Row;
    var n, degree := |ids|, |Row(es, ids[i])|;
    if degree == 0 {
      SumOfAlike(n, follow, 1.0 / n as real);
      OverIsMul(n as real, n);
      OverItself(n as real);
    } else {
      var leaving := j => if 0 <= j < |ids| then EdgesFrom(es, ids[i], ids[j]) as real else 0.0;
      var part := 1.0 / degree as real;
      forall j | 0 <= j < n
        ensures follow(j) == Mul(part, leaving(j))
      {
        OverIsMul(leaving(j), degree);
        MulFacts(part, leaving(j), 0.0);
      }
      SumScales(n, leaving, part, follow);
      assert es[..|es|] == es;
      EdgesLeavingAddUp(es, ids, ids[i], |es|, leaving);
      OverIsMul(degree as real, degree);
      MulFacts(part, degree as real, 0.0);
      OverItself(degree as real);
    }
  }

  /** From every node the chances of where to go next are not negative and add up to one. */
  lemma ChancesAddUp(es: seq<Edge>, ids: seq<int>, damping: real, i: nat)
    requires ListsNodes(ids, es) && i < |ids| && 0.0 < damping < 1.0
    ensures forall j :: 0 <= j < |ids| ==> Chance(es, ids, damping)(i, j) >= 0.0
    ensures Sum(|ids|, j => Chance(es, ids, damping)(i, j)) == 1.0
  {
    hide Sum, Mul, Row, Follow, Chance;
    var n, jump := |ids|, Mul(1.0 - damping, 1.0 / |ids| as real);
    var follow := j => if 0 <= j < |ids| then Follow(es, ids, i, j) else 0.0;
    var all := j => Chance(es, ids, damping)(i, j);
    forall j | 0 <= j < n
      ensures all(j) == jump + Mul(damping, follow(j)) && Chance(es, ids, damping)(i, j) >= 0.0
    {
      ChanceIs(es, ids, damping, i, j);
    }
    FollowAddsUp(es, ids, i, follow);
    JumpsAddUp(n, damping);
    JumpOrFollow(n, jump, damping, follow, all);
    SumOfSame(n, all, j => Chance(es, ids, damping)(i, j));
  }

  lemma JumpOrFollow(n: nat, jump: real, damping: real, follow: int -> real, all: int -> real)
    requires forall j :: 0 <= j < n ==> all(j) == jump + Mul(damping, follow(j))
    requires Mul(n as real, jump) == 1.0 - damping && Sum(n, follow) == 1.0
    ensures Sum(n, all) == 1.0
  {
    hide Sum, Mul;
    var jumped := _ => jump;
    var along := j => Mul(damping, follow(j));
    SumAdds(n, jumped, along, all);
    SumScales(n, follow, damping, along);
    SumOfAlike(n, jumped, jump);
    MulFacts(damping, 1.0, 0.0);
  }

  lemma ChanceIs(es: seq<Edge>, ids: seq<int>, damping: real, i: nat, j: nat)
    requires i < |ids| && j < |ids| && 0.0 < damping < 1.0
    ensures Chance(es, ids, damping)(i, j)
         == Mul(1.0 - damping, 1.0 / |ids| as real) + Mul(damping, Follow(es, ids, i, j)) >= 0.0
  {
    hide Mul, Follow;
    FollowNotNegative(es, ids, i, j);
    NotNegative(1.0 - damping, 1.0 / |ids| as real);
    NotNegative(damping, Follow(es, ids, i, j));
  }

  lemma JumpsAddUp(n: nat, damping: real)
    requires n > 0
    ensures Mul(n as real, Mul(1.0 - damping, 1.0 / n as real)) == 1.0 - damping
  {
    hide Mul;
    var u := 1.0 / n as real;
    MulFacts(n as real, 1.0 - damping, u);
    MulFacts(1.0 - damping, n as real, u);
    MulFacts(1.0 - damping, 1.0, 0.0);
    OverIsMul(n as real, n);
    OverItself(n as real);
  }

  lemma FollowNotNegative(es: seq<Edge>, ids: seq<int>, i: nat, j: nat)
    requires i < |ids| && j < |ids|
    ensures Follow(es, ids, i, j) >= 0.0 && 1.0 / |ids| as real >= 0.0
  {
    QuotientNotNegative(1.0, |ids| as real);
    if |Row(es, ids[i])| > 0 {
      QuotientNotNegative(EdgesFrom(es, ids[i], ids[j]) as real, |Row(es, ids[i])| as real);
    }
  }

  lemma NotNegative(a: real, b: real)
    requires a >= 0.0 && b >= 0.0
    ensures Mul(a, b) >= 0.0
  {
  }

  // ----- What is reported

  /** `a` comes before `b`: a higher rank, or the same and a lower identifier. */
  ghost predicate Above(es: seq<Edge>, ids: seq<int>, damping: real, k: nat, a: int, b: int)
    requires |ids| > 0 && a in ids && b in ids
  {
    var x, y := RankAfter(es, ids, damping, k, a), RankAfter(es, ids, damping, k, b);
    x > y || (x == y && a < b)
  }

  /** A ranking lists so many nodes, each before the next and every one of them before every node left out. */
  lemma RankingMeans(es: seq<Edge>, ids: seq<int>, damping: real, k: nat, top: nat, out: seq<int>)
    requires ListsNodes(ids, es) && |ids| > 0
    ensures IsRanking(es, damping, k, top, out) <==>
            && |out| == (if top <= |Nodes(es)| then top else |Nodes(es)|)
            && (forall i :: 0 <= i < |out| ==> out[i] in ids)
            && (forall i, j :: 0 <= i < j < |out| ==> Above(es, ids, damping, k, out[i], out[j]))
            && (forall v, i :: v in ids && v !in out && 0 <= i < |out| ==> Above(es, ids, damping, k, out[i], v))
  {
    hide IsFirst, Iterate;
    MeansFirst(es, ids, damping, k, top, out);
    if IsRanking(es, damping, k, top, out) {
      assert Highest(es, ids, damping, k, top, out);
    } else if IsFirst(Scored(Iterate(es, ids, Times(damping), k)), out, top) {
      HighestIsRanking(es, ids, damping, k, top, out);
    }
  }

  lemma MeansFirst(es: seq<Edge>, ids: seq<int>, damping: real, k: nat, top: nat, out: seq<int>)
    requires ListsNodes(ids, es) && |ids| > 0
    ensures IsFirst(Scored(Iterate(es, ids, Times(damping), k)), out, top) <==>
            && |out| == (if top <= |Nodes(es)| then top else |Nodes(es)|)
            && (forall i :: 0 <= i < |out| ==> out[i] in ids)
            && (forall i, j :: 0 <= i < j < |out| ==> Above(es, ids, damping, k, out[i], out[j]))
            && (forall v, i :: v in ids && v !in out && 0 <= i < |out| ==> Above(es, ids, damping, k, out[i], v))
  {
    hide Iterate;
    var score := Scored(Iterate(es, ids, Times(damping), k));
    assert forall v :: v in ids <==> v in Elems(ids);
    assert score.Keys == Nodes(es);
    forall a, b
      ensures Before(score, a, b) <==> a in ids && b in ids && Above(es, ids, damping, k, a, b)
    {
    }
    assert forall v :: v in ids <==> v in score;
    hide Before, Above, Scored, Nodes, RankAfter, ListsNodes;
  }
}
