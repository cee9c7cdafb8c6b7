/**
 The raw edge list every engine is handed, and what each operation should answer about it.

 Edges are kept in input order, may repeat and may be self loops. Everything here is said
 about the list itself, with no reference to how any engine stores it.
 */
module EdgeList {
  import opened Sets
  import opened Counting
  import opened Digraph

  type u32 = x: int | 0 <= x < 0x1_0000_0000

  type Edge = (int, int)

  /** The edges of a flat list that alternates from and to. */
  function Pairs(edges: seq<u32>): (es: seq<Edge>)
    ensures |es| == |edges| / 2
    ensures forall k :: 0 <= k < |es| ==> es[k].0 == edges[2 * k] && es[k].1 == edges[2 * k + 1]
  {
    seq(|edges| / 2, k requires 0 <= k < |edges| / 2 => (edges[2 * k], edges[2 * k + 1]))
  }

  function Nodes(es: seq<Edge>): set<int> {
    (set e | e in es :: e.0) + (set e | e in es :: e.1)
  }

  function ArcsOf(es: seq<Edge>): Arcs {
    Elems(es)
  }

  /** The far ends of the edges leaving `u`, in input order. */
  function Row(es: seq<Edge>, u: int): seq<int> {
    if es == [] then [] else
      var e := es[|es| - 1];
      Row(es[..|es| - 1], u) + if e.0 == u then [e.1] else []
  }

  /** The nodes other than `u` within two hops of it. */
  function TwoHopSet(es: seq<Edge>, u: int): set<int> {
    Ball(ArcsOf(es), u, 2) - {u}
  }

  // ----- What each operation should answer

  ghost function Degree(es: seq<Edge>, u: int): int {
    |Row(es, u)|
  }

  ghost function TwoHopCount(es: seq<Edge>, u: int): int {
    |TwoHopSet(es, u)|
  }

  ghost function HopCount(es: seq<Edge>, s: int, t: int): int {
    Hops(ArcsOf(es), s, t)
  }

  ghost function Reached(es: seq<Edge>, u: int): int {
    |Reach(ArcsOf(es), u)|
  }

  ghost function Depth(es: seq<Edge>, u: int): int {
    Radius(ArcsOf(es), u)
  }

  // ----- Facts about the list

  lemma NodesOfPairs(edges: seq<u32>)
    requires |edges| % 2 == 0
    ensures Nodes(Pairs(edges)) == Elems<int>(edges)
  {
    var es := Pairs(edges);
    forall i | 0 <= i < |edges|
      ensures edges[i] in Nodes(es)
    {
      assert es[i / 2] in es;
      assert edges[i] == es[i / 2].0 || edges[i] == es[i / 2].1;
    }
  }

  lemma RowSnoc(es: seq<Edge>, e: Edge, u: int)
    ensures Row(es + [e], u) == Row(es, u) + if e.0 == u then [e.1] else []
  {
    assert (es + [e])[..|es|] == es;
  }

  lemma RowUpTo(es: seq<Edge>, k: nat, u: int)
    requires k < |es|
    ensures Row(es[..k + 1], u) == Row(es[..k], u) + if es[k].0 == u then [es[k].1] else []
  {
    assert es[..k + 1] == es[..k] + [es[k]];
    RowSnoc(es[..k], es[k], u);
  }

  /** Reading more edges only extends a row. */
  lemma {:induction false} RowPrefix(es: seq<Edge>, k: nat, u: int)
    requires k <= |es|
    ensures Row(es[..k], u) <= Row(es, u)
    decreases |es| - k
  {
    if k < |es| {
      RowUpTo(es, k, u);
      RowPrefix(es, k + 1, u);
    } else {
      assert es[..k] == es;
    }
  }

  lemma {:induction false} RowElems(es: seq<Edge>, u: int)
    ensures Elems(Row(es, u)) == Succ(ArcsOf(es), {u})
  {
    if es != [] {
      var rest, e := es[..|es| - 1], es[|es| - 1];
      RowElems(rest, u);
      assert es == rest + [e];
      ElemsAppend(rest, [e]);
      assert Elems([e]) == {e};
      var more := if e.0 == u then [e.1] else [];
      ElemsAppend(Row(rest, u), more);
      assert Succ(ArcsOf(es), {u}) == Succ(ArcsOf(rest), {u}) + Succ({e}, {u});
      assert Elems(more) == Succ({e}, {u});
    }
  }

  lemma EdgeInRow(es: seq<Edge>, e: Edge) returns (j: nat)
    requires e in es
    ensures j < |Row(es, e.0)| && Row(es, e.0)[j] == e.1
  {
    RowElems(es, e.0);
    assert e in ArcsOf(es);
    assert e.1 in Succ(ArcsOf(es), {e.0});
    assert e.1 in Elems(Row(es, e.0));
    j :| 0 <= j < |Row(es, e.0)| && Row(es, e.0)[j] == e.1;
  }

  /** The two-hop answer counts what a walk of one or two edges leads to, the seed aside. */
  lemma TwoHopMeaning(es: seq<Edge>, u: int, v: int)
    ensures v in TwoHopSet(es, u) <==> v != u && exists p :: Walk(ArcsOf(es), u, v, p) && 2 <= |p| <= 3
  {
    hide Ball, ArcsOf;
    var arcs := ArcsOf(es);
    if v in TwoHopSet(es, u) {
      var p := BallHasWalk(arcs, u, v, 2);
      assert |p| != 1;
      assert Walk(arcs, u, v, p) && 2 <= |p| <= 3;
    }
    if v != u && exists p :: Walk(arcs, u, v, p) && 2 <= |p| <= 3 {
      var p :| Walk(arcs, u, v, p) && 2 <= |p| <= 3;
      WalkStaysInBall(arcs, u, v, p);
      BallMonotone(arcs, u, |p| - 1, 2);
    }
  }

  // ----- What the answers mean, edge by edge

  /** The positions below `k` of the edges that leave `u`. */
  ghost function LeavingAt(es: seq<Edge>, u: int): int -> bool {
    i => 0 <= i < |es| && es[i].0 == u
  }

  lemma {:induction false} RowIsCounted(es: seq<Edge>, k: nat, u: int)
    requires k <= |es|
    ensures |Row(es[..k], u)| == HowMany(k, LeavingAt(es, u))
  {
    hide HowMany;
    if k == 0 {
      HowManyNext(0, LeavingAt(es, u));
    } else {
      RowIsCounted(es, k - 1, u);
      HowManyNext(k - 1, LeavingAt(es, u));
      RowUpTo(es, k - 1, u);
    }
  }

  /**
   A degree counts edges, repeated ones too, and each edge's far end stands in the row behind those of the
   edges before it.
   */
  lemma RowMeans(es: seq<Edge>, k: nat)
    requires k < |es|
    ensures forall u :: Degree(es, u) == |set i: nat | i < |es| && es[i].0 == u|
    ensures var u := es[k].0;
            var before := |set i: nat | i < k && es[i].0 == u|;
            before < |Row(es, u)| && Row(es, u)[before] == es[k].1
  {
    forall u
      ensures Degree(es, u) == |set i: nat | i < |es| && es[i].0 == u|
    {
      RowIsCounted(es, |es|, u);
      assert es[..|es|] == es;
      assert Where(|es|, LeavingAt(es, u)) == set i: nat | i < |es| && es[i].0 == u;
    }
    var u := es[k].0;
    RowIsCounted(es, k, u);
    assert Where(k, LeavingAt(es, u)) == set i: nat | i < k && es[i].0 == u;
    RowUpTo(es, k, u);
    RowPrefix(es, k + 1, u);
  }

  /** A walk along edges of the list. */
  ghost predicate Trail(es: seq<Edge>, s: int, t: int, p: seq<int>) {
    && |p| > 0 && p[0] == s && p[|p| - 1] == t
    && forall i :: 0 < i < |p| ==> Follows(es, p, i)
  }

  ghost predicate Follows(es: seq<Edge>, p: seq<int>, i: int) {
    0 < i < |p| && (p[i - 1], p[i]) in es
  }

  lemma TrailIsWalk(es: seq<Edge>, s: int, t: int, p: seq<int>)
    ensures Trail(es, s, t, p) <==> Walk(ArcsOf(es), s, t, p)
  {
    forall i
      ensures Follows(es, p, i) <==> ArcAt(ArcsOf(es), p, i)
    {
    }
  }

  /** A hop count is the number of edges on a shortest walk along the list, or -1 where there is none. */
  lemma HopCountMeans(es: seq<Edge>, s: int, t: int)
    ensures HopCount(es, s, t) == -1 <==> !exists p :: Trail(es, s, t, p)
    ensures HopCount(es, s, t) != -1 ==> exists p :: Trail(es, s, t, p) && |p| - 1 == HopCount(es, s, t)
    ensures forall p :: Trail(es, s, t, p) ==> 0 <= HopCount(es, s, t) <= |p| - 1
  {
    forall p
      ensures Trail(es, s, t, p) <==> Walk(ArcsOf(es), s, t, p)
    {
      TrailIsWalk(es, s, t, p);
    }
    HopsIsShortestWalk(ArcsOf(es), s, t);
    if HopCount(es, s, t) != -1 {
      var p :| Walk(ArcsOf(es), s, t, p) && |p| - 1 == HopCount(es, s, t);
      assert Trail(es, s, t, p);
    }
    if exists p :: Walk(ArcsOf(es), s, t, p) {
      var p :| Walk(ArcsOf(es), s, t, p);
      assert Trail(es, s, t, p);
    }
  }

  ghost predicate Leads(es: seq<Edge>, s: int, t: int) {
    exists p :: Trail(es, s, t, p)
  }

  lemma LeadsIsReach(es: seq<Edge>, s: int, t: int)
    ensures Leads(es, s, t) <==> t in Reach(ArcsOf(es), s)
    ensures Leads(es, s, t) <==> HopCount(es, s, t) != -1
  {
    HopCountMeans(es, s, t);
  }

  /** What a traversal reports: how many nodes walks lead to, itself among them, and the longest shortest walk. */
  lemma TraversalMeans(es: seq<Edge>, s: int)
    ensures Reached(es, s) == |set t | t in Nodes(es) + {s} && Leads(es, s, t)|
    ensures forall t :: Leads(es, s, t) ==> 0 <= HopCount(es, s, t) <= Depth(es, s)
    ensures exists t :: Leads(es, s, t) && HopCount(es, s, t) == Depth(es, s)
  {
    var arcs := ArcsOf(es);
    ReachAndRadiusMeaning(arcs, s);
    forall t
      ensures Leads(es, s, t) <==> t in Reach(arcs, s)
    {
      LeadsIsReach(es, s, t);
    }
    BallInUniverse(arcs, s, Radius(arcs, s));
    assert Universe(arcs, s) <= Nodes(es) + {s};
    assert Reach(arcs, s) == set t | t in Nodes(es) + {s} && Leads(es, s, t);
  }

  ghost predicate LeadsInTwo(es: seq<Edge>, s: int, t: int) {
    exists p :: Trail(es, s, t, p) && 2 <= |p| <= 3
  }

  /** The two-hop answer counts the nodes, the seed aside, that a walk of one or two edges leads to. */
  lemma TwoHopCountMeans(es: seq<Edge>, u: int)
    ensures TwoHopCount(es, u) == |set v | v in Nodes(es) && v != u && LeadsInTwo(es, u, v)|
  {
    forall v
      ensures v in TwoHopSet(es, u) <==> v != u && LeadsInTwo(es, u, v)
    {
      TwoHopMeaning(es, u, v);
      forall p
        ensures Trail(es, u, v, p) <==> Walk(ArcsOf(es), u, v, p)
      {
        TrailIsWalk(es, u, v, p);
      }
    }
    BallInUniverse(ArcsOf(es), u, 2);
    assert TwoHopSet(es, u) <= Nodes(es);
    assert TwoHopSet(es, u) == set v | v in Nodes(es) && v != u && LeadsInTwo(es, u, v);
  }
}
