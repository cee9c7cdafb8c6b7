/**
 Compressed sparse row form: the value both the Go reference and the Rust engine build, and
 why it says exactly what the edge list says.
 */
module Csr {
  import opened Sets
  import opened Digraph
  import opened EdgeList
  import opened Library

  /** `ids` ascend; the neighbours of node `i` are `target[offset[i]..offset[i + 1]]`. */
  datatype Graph = Graph(ids: seq<int>, offset: seq<int>, target: seq<int>) {
    /** Enough of a shape to walk the rows without leaving the arrays. */
    ghost predicate WellFormed() {
      && |offset| == |ids| + 1
      && (forall i :: 0 <= i < |ids| ==> RowFits(i))
      && (forall p :: 0 <= p < |target| ==> 0 <= target[p] < |ids|)
    }

    ghost predicate RowFits(i: int) {
      0 <= i < |offset| - 1 && 0 <= offset[i] <= offset[i + 1] <= |target|
    }

    function Neighbours(i: int): (row: seq<int>)
      requires WellFormed() && 0 <= i < |ids|
      ensures forall j :: 0 <= j < |row| ==> 0 <= row[j] < |ids|
    {
      assert RowFits(i);
      target[offset[i]..offset[i + 1]]
    }

    ghost function Arcs(): Digraph.Arcs
      requires WellFormed()
    {
      set i, m | 0 <= i < |ids| && m in Neighbours(i) :: (i, m)
    }

    /** The edges in the order the rows hold them, with the identifiers put back. */
    ghost function RowEdges(i: int): seq<Edge>
      requires WellFormed() && 0 <= i <= |ids|
      decreases i
    {
      if i <= 0 then [] else RowEdges(i - 1) + Tagged(ids[i - 1], Names(ids, Neighbours(i - 1)))
    }
  }

  /** The identifiers a row of indexes stands for. */
  ghost function Names(ids: seq<int>, row: seq<int>): seq<int>
    requires forall j :: 0 <= j < |row| ==> 0 <= row[j] < |ids|
  {
    seq(|row|, j requires 0 <= j < |row| => ids[row[j]])
  }

  function Tagged(u: int, row: seq<int>): (es: seq<Edge>)
    ensures |es| == |row|
  {
    seq(|row|, j requires 0 <= j < |row| => (u, row[j]))
  }

  /** Where row `i` starts when the rows are laid out one after another. */
  ghost function Start(es: seq<Edge>, ids: seq<int>, i: int): nat
    requires 0 <= i <= |ids|
    decreases i
  {
    if i <= 0 then 0 else Start(es, ids, i - 1) + |Row(es, ids[i - 1])|
  }

  /** From `start` on, `target` holds the dense indexes of the nodes in `row`. */
  ghost predicate Holds(target: seq<int>, ids: seq<int>, start: nat, row: seq<int>) {
    start + |row| <= |target| && NamesAre(target[start..start + |row|], ids, row)
  }

  ghost predicate NamesAre(indexes: seq<int>, ids: seq<int>, row: seq<int>) {
    |indexes| == |row| && forall j :: 0 <= j < |row| ==> 0 <= indexes[j] < |ids| && ids[indexes[j]] == row[j]
  }

  ghost predicate RowHeld(g: Graph, es: seq<Edge>, i: int) {
    0 <= i < |g.ids| && Holds(g.target, g.ids, Start(es, g.ids, i), Row(es, g.ids[i]))
  }

  /** The nodes of an edge list, ascending; there is exactly one such list. */
  ghost predicate ListsNodes(ids: seq<int>, es: seq<Edge>) {
    Increasing(ids) && Elems(ids) == Nodes(es)
  }

  /** What a build has to produce from an edge list. */
  ghost predicate IsCsr(g: Graph, es: seq<Edge>) {
    && ListsNodes(g.ids, es)
    && |g.offset| == |g.ids| + 1 && |g.target| == |es|
    && (forall i :: 0 <= i <= |g.ids| ==> g.offset[i] == Start(es, g.ids, i))
    && (forall i :: 0 <= i < |g.ids| ==> RowHeld(g, es, i))
  }

  // ----- Where rows start

  lemma {:induction false} StartMonotone(es: seq<Edge>, ids: seq<int>, i: nat, j: nat)
    requires i <= j <= |ids|
    ensures Start(es, ids, i) <= Start(es, ids, j)
    decreases j - i
  {
    if i < j {
      StartMonotone(es, ids, i, j - 1);
    }
  }

  lemma InNextSlice(ids: seq<int>, i: nat, x: int)
    requires 0 < i <= |ids| && Increasing(ids)
    ensures x in ids[..i] <==> x in ids[..i - 1] || x == ids[i - 1]
    ensures !(x in ids[..i - 1] && x == ids[i - 1])
  {
    assert ids[..i] == ids[..i - 1] + [ids[i - 1]];
  }

  lemma {:induction false} StartSnoc(es: seq<Edge>, e: Edge, ids: seq<int>, i: nat)
    requires i <= |ids| && Increasing(ids)
    ensures Start(es + [e], ids, i) == Start(es, ids, i) + if e.0 in ids[..i] then 1 else 0
  {
    if i > 0 {
      StartSnoc(es, e, ids, i - 1);
      RowSnoc(es, e, ids[i - 1]);
      InNextSlice(ids, i, e.0);
    }
  }

  /** The rows hold every edge and nothing else, so they fill the target array exactly. */
  lemma {:induction false} StartTotal(es: seq<Edge>, ids: seq<int>)
    requires Increasing(ids) && forall e :: e in es ==> e.0 in ids
    ensures Start(es, ids, |ids|) == |es|
    decreases |es|
  {
    if es == [] {
      StartEmpty(ids, |ids|);
    } else {
      var rest, e := es[..|es| - 1], es[|es| - 1];
      assert es == rest + [e];
      StartTotal(rest, ids);
      StartSnoc(rest, e, ids, |ids|);
      assert ids[..|ids|] == ids;
    }
  }

  lemma {:induction false} StartEmpty(ids: seq<int>, i: nat)
    requires i <= |ids|
    ensures Start([], ids, i) == 0
  {
    if i > 0 {
      StartEmpty(ids, i - 1);
    }
  }

  lemma {:induction false} RowOfPosition(es: seq<Edge>, ids: seq<int>, n: nat, p: nat) returns (i: nat)
    requires n <= |ids| && p < Start(es, ids, n)
    ensures i < n && Start(es, ids, i) <= p < Start(es, ids, i) + |Row(es, ids[i])|
  {
    i := n - 1;
    if p < Start(es, ids, n - 1) {
      i := RowOfPosition(es, ids, n - 1, p);
    }
  }

  lemma EdgeEndsAreIds(es: seq<Edge>, ids: seq<int>)
    requires ListsNodes(ids, es)
    ensures forall e :: e in es ==> e.0 in ids && e.1 in ids
  {
    forall e | e in es
      ensures e.0 in ids && e.1 in ids
    {
      assert e.0 in Elems(ids) && e.1 in Elems(ids);
    }
  }

  // ----- What IsCsr gives

  lemma IsCsrWellFormed(g: Graph, es: seq<Edge>)
    requires IsCsr(g, es)
    ensures g.WellFormed()
  {
    var ids := g.ids;
    EdgeEndsAreIds(es, g.ids);
    StartTotal(es, ids);
    forall i | 0 <= i < |ids|
      ensures g.RowFits(i)
    {
      StartMonotone(es, ids, i + 1, |ids|);
    }
    forall p | 0 <= p < |g.target|
      ensures 0 <= g.target[p] < |ids|
    {
      TargetNamesANode(g, es, p);
    }
  }

  lemma TargetNamesANode(g: Graph, es: seq<Edge>, p: nat)
    requires IsCsr(g, es) && p < Start(es, g.ids, |g.ids|) == |g.target|
    ensures 0 <= g.target[p] < |g.ids|
  {
    hide Start, Row;
    var i := RowOfPosition(es, g.ids, |g.ids|, p);
    assert RowHeld(g, es, i);
    var start, row := Start(es, g.ids, i), Row(es, g.ids[i]);
    var j := p - start;
    var part := g.target[start..start + |row|];
    assert NamesAre(part, g.ids, row);
    assert part[j] == g.target[p] && 0 <= part[j] < |g.ids|;
  }

  /** Row `i` names, in input order, the far ends of the edges leaving `ids[i]`. */
  lemma RowsAreInputRows(g: Graph, es: seq<Edge>, i: int)
    requires IsCsr(g, es) && 0 <= i < |g.ids|
    ensures g.WellFormed() && Names(g.ids, g.Neighbours(i)) == Row(es, g.ids[i])
  {
    IsCsrWellFormed(g, es);
    assert RowHeld(g, es, i);
  }

  lemma ArcIsEdge(g: Graph, es: seq<Edge>, i: int, m: int)
    requires IsCsr(g, es) && g.WellFormed() && 0 <= i < |g.ids| && m in g.Neighbours(i)
    ensures (g.ids[i], g.ids[m]) in ArcsOf(es)
  {
    RowsAreInputRows(g, es, i);
    var j :| 0 <= j < |g.Neighbours(i)| && g.Neighbours(i)[j] == m;
    assert m in g.Neighbours(i) && Names(g.ids, g.Neighbours(i))[j] == g.ids[m];
    RowElems(es, g.ids[i]);
    assert g.ids[m] in Elems(Row(es, g.ids[i]));
  }

  lemma EdgeIsArc(g: Graph, es: seq<Edge>, b: Edge) returns (i: int, m: int)
    requires IsCsr(g, es) && g.WellFormed() && b in ArcsOf(es)
    ensures 0 <= i < |g.ids| && m in g.Neighbours(i) && b == (g.ids[i], g.ids[m])
  {
    EdgeEndsAreIds(es, g.ids);
    i :| 0 <= i < |g.ids| && g.ids[i] == b.0;
    RowsAreInputRows(g, es, i);
    var j := EdgeInRow(es, b);
    m := g.Neighbours(i)[j];
    assert m in g.Neighbours(i) && Names(g.ids, g.Neighbours(i))[j] == g.ids[m];
  }

  /** The graph is the edge list's arcs under the renaming of identifiers to indexes. */
  lemma CsrRenames(g: Graph, es: seq<Edge>)
    requires IsCsr(g, es)
    ensures g.WellFormed() && Renames(g.ids, g.Arcs(), ArcsOf(es))
  {
    IsCsrWellFormed(g, es);
    forall a | a in g.Arcs()
      ensures 0 <= a.0 < |g.ids| && 0 <= a.1 < |g.ids| && (g.ids[a.0], g.ids[a.1]) in ArcsOf(es)
    {
      ArcIsEdge(g, es, a.0, a.1);
    }
    forall b | b in ArcsOf(es)
      ensures exists i, j :: (i, j) in g.Arcs() && 0 <= i < |g.ids| && 0 <= j < |g.ids| && b == (g.ids[i], g.ids[j])
    {
      var i, m := EdgeIsArc(g, es, b);
      assert (i, m) in g.Arcs();
    }
  }

  /** One edge list has one compressed form, whoever builds it. */
  lemma CsrIsUnique(g: Graph, h: Graph, es: seq<Edge>)
    requires IsCsr(g, es) && IsCsr(h, es)
    ensures g == h
  {
    IncreasingUnique(g.ids, h.ids);
    SameOffsets(g, h, es);
    EdgeEndsAreIds(es, g.ids);
    StartTotal(es, g.ids);
    forall p | 0 <= p < |es|
      ensures g.target[p] == h.target[p]
    {
      SameTarget(g, h, es, p);
    }
  }

  lemma SameOffsets(g: Graph, h: Graph, es: seq<Edge>)
    requires IsCsr(g, es) && IsCsr(h, es) && g.ids == h.ids
    ensures g.offset == h.offset
  {
    forall i | 0 <= i <= |g.ids|
      ensures g.offset[i] == h.offset[i]
    {
      assert g.offset[i] == Start(es, g.ids, i);
    }
  }

  lemma SameTarget(g: Graph, h: Graph, es: seq<Edge>, p: nat)
    requires IsCsr(g, es) && IsCsr(h, es) && g.ids == h.ids && p < Start(es, g.ids, |g.ids|)
    ensures p < |g.target| && p < |h.target| && g.target[p] == h.target[p]
  {
    var i := RowOfPosition(es, g.ids, |g.ids|, p);
    assert RowHeld(g, es, i) && RowHeld(h, es, i);
    SameRowSameTarget(g.target, h.target, g.ids, Start(es, g.ids, i), Row(es, g.ids[i]), p);
  }

  lemma SameRowSameTarget(t: seq<int>, u: seq<int>, ids: seq<int>, start: nat, row: seq<int>, p: int)
    requires Increasing(ids) && Holds(t, ids, start, row) && Holds(u, ids, start, row)
    requires start <= p < start + |row|
    ensures t[p] == u[p]
  {
    var j := p - start;
    var node := row[j];
    assert ids[t[start..start + |row|][j]] == node == ids[u[start..start + |row|][j]];
  }

  // ----- The graph answers for the edge list

  lemma SuccOfRow(g: Graph, i: int)
    requires g.WellFormed() && 0 <= i < |g.ids|
    ensures Elems(g.Neighbours(i)) == Succ(g.Arcs(), {i})
  {
    forall m | m in g.Neighbours(i)
      ensures m in Succ(g.Arcs(), {i})
    {
      assert (i, m) in g.Arcs();
    }
  }

  lemma {:induction false} BallInGraph(g: Graph, i: int, d: int)
    requires g.WellFormed() && 0 <= i < |g.ids|
    ensures forall v :: v in Ball(g.Arcs(), i, d) ==> 0 <= v < |g.ids|
    decreases d
  {
    if d >= 0 {
      BallInGraph(g, i, d - 1);
    }
  }

  /** Every question about index `i` has the answer the edge list gives for its identifier. */
  ghost predicate AnswersFor(g: Graph, es: seq<Edge>, i: int)
    requires g.WellFormed()
  {
    && 0 <= i < |g.ids|
    && |g.Neighbours(i)| == Degree(es, g.ids[i])
    && |Ball(g.Arcs(), i, 2) - {i}| == TwoHopCount(es, g.ids[i])
    && |Reach(g.Arcs(), i)| == Reached(es, g.ids[i]) && Radius(g.Arcs(), i) == Depth(es, g.ids[i])
    && forall j :: 0 <= j < |g.ids| ==> SameHops(g, es, i, j)
  }

  ghost predicate SameHops(g: Graph, es: seq<Edge>, i: int, j: int)
    requires g.WellFormed() && 0 <= i < |g.ids| && 0 <= j < |g.ids|
  {
    Hops(g.Arcs(), i, j) == HopCount(es, g.ids[i], g.ids[j])
  }

  ghost predicate AnswersForAll(g: Graph, es: seq<Edge>) {
    g.WellFormed() && forall i :: 0 <= i < |g.ids| ==> AnswersFor(g, es, i)
  }

  lemma CsrAnswers(g: Graph, es: seq<Edge>)
    requires IsCsr(g, es)
    ensures AnswersForAll(g, es)
  {
    CsrRenames(g, es);
    forall i | 0 <= i < |g.ids|
      ensures AnswersFor(g, es, i)
    {
      RowsAreInputRows(g, es, i);
      AnswersRenamed(g.ids, g.Arcs(), ArcsOf(es), i);
      TwoHopsRenamed(g, es, i);
    }
  }

  lemma TwoHopsRenamed(g: Graph, es: seq<Edge>, i: int)
    requires g.WellFormed() && Renames(g.ids, g.Arcs(), ArcsOf(es)) && 0 <= i < |g.ids|
    ensures |Ball(g.Arcs(), i, 2) - {i}| == TwoHopCount(es, g.ids[i])
  {
    var ball := Ball(g.Arcs(), i, 2);
    BallRenamed(g.ids, g.Arcs(), ArcsOf(es), i, 2);
    ImageWithout(g.ids, ball, i);
    ImageSize(g.ids, ball - {i});
  }

  // ----- Nothing is lost

  ghost predicate RowMatches(g: Graph, es: seq<Edge>, k: int)
    requires g.WellFormed()
  {
    0 <= k < |g.ids| && Names(g.ids, g.Neighbours(k)) == Row(es, g.ids[k])
  }

  lemma {:induction false} RowEdgesOf(g: Graph, es: seq<Edge>, i: nat)
    requires g.WellFormed() && i <= |g.ids|
    requires forall k :: 0 <= k < i ==> RowMatches(g, es, k)
    ensures multiset(g.RowEdges(i)) == Grouped(es, g.ids, i)
  {
    if i > 0 {
      RowEdgesOf(g, es, i - 1);
      assert RowMatches(g, es, i - 1);
      assert g.RowEdges(i) == g.RowEdges(i - 1) + Tagged(g.ids[i - 1], Row(es, g.ids[i - 1]));
    }
  }

  ghost function Grouped(es: seq<Edge>, ids: seq<int>, i: nat): multiset<Edge>
    requires i <= |ids|
  {
    if i == 0 then multiset{} else Grouped(es, ids, i - 1) + multiset(Tagged(ids[i - 1], Row(es, ids[i - 1])))
  }

  lemma TaggedSnoc(es: seq<Edge>, e: Edge, u: int)
    ensures multiset(Tagged(u, Row(es + [e], u)))
         == multiset(Tagged(u, Row(es, u))) + if e.0 == u then multiset{e} else multiset{}
  {
    RowSnoc(es, e, u);
    if e.0 == u {
      assert Tagged(u, Row(es + [e], u)) == Tagged(u, Row(es, u)) + [e];
    } else {
      assert Row(es + [e], u) == Row(es, u);
    }
  }

  lemma {:induction false} GroupedSnoc(es: seq<Edge>, e: Edge, ids: seq<int>, i: nat)
    requires i <= |ids| && Increasing(ids)
    ensures Grouped(es + [e], ids, i) == Grouped(es, ids, i) + if e.0 in ids[..i] then multiset{e} else multiset{}
  {
    if i > 0 {
      var u := ids[i - 1];
      GroupedSnoc(es, e, ids, i - 1);
      TaggedSnoc(es, e, u);
      InNextSlice(ids, i, e.0);
    }
  }

  lemma {:induction false} GroupedTotal(es: seq<Edge>, ids: seq<int>)
    requires Increasing(ids) && forall e :: e in es ==> e.0 in ids
    ensures Grouped(es, ids, |ids|) == multiset(es)
    decreases |es|
  {
    if es == [] {
      GroupedEmpty(ids, |ids|);
    } else {
      var rest, e := es[..|es| - 1], es[|es| - 1];
      assert es == rest + [e];
      GroupedTotal(rest, ids);
      GroupedSnoc(rest, e, ids, |ids|);
      assert ids[..|ids|] == ids;
    }
  }

  lemma {:induction false} GroupedEmpty(ids: seq<int>, i: nat)
    requires i <= |ids|
    ensures Grouped([], ids, i) == multiset{}
  {
    if i > 0 {
      GroupedEmpty(ids, i - 1);
    }
  }

  /** Read back row by row, the graph gives every input edge, each as often as it came. */
  lemma BuildLosesNothing(g: Graph, es: seq<Edge>)
    requires IsCsr(g, es)
    ensures g.WellFormed() && multiset(g.RowEdges(|g.ids|)) == multiset(es)
  {
    IsCsrWellFormed(g, es);
    EdgeEndsAreIds(es, g.ids);
    forall k | 0 <= k < |g.ids|
      ensures RowMatches(g, es, k)
    {
      RowsAreInputRows(g, es, k);
    }
    RowEdgesOf(g, es, |g.ids|);
    GroupedTotal(es, g.ids);
  }
}
