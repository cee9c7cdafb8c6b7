/**
 The invariants of building compressed rows in two passes: count, accumulate, fill.

 Both builds run the same three loops over arrays; each step is an update of one array
 element, and each lemma here says which invariant that update keeps.
 */
module CountThenFill {
  import opened EdgeList
  import opened Library
  import opened Csr

  /** After counting the first `k` edges, entry `v + 1` is the length of row `v` so far. */
  ghost predicate Counted(offset: seq<int>, es: seq<Edge>, ids: seq<int>, k: int) {
    && |offset| == |ids| + 1 && 0 <= k <= |es| && offset[0] == 0
    && forall v :: 0 <= v < |ids| ==> offset[v + 1] == |Row(es[..k], ids[v])|
  }

  /** The first `i` entries are already row starts, the others still row lengths. */
  ghost predicate Accumulated(offset: seq<int>, es: seq<Edge>, ids: seq<int>, i: int) {
    && |offset| == |ids| + 1 && 0 <= i <= |offset|
    && (forall j :: 0 <= j < i ==> offset[j] == Start(es, ids, j))
    && (forall j :: i <= j < |offset| && j > 0 ==> offset[j] == |Row(es, ids[j - 1])|)
  }

  /** Row `v` holds what the first `k` edges put there, and its cursor is just past that. */
  ghost predicate RowStarted(target: seq<int>, cursor: seq<int>, es: seq<Edge>, ids: seq<int>, k: int, v: int) {
    && 0 <= v < |ids| == |cursor| && 0 <= k <= |es|
    && cursor[v] == Start(es, ids, v) + |Row(es[..k], ids[v])|
    && Holds(target, ids, Start(es, ids, v), Row(es[..k], ids[v]))
  }

  ghost predicate Filled(target: seq<int>, cursor: seq<int>, es: seq<Edge>, ids: seq<int>, k: int) {
    && |target| == |es| && |cursor| == |ids| && 0 <= k <= |es|
    && forall v :: 0 <= v < |ids| ==> RowStarted(target, cursor, es, ids, k, v)
  }

  lemma CountStep(offset: seq<int>, es: seq<Edge>, ids: seq<int>, k: nat, from: nat)
    requires Increasing(ids) && Counted(offset, es, ids, k)
    requires k < |es| && from < |ids| && ids[from] == es[k].0
    ensures Counted(offset[from + 1 := offset[from + 1] + 1], es, ids, k + 1)
  {
    forall v | 0 <= v < |ids|
      ensures |Row(es[..k + 1], ids[v])| == |Row(es[..k], ids[v])| + if v == from then 1 else 0
    {
      RowUpTo(es, k, ids[v]);
    }
  }

  lemma CountedAll(offset: seq<int>, es: seq<Edge>, ids: seq<int>)
    requires Counted(offset, es, ids, |es|)
    ensures Accumulated(offset, es, ids, 1)
  {
    assert es[..|es|] == es;
    forall j | 1 <= j < |offset|
      ensures offset[j] == |Row(es, ids[j - 1])|
    {
      var v := j - 1;
      assert offset[v + 1] == |Row(es, ids[v])|;
    }
  }

  lemma AccumulateStep(offset: seq<int>, es: seq<Edge>, ids: seq<int>, i: nat)
    requires Accumulated(offset, es, ids, i) && 1 <= i <= |ids|
    ensures Accumulated(offset[i := offset[i] + offset[i - 1]], es, ids, i + 1)
  {
  }

  lemma NothingFilled(target: seq<int>, cursor: seq<int>, offset: seq<int>, es: seq<Edge>, ids: seq<int>)
    requires ListsNodes(ids, es) && Accumulated(offset, es, ids, |ids| + 1)
    requires |target| == |es| && cursor == offset[..|ids|]
    ensures Filled(target, cursor, es, ids, 0)
  {
    EdgeEndsAreIds(es, ids);
    StartTotal(es, ids);
    forall v | 0 <= v < |ids|
      ensures RowStarted(target, cursor, es, ids, 0, v)
    {
      StartMonotone(es, ids, v, |ids|);
    }
  }

  /** The next edge of a row still fits before the next row starts. */
  lemma CursorInRow(es: seq<Edge>, ids: seq<int>, k: nat, from: nat)
    requires ListsNodes(ids, es) && k < |es| && from < |ids| && ids[from] == es[k].0
    ensures Start(es, ids, from) + |Row(es[..k], ids[from])| < Start(es, ids, from + 1) <= |es|
  {
    RowUpTo(es, k, ids[from]);
    RowPrefix(es, k + 1, ids[from]);
    EdgeEndsAreIds(es, ids);
    StartTotal(es, ids);
    StartMonotone(es, ids, from + 1, |ids|);
  }

  /** The slot the next edge goes to lies outside every other row. */
  lemma SlotOutsideOtherRows(es: seq<Edge>, ids: seq<int>, k: nat, from: nat, v: nat)
    requires ListsNodes(ids, es) && k < |es| && from < |ids| && ids[from] == es[k].0
    requires v < |ids| && v != from
    ensures var slot := Start(es, ids, from) + |Row(es[..k], ids[from])|;
            slot < Start(es, ids, v) || Start(es, ids, v) + |Row(es[..k], ids[v])| <= slot
  {
    hide Row;
    CursorInRow(es, ids, k, from);
    if v < from {
      RowPrefix(es, k, ids[v]);
      StartMonotone(es, ids, v + 1, from);
    } else {
      StartMonotone(es, ids, from + 1, v);
    }
  }

  lemma FillOther(target: seq<int>, cursor: seq<int>, es: seq<Edge>, ids: seq<int>, k: nat, from: nat, to: nat, v: nat)
    requires ListsNodes(ids, es) && RowStarted(target, cursor, es, ids, k, v) && v != from
    requires k < |es| && from < |ids| && ids[from] == es[k].0
    requires cursor[from] == Start(es, ids, from) + |Row(es[..k], ids[from])| < |target|
    ensures RowStarted(target[cursor[from] := to], cursor[from := cursor[from] + 1], es, ids, k + 1, v)
  {
    RowUpTo(es, k, ids[v]);
    SlotOutsideOtherRows(es, ids, k, from, v);
    var row := Row(es[..k], ids[v]);
    assert Row(es[..k + 1], ids[v]) == row;
    HoldsElsewhere(target, ids, Start(es, ids, v), row, cursor[from], to);
  }

  lemma HoldsElsewhere(target: seq<int>, ids: seq<int>, start: nat, row: seq<int>, at: nat, to: nat)
    requires Holds(target, ids, start, row) && at < |target| && !(start <= at < start + |row|)
    ensures Holds(target[at := to], ids, start, row)
  {
    assert target[at := to][start..start + |row|] == target[start..start + |row|];
  }

  lemma HoldsOneMore(target: seq<int>, ids: seq<int>, start: nat, row: seq<int>, to: nat)
    requires Holds(target, ids, start, row) && start + |row| < |target| && to < |ids|
    ensures Holds(target[start + |row| := to], ids, start, row + [ids[to]])
  {
    var end := start + |row|;
    assert target[end := to][start..end + 1] == target[start..end] + [to];
  }

  lemma FillStep(target: seq<int>, cursor: seq<int>, es: seq<Edge>, ids: seq<int>, k: nat, from: nat, to: nat)
    requires ListsNodes(ids, es) && Filled(target, cursor, es, ids, k)
    requires k < |es| && from < |ids| && to < |ids| && es[k] == (ids[from], ids[to])
    ensures 0 <= cursor[from] < |target|
    ensures Filled(target[cursor[from] := to], cursor[from := cursor[from] + 1], es, ids, k + 1)
  {
    assert RowStarted(target, cursor, es, ids, k, from);
    CursorInRow(es, ids, k, from);
    var target', cursor' := target[cursor[from] := to], cursor[from := cursor[from] + 1];
    var next := k + 1;
    forall v | 0 <= v < |ids|
      ensures RowStarted(target', cursor', es, ids, next, v)
    {
      if v == from {
        RowUpTo(es, k, ids[from]);
        HoldsOneMore(target, ids, Start(es, ids, from), Row(es[..k], ids[from]), to);
      } else {
        assert RowStarted(target, cursor, es, ids, k, v);
        FillOther(target, cursor, es, ids, k, from, to, v);
      }
    }
  }

  /** When every edge has been placed, the three arrays are the compressed form. */
  lemma FilledAll(target: seq<int>, cursor: seq<int>, offset: seq<int>, es: seq<Edge>, ids: seq<int>)
    requires ListsNodes(ids, es) && Accumulated(offset, es, ids, |ids| + 1)
    requires Filled(target, cursor, es, ids, |es|)
    ensures IsCsr(Graph(ids, offset, target), es)
  {
    var g := Graph(ids, offset, target);
    assert es[..|es|] == es;
    forall v | 0 <= v < |ids|
      ensures RowHeld(g, es, v)
    {
      assert RowStarted(target, cursor, es, ids, |es|, v);
    }
  }

  // ----- The loops

  /** `lookup` turns every identifier into its dense index, however it does so. */
  ghost predicate LooksUp(lookup: int --> int, ids: seq<int>) {
    forall i :: 0 <= i < |ids| ==> lookup.requires(ids[i]) && lookup(ids[i]) == i
  }

  lemma LookupOfEdge(lookup: int --> int, es: seq<Edge>, ids: seq<int>, k: nat)
    requires ListsNodes(ids, es) && LooksUp(lookup, ids) && k < |es|
    ensures lookup.requires(es[k].0) && lookup.requires(es[k].1)
    ensures 0 <= lookup(es[k].0) < |ids| && ids[lookup(es[k].0)] == es[k].0
    ensures 0 <= lookup(es[k].1) < |ids| && ids[lookup(es[k].1)] == es[k].1
  {
    EdgeEndsAreIds(es, ids);
    assert es[k] in es;
    var i :| 0 <= i < |ids| && ids[i] == es[k].0;
    var j :| 0 <= j < |ids| && ids[j] == es[k].1;
  }

  /** First pass: how long each row is, then where each row starts. */
  method CountRows(edges: seq<u32>, ids: seq<int>, lookup: int --> int) returns (offset: array<int>)
    requires ListsNodes(ids, Pairs(edges)) && LooksUp(lookup, ids)
    ensures fresh(offset) && Accumulated(offset[..], Pairs(edges), ids, |ids| + 1)
  {
    ghost var es := Pairs(edges);
    offset := new int[|ids| + 1](_ => 0);
    assert Counted(offset[..], es, ids, 0);
    for k := 0 to |edges| / 2
      invariant Counted(offset[..], es, ids, k)
    {
      LookupOfEdge(lookup, es, ids, k);
      var from := lookup(edges[2 * k]);
      CountStep(offset[..], es, ids, k, from);
      ghost var before := offset[..];
      offset[from + 1] := offset[from + 1] + 1;
      assert offset[..] == before[from + 1 := before[from + 1] + 1];
    }
    CountedAll(offset[..], es, ids);
    Accumulate(offset, es, ids);
  }

  method Accumulate(offset: array<int>, ghost es: seq<Edge>, ids: seq<int>)
    requires Accumulated(offset[..], es, ids, 1)
    modifies offset
    ensures Accumulated(offset[..], es, ids, |ids| + 1)
  {
    for i := 1 to |ids| + 1
      invariant Accumulated(offset[..], es, ids, i)
    {
      AccumulateStep(offset[..], es, ids, i);
      ghost var before := offset[..];
      offset[i] := offset[i] + offset[i - 1];
      assert offset[..] == before[i := before[i] + before[i - 1]];
    }
  }

  /** Second pass: the cursor starts as a copy of the offsets so the offsets survive. */
  method FillRows(edges: seq<u32>, ids: seq<int>, lookup: int --> int, offset: array<int>) returns (target: array<int>)
    requires ListsNodes(ids, Pairs(edges)) && LooksUp(lookup, ids)
    requires Accumulated(offset[..], Pairs(edges), ids, |ids| + 1)
    ensures fresh(target) && IsCsr(Graph(ids, offset[..], target[..]), Pairs(edges))
  {
    hide Filled, IsCsr, Row, Start;
    ghost var es := Pairs(edges);
    ghost var starts := offset[..];
    var cursor := new int[|ids|](v requires 0 <= v < offset.Length reads offset => offset[v]);
    target := new int[|edges| / 2](_ => 0);
    assert cursor[..] == starts[..|ids|];
    NothingFilled(target[..], cursor[..], starts, es, ids);
    for k := 0 to |edges| / 2
      invariant offset[..] == starts
      invariant Filled(target[..], cursor[..], es, ids, k)
    {
      LookupOfEdge(lookup, es, ids, k);
      var from := lookup(edges[2 * k]);
      var to := lookup(edges[2 * k + 1]);
      FillStep(target[..], cursor[..], es, ids, k, from, to);
      ghost var targetBefore, cursorBefore := target[..], cursor[..];
      target[cursor[from]] := to;
      cursor[from] := cursor[from] + 1;
      assert target[..] == targetBefore[cursorBefore[from] := to];
      assert cursor[..] == cursorBefore[from := cursorBefore[from] + 1];
    }
    FilledAll(target[..], cursor[..], starts, es, ids);
  }
}
