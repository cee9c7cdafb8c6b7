/**
 Walking compressed rows with a stamped visited set. The Go reference and the Rust engine
 expand a frontier with the same statements, so those are here once; each keeps its own
 loop over levels.
 */
module RowWalk {
  import opened Sets
  import opened Digraph
  import opened Csr
  import opened Levels
  import opened Stamping

  ghost predicate Ready(g: Graph, mark: Stamps)
    reads mark, mark.seen
  {
    g.WellFormed() && mark.Valid() && mark.seen.Length == |g.ids|
  }

  ghost predicate Within(row: seq<int>, n: nat) {
    forall j :: 0 <= j < |row| ==> 0 <= row[j] < n
  }

  lemma OneMore(before: set<int>, seen: set<int>, m: int)
    ensures before + (seen + {m}) == before + seen + {m}
    ensures |before + seen + {m}| == |before + seen| + if m in before + seen then 0 else 1
  {
    if m in before + seen {
      assert before + seen + {m} == before + seen;
    }
  }

  /** Marks every node of a row and counts the new ones. */
  method CountRow(row: seq<int>, mark: Stamps, n: int) returns (more: int)
    requires mark.Valid() && Within(row, mark.seen.Length)
    modifies mark.seen
    ensures mark.Valid() && mark.Marked() == old(mark.Marked()) + Elems(row)
    ensures more - n == |mark.Marked()| - |old(mark.Marked())|
  {
    more := n;
    ghost var before := mark.Marked();
    for j := 0 to |row|
      invariant mark.Valid() && mark.Marked() == before + Elems(row[..j])
      invariant more - n == |mark.Marked()| - |before|
    {
      ElemsUpTo(row, j);
      OneMore(before, Elems(row[..j]), row[j]);
      var isNew := mark.Mark(row[j]);
      if isNew {
        more := more + 1;
      }
    }
    assert row[..|row|] == row;
  }

  /** Marks every node of a row, counting the new ones and appending them. */
  method MarkRow(row: seq<int>, mark: Stamps, next: seq<int>, reached: int) returns (more: seq<int>, total: int)
    requires mark.Valid() && Within(row, mark.seen.Length)
    modifies mark.seen
    ensures mark.Valid() && total - reached == |mark.Marked()| - |old(mark.Marked())|
    ensures Collects(Elems(row), old(mark.Marked()), next, mark.Marked(), more)
  {
    more, total := next, reached;
    for j := 0 to |row|
      invariant mark.Valid() && total - reached == |mark.Marked()| - |old(mark.Marked())|
      invariant Collects(Elems(row[..j]), old(mark.Marked()), next, mark.Marked(), more)
    {
      ElemsUpTo(row, j);
      CollectOne(Elems(row[..j]), row[j], old(mark.Marked()), next, mark.Marked(), more);
      var isNew := mark.Mark(row[j]);
      if isNew {
        total := total + 1;
        more := more + [row[j]];
      }
    }
    assert row[..|row|] == row;
  }

  /** The same, stopping as soon as the node looked for turns up. */
  method SearchRow(row: seq<int>, to: int, mark: Stamps, next: seq<int>) returns (found: bool, more: seq<int>)
    requires mark.Valid() && Within(row, mark.seen.Length)
    modifies mark.seen
    ensures mark.Valid()
    ensures found ==> to in row
    ensures !found ==> to !in Elems(row) && Collects(Elems(row), old(mark.Marked()), next, mark.Marked(), more)
  {
    more := next;
    ghost var before := mark.Marked();
    for j := 0 to |row|
      invariant mark.Valid() && to !in Elems(row[..j])
      invariant Collects(Elems(row[..j]), before, next, mark.Marked(), more)
    {
      if row[j] == to {
        return true, more;
      }
      ElemsUpTo(row, j);
      CollectOne(Elems(row[..j]), row[j], before, next, mark.Marked(), more);
      var isNew := mark.Mark(row[j]);
      if isNew {
        more := more + [row[j]];
      }
    }
    assert row[..|row|] == row;
    return false, more;
  }

  lemma FrontierInGraph(g: Graph, s: int, d: nat, frontier: seq<int>)
    requires g.WellFormed() && 0 <= s < |g.ids| && IsFrontier(g.Arcs(), s, d, frontier)
    ensures Within(frontier, |g.ids|)
  {
    BallInGraph(g, s, d);
    forall j | 0 <= j < |frontier|
      ensures 0 <= frontier[j] < |g.ids|
    {
      assert frontier[j] in Elems(frontier);
    }
  }

  /** Expands a whole frontier into `next`, which has to have been cleared. */
  method ExpandLevel(g: Graph, ghost s: int, ghost d: nat, frontier: seq<int>, next: seq<int>, mark: Stamps,
                     reached: int)
    returns (more: seq<int>, total: int)
    requires Ready(g, mark) && 0 <= s < |g.ids| && next == []
    requires IsFrontier(g.Arcs(), s, d, frontier) && mark.Marked() == Ball(g.Arcs(), s, d)
    modifies mark.seen
    ensures Ready(g, mark)
    ensures IsFrontier(g.Arcs(), s, d + 1, more) && mark.Marked() == Ball(g.Arcs(), s, d + 1)
    ensures total - reached == |mark.Marked()| - |old(mark.Marked())|
  {
    FrontierInGraph(g, s, d, frontier);
    LevelBegins(g.Arcs(), s, d, frontier);
    more, total := next, reached;
    for i := 0 to |frontier|
      invariant Ready(g, mark)
      invariant Inside(g.Arcs(), s, d, frontier, i, mark.Marked(), more)
      invariant total - reached == |mark.Marked()| - |old(mark.Marked())|
    {
      ghost var marked, before := mark.Marked(), more;
      SuccOfRow(g, frontier[i]);
      more, total := MarkRow(g.Neighbours(frontier[i]), mark, more, total);
      RowEnds(g.Arcs(), s, d, frontier, i, marked, before, mark.Marked(), more);
    }
    LevelEnds(g.Arcs(), s, d, frontier, mark.Marked(), more);
  }

  /** The same, looking for one node. */
  method SearchLevel(g: Graph, ghost s: int, to: int, ghost d: nat, frontier: seq<int>, next: seq<int>, mark: Stamps)
    returns (found: bool, more: seq<int>)
    requires Ready(g, mark) && 0 <= s < |g.ids| && next == []
    requires IsFrontier(g.Arcs(), s, d, frontier) && mark.Marked() == Ball(g.Arcs(), s, d)
    requires to !in mark.Marked()
    modifies mark.seen
    ensures Ready(g, mark)
    ensures found ==> Hops(g.Arcs(), s, to) == d + 1
    ensures !found ==> IsFrontier(g.Arcs(), s, d + 1, more) && mark.Marked() == Ball(g.Arcs(), s, d + 1)
    ensures !found ==> to !in mark.Marked()
  {
    FrontierInGraph(g, s, d, frontier);
    LevelBegins(g.Arcs(), s, d, frontier);
    more := next;
    for i := 0 to |frontier|
      invariant Ready(g, mark) && to !in mark.Marked()
      invariant Inside(g.Arcs(), s, d, frontier, i, mark.Marked(), more)
    {
      ghost var marked, before := mark.Marked(), more;
      var row := g.Neighbours(frontier[i]);
      SuccOfRow(g, frontier[i]);
      found, more := SearchRow(row, to, mark, more);
      if found {
        assert to in Elems(row);
        MetAtNextLevel(g.Arcs(), s, d, frontier, i, marked, before, to);
        return;
      }
      RowEnds(g.Arcs(), s, d, frontier, i, marked, before, mark.Marked(), more);
    }
    LevelEnds(g.Arcs(), s, d, frontier, mark.Marked(), more);
    found := false;
  }

  /** Marks everything one hop from a row, counting the new nodes. */
  method CountBeyond(g: Graph, ones: seq<int>, mark: Stamps, n: int) returns (more: int)
    requires Ready(g, mark) && Within(ones, |g.ids|)
    modifies mark.seen
    ensures Ready(g, mark)
    ensures mark.Marked() == old(mark.Marked()) + Succ(g.Arcs(), Elems(ones))
    ensures more - n == |mark.Marked()| - |old(mark.Marked())|
  {
    more := n;
    for j := 0 to |ones|
      invariant Ready(g, mark)
      invariant mark.Marked() == old(mark.Marked()) + Succ(g.Arcs(), Elems(ones[..j]))
      invariant more - n == |mark.Marked()| - |old(mark.Marked())|
    {
      SuccOfRow(g, ones[j]);
      SuccUpTo(g.Arcs(), ones, j);
      more := CountRow(g.Neighbours(ones[j]), mark, more);
    }
    assert ones[..|ones|] == ones;
  }

  lemma SuccUpTo(arcs: Arcs, row: seq<int>, j: nat)
    requires j < |row|
    ensures Succ(arcs, Elems(row[..j + 1])) == Succ(arcs, Elems(row[..j])) + Succ(arcs, {row[j]})
  {
    ElemsUpTo(row, j);
    SuccUnion(arcs, Elems(row[..j]), {row[j]});
  }

  lemma TwoHopsMarked(g: Graph, from: int, marked: set<int>)
    requires g.WellFormed() && 0 <= from < |g.ids|
    requires var ones := Elems(g.Neighbours(from)); marked == {from} + ones + Succ(g.Arcs(), ones)
    ensures |marked| - 1 == |Ball(g.Arcs(), from, 2) - {from}|
  {
    SuccOfRow(g, from);
    BallOfTwo(g.Arcs(), from);
  }
}
