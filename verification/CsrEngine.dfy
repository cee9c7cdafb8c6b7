/**
 The Rust baseline: a second build of the same compressed form, and traversals that reuse
 one scratch space between calls. Every answer is tied to the raw edge list, for any scratch
 left behind by earlier calls.
 */
module CsrEngine {
  import opened Sets
  import opened Digraph
  import opened EdgeList
  import opened Library
  import opened Csr
  import opened CountThenFill
  import opened Levels
  import opened Stamping
  import opened RowWalk
  import opened Options

  // ----- Build

  /** The position of an identifier that is there, by binary search between `lo` and `hi`. */
  function Locate(ids: seq<int>, id: int, lo: nat, hi: nat): (at: int)
    requires Increasing(ids) && lo <= hi <= |ids| && id in ids[lo..hi]
    ensures lo <= at < hi && ids[at] == id
    decreases hi - lo
  {
    var mid := (lo + hi) / 2;
    assert ids[lo..hi] == ids[lo..mid] + [ids[mid]] + ids[mid + 1..hi];
    if ids[mid] == id then mid
    else if ids[mid] < id then Locate(ids, id, mid + 1, hi)
    else Locate(ids, id, lo, mid)
  }

  function IndexOf(ids: seq<int>, id: int): (at: int)
    requires Increasing(ids) && id in ids
    ensures 0 <= at < |ids| && ids[at] == id
  {
    assert ids[0..|ids|] == ids;
    Locate(ids, id, 0, |ids|)
  }

  /** Keeps the first of every run of equal values. */
  method Dedup(s: seq<int>) returns (r: seq<int>)
    requires Ascending(s)
    ensures Increasing(r) && Elems(r) == Elems(s)
  {
    r := [];
    for i := 0 to |s|
      invariant Increasing(r) && Elems(r) == Elems(s[..i])
      invariant r != [] ==> i > 0 && r[|r| - 1] == s[i - 1]
      invariant i > 0 ==> r != []
    {
      ElemsUpTo(s, i);
      if |r| == 0 || r[|r| - 1] != s[i] {
        ElemsAppend(r, [s[i]]);
        assert Elems([s[i]]) == {s[i]};
        r := r + [s[i]];
      } else {
        assert s[i] in Elems(r);
      }
    }
    assert s[..|s|] == s;
  }

  method Build(edges: seq<u32>) returns (g: Graph)
    requires |edges| % 2 == 0
    ensures IsCsr(g, Pairs(edges))
  {
    NodesOfPairs(edges);
    var sorted := Sort(edges);
    SameElements(edges, sorted);
    var ids := Dedup(sorted);
    assert forall i :: 0 <= i < |ids| ==> ids[i] in ids;
    var lookup := id requires id in ids => IndexOf(ids, id);
    assert LooksUp(lookup, ids);
    var offset := CountRows(edges, ids, lookup);
    var target := FillRows(edges, ids, lookup, offset);
    g := Graph(ids, offset[..], target[..]);
  }

  method Index(g: Graph, id: int) returns (i: Option<int>)
    requires Increasing(g.ids)
    ensures i.Some? <==> id in g.ids
    ensures i.Some? ==> 0 <= i.value < |g.ids| && g.ids[i.value] == id
  {
    var at := LowerBound(g.ids, id);
    if at < |g.ids| && g.ids[at] == id {
      return Some(at);
    }
    return None;
  }

  // ----- Scratch

  /** The working set of one thread. */
  class Scratch {
    var marks: Stamps
    var frontier: seq<int>
    var next: seq<int>

    constructor ()
      ensures Valid() && fresh(marks) && fresh(marks.seen)
    {
      marks := new Stamps(0);
      frontier, next := [], [];
    }

    ghost predicate Valid()
      reads this, marks, marks.seen
    {
      marks.Valid()
    }

    /** Sized for the graph, nothing marked and both frontiers empty, whatever was there before. */
    method Reset(nodes: nat)
      requires Valid()
      modifies this, marks, marks.seen
      ensures Valid() && marks.seen.Length == nodes && marks.Marked() == {}
      ensures frontier == [] && next == []
      ensures marks == old(marks) || (fresh(marks) && fresh(marks.seen))
    {
      if marks.seen.Length != nodes {
        marks := new Stamps(nodes);
      }
      marks.Reset();
      frontier, next := [], [];
    }
  }

  /** The scratch is usable again and its marks are the ones it had or new ones of its own. */
  twostate predicate StillOwned(s: Scratch)
    reads s, s.marks, s.marks.seen
  {
    s.Valid() && (s.marks == old(s.marks) || (fresh(s.marks) && fresh(s.marks.seen)))
  }

  // ----- Operations on publisher's identifiers

  ghost predicate Serves(g: Graph, es: seq<Edge>) {
    AnswersForAll(g, es) && ListsNodes(g.ids, es)
  }

  lemma BuiltServes(g: Graph, es: seq<Edge>)
    requires IsCsr(g, es)
    ensures Serves(g, es)
  {
    CsrAnswers(g, es);
  }

  method Neighbours(g: Graph, node: int, ghost es: seq<Edge>) returns (answer: int)
    requires Serves(g, es)
    ensures answer == if node in Nodes(es) then Degree(es, node) else -1
  {
    var i := Index(g, node);
    assert node in g.ids <==> node in Elems(g.ids);
    if i.None? {
      return -1;
    }
    assert AnswersFor(g, es, i.value);
    return |g.Neighbours(i.value)|;
  }

  method TwoHop(g: Graph, s: Scratch, node: int, ghost es: seq<Edge>) returns (answer: int)
    requires Serves(g, es) && s.Valid()
    modifies s, s.marks, s.marks.seen
    ensures StillOwned(s)
    ensures answer == if node in Nodes(es) then TwoHopCount(es, node) else -1
  {
    var i := Index(g, node);
    assert node in g.ids <==> node in Elems(g.ids);
    if i.None? {
      return -1;
    }
    assert AnswersFor(g, es, i.value);
    answer := CountFrom(g, s, i.value);
  }

  method CountFrom(g: Graph, s: Scratch, from: int) returns (n: int)
    requires g.WellFormed() && 0 <= from < |g.ids| && s.Valid()
    modifies s, s.marks, s.marks.seen
    ensures StillOwned(s)
    ensures n == |Ball(g.Arcs(), from, 2) - {from}|
  {
    hide Ball, Succ;
    s.Reset(|g.ids|);
    var marks := s.marks;
    var _ := marks.Mark(from);
    var ones := g.Neighbours(from);
    n := CountRow(ones, marks, 0);
    n := CountBeyond(g, ones, marks, n);
    TwoHopsMarked(g, from, marks.Marked());
  }

  method ShortestPath(g: Graph, s: Scratch, from: int, to: int, ghost es: seq<Edge>) returns (answer: int)
    requires Serves(g, es) && s.Valid()
    modifies s, s.marks, s.marks.seen
    ensures StillOwned(s)
    ensures answer == if from in Nodes(es) && to in Nodes(es) then HopCount(es, from, to) else -1
  {
    var source := Index(g, from);
    var dest := Index(g, to);
    assert from in g.ids <==> from in Elems(g.ids);
    assert to in g.ids <==> to in Elems(g.ids);
    if source.None? || dest.None? {
      return -1;
    }
    assert AnswersFor(g, es, source.value) && SameHops(g, es, source.value, dest.value);
    answer := SearchFrom(g, s, source.value, dest.value);
  }

  method SearchFrom(g: Graph, s: Scratch, from: int, to: int) returns (answer: int)
    requires g.WellFormed() && 0 <= from < |g.ids| && 0 <= to < |g.ids| && s.Valid()
    modifies s, s.marks, s.marks.seen
    ensures StillOwned(s)
    ensures answer == Hops(g.Arcs(), from, to)
  {
    ghost var arcs := g.Arcs();
    FirstLevel(arcs, from);
    if from == to {
      HopsAt(arcs, from, to, 0);
      return 0;
    }
    s.Reset(|g.ids|);
    var marks := s.marks;
    var _ := marks.Mark(from);
    var cur, next := s.frontier, s.next;
    s.frontier, s.next := [], [];
    cur := cur + [from];
    answer := -1;
    var depth := 1;
    ghost var d := 0;
    while |cur| > 0
      invariant Ready(g, marks) && d >= 0 && s.marks == marks && depth == d + 1 && answer == -1
      invariant IsFrontier(arcs, from, d, cur)
      invariant marks.Marked() == Ball(arcs, from, d) && to !in marks.Marked()
      decreases Universe(arcs, from) - Ball(arcs, from, d), |cur|
    {
      next := [];
      var found;
      found, next := SearchLevel(g, from, to, d, cur, next, marks);
      if found {
        answer := depth;
        break;
      }
      LevelProgress(arcs, from, d, next);
      cur, next := next, cur;
      depth := depth + 1;
      d := d + 1;
    }
    if |cur| == 0 {
      FrontierEmpty(arcs, from, d);
    }
    s.frontier := cur;
    s.next := next;
  }

  method Bfs(g: Graph, s: Scratch, node: int, ghost es: seq<Edge>) returns (reached: int, depth: int)
    requires Serves(g, es) && s.Valid()
    modifies s, s.marks, s.marks.seen
    ensures StillOwned(s)
    ensures (reached, depth) == if node in Nodes(es) then (Reached(es, node), Depth(es, node)) else (-1, -1)
  {
    var i := Index(g, node);
    assert node in g.ids <==> node in Elems(g.ids);
    if i.None? {
      return -1, -1;
    }
    assert AnswersFor(g, es, i.value);
    reached, depth := TraverseFrom(g, s, i.value);
  }

  method TraverseFrom(g: Graph, s: Scratch, from: int) returns (reached: int, depth: int)
    requires g.WellFormed() && 0 <= from < |g.ids| && s.Valid()
    modifies s, s.marks, s.marks.seen
    ensures StillOwned(s)
    ensures reached == |Reach(g.Arcs(), from)| && depth == Radius(g.Arcs(), from)
  {
    ghost var arcs := g.Arcs();
    FirstLevel(arcs, from);
    s.Reset(|g.ids|);
    var marks := s.marks;
    var _ := marks.Mark(from);
    var cur, next := s.frontier, s.next;
    s.frontier, s.next := [], [];
    cur := cur + [from];
    reached, depth := 1, 0;
    ghost var d := 0;
    while |cur| > 0
      invariant Ready(g, marks) && d >= 0 && s.marks == marks
      invariant IsFrontier(arcs, from, d, cur) && marks.Marked() == Ball(arcs, from, d)
      invariant reached == |marks.Marked()| && depth == if cur == [] then d - 1 else d
      invariant d > 0 ==> Ball(arcs, from, d - 1) != Ball(arcs, from, d - 2)
      decreases Universe(arcs, from) - Ball(arcs, from, d), |cur|
    {
      FrontierNotEmpty(arcs, from, d, cur);
      next := [];
      next, reached := ExpandLevel(g, from, d, cur, next, marks, reached);
      if |next| > 0 {
        depth := depth + 1;
      }
      LevelProgress(arcs, from, d, next);
      cur, next := next, cur;
      d := d + 1;
    }
    FrontierEmpty(arcs, from, d);
    RadiusAtEnd(arcs, from, d);
    s.frontier := cur;
    s.next := next;
  }
}
