/**
 One level of a level-by-level traversal, as a relation between the frontier, the marked
 nodes and the nodes collected for the next level. The Go reference, the Rust engine and the
 SQL engine keep these in different structures and all walk through the same states.
 */
module Levels {
  import opened Sets
  import opened Digraph

  /** `frontier` is exactly the nodes at distance `d` from `s`. */
  ghost predicate IsFrontier(arcs: Arcs, s: int, d: nat, frontier: seq<int>) {
    Elems(frontier) == Ball(arcs, s, d) - Ball(arcs, s, d - 1)
  }

  /** The frontier nodes before `i` are expanded. */
  ghost predicate Inside(arcs: Arcs, s: int, d: nat, frontier: seq<int>, i: nat, marked: set<int>, next: seq<int>) {
    && IsFrontier(arcs, s, d, frontier) && i <= |frontier|
    && marked == Ball(arcs, s, d) + Succ(arcs, Elems(frontier[..i]))
    && Elems(next) == marked - Ball(arcs, s, d)
  }

  /** Marking a row of neighbours, collecting the ones that were new, leads from one state to the other. */
  ghost predicate Collects(row: set<int>, marked: set<int>, next: seq<int>, marked': set<int>, next': seq<int>) {
    && marked' == marked + row
    && Elems(next') == Elems(next) + (row - marked)
    && |next'| - |next| == |marked'| - |marked|
  }

  lemma FirstLevel(arcs: Arcs, s: int)
    ensures IsFrontier(arcs, s, 0, [s]) && Ball(arcs, s, 0) == {s}
  {
    assert Ball(arcs, s, 0) == {s} + Ball(arcs, s, -1) + Succ(arcs, Ball(arcs, s, -1));
  }

  lemma LevelBegins(arcs: Arcs, s: int, d: nat, frontier: seq<int>)
    requires IsFrontier(arcs, s, d, frontier)
    ensures Inside(arcs, s, d, frontier, 0, Ball(arcs, s, d), [])
  {
    assert Succ(arcs, Elems(frontier[..0])) == {};
  }

  lemma CollectOne(seen: set<int>, m: int, marked: set<int>, next: seq<int>, marked': set<int>, next': seq<int>)
    requires Collects(seen, marked, next, marked', next')
    ensures Collects(seen + {m}, marked, next, marked' + {m}, if m in marked' then next' else next' + [m])
  {
    ElemsAppend(next', [m]);
    assert Elems([m]) == {m};
    if m in marked' {
      assert marked' + {m} == marked';
    }
  }

  lemma RowEnds(arcs: Arcs, s: int, d: nat, frontier: seq<int>, i: nat, marked: set<int>, next: seq<int>,
                marked': set<int>, next': seq<int>)
    requires Inside(arcs, s, d, frontier, i, marked, next) && i < |frontier|
    requires Collects(Succ(arcs, {frontier[i]}), marked, next, marked', next')
    ensures Inside(arcs, s, d, frontier, i + 1, marked', next')
  {
    ElemsUpTo(frontier, i);
    SuccUnion(arcs, Elems(frontier[..i]), {frontier[i]});
  }

  lemma SuccUnion(arcs: Arcs, a: set<int>, b: set<int>)
    ensures Succ(arcs, a + b) == Succ(arcs, a) + Succ(arcs, b)
  {
  }

  lemma LevelEnds(arcs: Arcs, s: int, d: nat, frontier: seq<int>, marked: set<int>, next: seq<int>)
    requires Inside(arcs, s, d, frontier, |frontier|, marked, next)
    ensures marked == Ball(arcs, s, d + 1) && IsFrontier(arcs, s, d + 1, next)
  {
    assert frontier[..|frontier|] == frontier;
    NextBall(arcs, s, d);
  }

  /** The measure on which every traversal terminates: unmarked nodes, then the frontier. */
  lemma LevelProgress(arcs: Arcs, s: int, d: nat, next: seq<int>)
    requires IsFrontier(arcs, s, d + 1, next)
    ensures next == [] <==> Ball(arcs, s, d + 1) == Ball(arcs, s, d)
    ensures next != [] ==> Universe(arcs, s) - Ball(arcs, s, d + 1) < Universe(arcs, s) - Ball(arcs, s, d)
  {
    ElemsEmpty(next);
    BallMonotone(arcs, s, d, d + 1);
    if next != [] {
      BallGrowsInUniverse(arcs, s, d);
    }
  }

  /** Meeting an unmarked node while expanding distance `d` means it is at distance `d + 1`. */
  lemma MetAtNextLevel(arcs: Arcs, s: int, d: nat, frontier: seq<int>, i: nat, marked: set<int>, next: seq<int>, m: int)
    requires Inside(arcs, s, d, frontier, i, marked, next)
    requires i < |frontier| && m in Succ(arcs, {frontier[i]}) && m !in marked
    ensures Hops(arcs, s, m) == d + 1
  {
    assert frontier[i] in Elems(frontier);
    assert m in Ball(arcs, s, d + 1);
    HopsAt(arcs, s, m, d + 1);
  }

  lemma FrontierNotEmpty(arcs: Arcs, s: int, d: nat, frontier: seq<int>)
    requires IsFrontier(arcs, s, d, frontier) && frontier != []
    ensures Ball(arcs, s, d) != Ball(arcs, s, d - 1)
  {
    assert frontier[0] in Elems(frontier);
  }

  lemma RadiusAtEnd(arcs: Arcs, s: int, d: nat)
    requires d > 0 && Ball(arcs, s, d) == Ball(arcs, s, d - 1) && Ball(arcs, s, d - 1) != Ball(arcs, s, d - 2)
    ensures Radius(arcs, s) == d - 1
  {
    assert Ball(arcs, s, (d - 1) + 1) == Ball(arcs, s, d - 1);
    RadiusAt(arcs, s, d - 1);
  }

  /** An empty frontier at depth `d` means the traversal has seen everything there is. */
  lemma FrontierEmpty(arcs: Arcs, s: int, d: nat)
    requires IsFrontier(arcs, s, d, [])
    ensures d > 0 && Ball(arcs, s, d) == Ball(arcs, s, d - 1) == Reach(arcs, s)
  {
    FirstLevel(arcs, s);
    ElemsEmpty<int>([]);
    BallMonotone(arcs, s, d - 1, d);
    assert d > 0;
    assert Ball(arcs, s, (d - 1) + 1) == Ball(arcs, s, d - 1);
    ReachAt(arcs, s, d - 1);
  }

  lemma BallOfTwo(arcs: Arcs, s: int)
    ensures Ball(arcs, s, 2) == {s} + Succ(arcs, {s}) + Succ(arcs, Succ(arcs, {s}))
    ensures s in Ball(arcs, s, 2) && |Ball(arcs, s, 2) - {s}| == |Ball(arcs, s, 2)| - 1
  {
    var one := Succ(arcs, {s});
    FirstLevel(arcs, s);
    assert Ball(arcs, s, 1) == {s} + Ball(arcs, s, 0) + Succ(arcs, Ball(arcs, s, 0));
    assert Ball(arcs, s, 2) == {s} + Ball(arcs, s, 1) + Succ(arcs, Ball(arcs, s, 1));
    SuccUnion(arcs, {s}, one);
  }
}
