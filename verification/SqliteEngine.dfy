/**
 The graph in an ordinary SQL table. The database is taken at its word about sets of rows
 and never about their order: a query answers with some arrangement of the rows that match.
 */
module SqliteEngine {
  import opened Sets
  import opened Bytes
  import opened Digraph
  import opened EdgeList
  import opened Library
  import opened Csr
  import opened Levels
  import opened FirstK
  import opened PageRank
  import opened Pushing

  // ----- Loading

  const BATCH := 400

  /** The two tables. A statement with n value tuples takes exactly 2n arguments. */
  class Database {
    var edge: seq<Edge>
    var node: set<int>

    constructor ()
      ensures edge == [] && node == {}
    {
      edge, node := [], {};
    }

    method InsertEdges(tuples: nat, args: seq<u32>)
      requires tuples > 0 && |args| == 2 * tuples
      modifies this`edge
      ensures edge == old(edge) + Pairs(args)
    {
      edge := edge + Pairs(args);
    }

    method InsertNodes()
      modifies this`node
      ensures node == old(node) + Nodes(edge)
    {
      node := node + (set e | e in edge :: e.0);
      node := node + (set e | e in edge :: e.1);
    }
  }

  lemma PairsAppend(a: seq<u32>, b: seq<u32>)
    requires |a| % 2 == 0
    ensures Pairs(a + b) == Pairs(a) + Pairs(b)
  {
    var ab := a + b;
    forall k | 0 <= k < |ab| / 2
      ensures Pairs(ab)[k] == (Pairs(a) + Pairs(b))[k]
    {
      if k >= |a| / 2 {
        assert ab[2 * k] == b[2 * (k - |a| / 2)] && ab[2 * k + 1] == b[2 * (k - |a| / 2) + 1];
      }
    }
  }

  /** One flush: nothing for an empty batch, the prepared statement for a full one, else a short one. */
  method Flush(db: Database, args: seq<u32>)
    requires |args| % 2 == 0 && |args| <= 2 * BATCH
    modifies db`edge
    ensures db.edge == old(db.edge) + Pairs(args)
  {
    if |args| == 0 {
      assert db.edge == db.edge + Pairs(args);
      return;
    }
    if |args| == 2 * BATCH {
      db.InsertEdges(BATCH, args);
      return;
    }
    db.InsertEdges(|args| / 2, args);
  }

  /** Every edge is inserted once, in input order, whatever the batches come to. */
  method Load(db: Database, edges: seq<u32>)
    requires |edges| % 2 == 0
    modifies db
    ensures db.edge == old(db.edge) + Pairs(edges) && db.node == old(db.node) + Nodes(db.edge)
  {
    var args: seq<u32> := [];
    ghost var start := db.edge;
    ghost var flushed: seq<u32> := [];
    assert start == start + Pairs(flushed);
    for k := 0 to |edges| / 2
      invariant flushed + args == edges[..2 * k]
      invariant |args| % 2 == 0 && |args| < 2 * BATCH && |flushed| % 2 == 0
      invariant db.edge == start + Pairs(flushed) && db.node == old(db.node)
    {
      assert edges[..2 * (k + 1)] == edges[..2 * k] + [edges[2 * k], edges[2 * k + 1]];
      args := args + [edges[2 * k], edges[2 * k + 1]];
      assert flushed + args == edges[..2 * (k + 1)];
      if |args| == 2 * BATCH {
        Flush(db, args);
        PairsAppend(flushed, args);
        flushed := flushed + args;
        args := [];
      }
    }
    Flush(db, args);
    PairsAppend(flushed, args);
    assert flushed + args == edges;
    db.InsertNodes();
  }

  // ----- Traversals

  /** `SELECT dst FROM edge WHERE src = ?` in whatever order the database returns it. */
  ghost predicate Faithful(out: int -> seq<int>, es: seq<Edge>) {
    forall u :: OutOf(out, es, u)
  }

  ghost predicate OutOf(out: int -> seq<int>, es: seq<Edge>, u: int) {
    multiset(out(u)) == multiset(Row(es, u))
  }

  lemma OutIsSucc(out: int -> seq<int>, es: seq<Edge>, u: int)
    requires Faithful(out, es)
    ensures Elems(out(u)) == Succ(ArcsOf(es), {u}) && |out(u)| == Degree(es, u)
  {
    assert OutOf(out, es, u);
    SameElements(out(u), Row(es, u));
    RowElems(es, u);
    assert |out(u)| == |multiset(out(u))| == |multiset(Row(es, u))|;
  }

  method SeeRow(row: seq<int>, seen: set<int>, next: seq<int>, reached: int)
    returns (seen': set<int>, more: seq<int>, total: int)
    ensures Collects(Elems(row), seen, next, seen', more) && total - reached == |seen'| - |seen|
  {
    seen', more, total := seen, next, reached;
    for j := 0 to |row|
      invariant Collects(Elems(row[..j]), seen, next, seen', more) && total - reached == |seen'| - |seen|
    {
      ElemsUpTo(row, j);
      CollectOne(Elems(row[..j]), row[j], seen, next, seen', more);
      if row[j] !in seen' {
        seen' := seen' + {row[j]};
        total := total + 1;
        more := more + [row[j]];
      } else {
        assert seen' + {row[j]} == seen';
      }
    }
    assert row[..|row|] == row;
  }

  method LookInRow(row: seq<int>, to: int, seen: set<int>, next: seq<int>)
    returns (found: bool, seen': set<int>, more: seq<int>)
    ensures found ==> to in row
    ensures !found ==> to !in Elems(row) && Collects(Elems(row), seen, next, seen', more)
  {
    seen', more := seen, next;
    for j := 0 to |row|
      invariant to !in Elems(row[..j])
      invariant Collects(Elems(row[..j]), seen, next, seen', more)
    {
      if row[j] == to {
        return true, seen', more;
      }
      ElemsUpTo(row, j);
      CollectOne(Elems(row[..j]), row[j], seen, next, seen', more);
      if row[j] !in seen' {
        seen' := seen' + {row[j]};
        more := more + [row[j]];
      } else {
        assert seen' + {row[j]} == seen';
      }
    }
    assert row[..|row|] == row;
    return false, seen', more;
  }

  method LookInLevel(out: int -> seq<int>, ghost es: seq<Edge>, ghost s: int, to: int, ghost d: nat,
                     frontier: seq<int>, seen: set<int>)
    returns (found: bool, seen': set<int>, next: seq<int>)
    requires Faithful(out, es) && IsFrontier(ArcsOf(es), s, d, frontier)
    requires seen == Ball(ArcsOf(es), s, d) && to !in seen
    ensures found ==> HopCount(es, s, to) == d + 1
    ensures !found ==> IsFrontier(ArcsOf(es), s, d + 1, next) && seen' == Ball(ArcsOf(es), s, d + 1) && to !in seen'
  {
    LevelBegins(ArcsOf(es), s, d, frontier);
    seen', next := seen, [];
    for i := 0 to |frontier|
      invariant Inside(ArcsOf(es), s, d, frontier, i, seen', next) && to !in seen'
    {
      ghost var before, collected := seen', next;
      var row := out(frontier[i]);
      OutIsSucc(out, es, frontier[i]);
      found, seen', next := LookInRow(row, to, seen', next);
      if found {
        assert to in Elems(row);
        MetAtNextLevel(ArcsOf(es), s, d, frontier, i, before, collected, to);
        return;
      }
      RowEnds(ArcsOf(es), s, d, frontier, i, before, collected, seen', next);
    }
    LevelEnds(ArcsOf(es), s, d, frontier, seen', next);
    found := false;
  }

  /** No lookup comes first, so this answers for any two identifiers, in the graph or not. */
  method ShortestPath(out: int -> seq<int>, from: int, to: int, ghost es: seq<Edge>) returns (hops: int)
    requires Faithful(out, es)
    ensures hops == HopCount(es, from, to)
  {
    ghost var arcs := ArcsOf(es);
    FirstLevel(arcs, from);
    if from == to {
      HopsAt(arcs, from, to, 0);
      return 0;
    }
    var seen := {from};
    var frontier := [from];
    var depth := 1;
    ghost var d := 0;
    while |frontier| > 0
      invariant d >= 0 && depth == d + 1 && IsFrontier(arcs, from, d, frontier)
      invariant seen == Ball(arcs, from, d) && to !in seen
      decreases Universe(arcs, from) - Ball(arcs, from, d), |frontier|
    {
      var found, seen', next := LookInLevel(out, es, from, to, d, frontier, seen);
      if found {
        return depth;
      }
      LevelProgress(arcs, from, d, next);
      seen, frontier, depth, d := seen', next, depth + 1, d + 1;
    }
    FrontierEmpty(arcs, from, d);
    return -1;
  }

  method SeeLevel(out: int -> seq<int>, ghost es: seq<Edge>, ghost s: int, ghost d: nat, frontier: seq<int>,
                  seen: set<int>, reached: int)
    returns (seen': set<int>, next: seq<int>, total: int)
    requires Faithful(out, es) && IsFrontier(ArcsOf(es), s, d, frontier) && seen == Ball(ArcsOf(es), s, d)
    ensures IsFrontier(ArcsOf(es), s, d + 1, next) && seen' == Ball(ArcsOf(es), s, d + 1)
    ensures total - reached == |seen'| - |seen|
  {
    LevelBegins(ArcsOf(es), s, d, frontier);
    seen', next, total := seen, [], reached;
    for i := 0 to |frontier|
      invariant Inside(ArcsOf(es), s, d, frontier, i, seen', next) && total - reached == |seen'| - |seen|
    {
      ghost var before, collected := seen', next;
      OutIsSucc(out, es, frontier[i]);
      seen', next, total := SeeRow(out(frontier[i]), seen', next, total);
      RowEnds(ArcsOf(es), s, d, frontier, i, before, collected, seen', next);
    }
    LevelEnds(ArcsOf(es), s, d, frontier, seen', next);
  }

  method Bfs(out: int -> seq<int>, node: int, ghost es: seq<Edge>) returns (reached: int, depth: int)
    requires Faithful(out, es)
    ensures reached == Reached(es, node) && depth == Depth(es, node)
  {
    ghost var arcs := ArcsOf(es);
    FirstLevel(arcs, node);
    var seen := {node};
    var frontier := [node];
    reached, depth := 1, 0;
    ghost var d := 0;
    while |frontier| > 0
      invariant d >= 0 && IsFrontier(arcs, node, d, frontier) && seen == Ball(arcs, node, d)
      invariant reached == |seen| && depth == if frontier == [] then d - 1 else d
      invariant d > 0 ==> Ball(arcs, node, d - 1) != Ball(arcs, node, d - 2)
      decreases Universe(arcs, node) - Ball(arcs, node, d), |frontier|
    {
      FrontierNotEmpty(arcs, node, d, frontier);
      var seen', next;
      seen', next, reached := SeeLevel(out, es, node, d, frontier, seen, reached);
      if |next| > 0 {
        depth := depth + 1;
      }
      LevelProgress(arcs, node, d, next);
      seen, frontier, d := seen', next, d + 1;
    }
    FrontierEmpty(arcs, node, d);
    RadiusAtEnd(arcs, node, d);
  }

  /** The second hop, as the self join finds it. */
  function SelfJoin(es: seq<Edge>, u: int): set<int> {
    set a, b | a in es && b in es && a.0 == u && b.0 == a.1 :: b.1
  }

  /** The union of one hop and the self join, without the seed, as the one statement counts it. */
  function TwoHopQuery(es: seq<Edge>, u: int): int {
    |((set a | a in es && a.0 == u :: a.1) + SelfJoin(es, u)) - {u}|
  }

  lemma SelfJoinIsSecondHop(es: seq<Edge>, u: int)
    ensures SelfJoin(es, u) == Succ(ArcsOf(es), Succ(ArcsOf(es), {u}))
  {
    forall v | v in Succ(ArcsOf(es), Succ(ArcsOf(es), {u}))
      ensures v in SelfJoin(es, u)
    {
      var b :| b in ArcsOf(es) && b.0 in Succ(ArcsOf(es), {u}) && b.1 == v;
      var a :| a in ArcsOf(es) && a.0 == u && a.1 == b.0;
      assert a in es && b in es;
    }
  }

  lemma TwoHopQueryCounts(es: seq<Edge>, u: int)
    ensures TwoHopQuery(es, u) == TwoHopCount(es, u)
  {
    BallOfTwo(ArcsOf(es), u);
    SelfJoinIsSecondHop(es, u);
    assert (set a | a in es && a.0 == u :: a.1) == Succ(ArcsOf(es), {u});
    assert ((set a | a in es && a.0 == u :: a.1) + SelfJoin(es, u)) - {u} == TwoHopSet(es, u);
  }

  // ----- Where the engines differ

  lemma UnknownReachesItself(es: seq<Edge>, u: int)
    requires u !in Nodes(es)
    ensures Reach(ArcsOf(es), u) == {u} && Radius(ArcsOf(es), u) == 0
    ensures TwoHopSet(es, u) == {} && Row(es, u) == []
  {
    var arcs := ArcsOf(es);
    FirstLevel(arcs, u);
    RowElems(es, u);
    ElemsEmpty(Row(es, u));
    assert Succ(arcs, {u}) == {};
    NextBall(arcs, u, 0);
    assert Ball(arcs, u, 1) == Ball(arcs, u, 0);
    RadiusAt(arcs, u, 0);
    SettledForever(arcs, u, 0, 2);
  }

  lemma ReachStaysInGraph(es: seq<Edge>, s: int)
    ensures Reach(ArcsOf(es), s) <= {s} + Nodes(es)
  {
    BallInUniverse(ArcsOf(es), s, Radius(ArcsOf(es), s));
  }

  /**
   The Rust engine refuses identifiers that are not in the graph and this one does not. On a
   path they differ exactly when both ends are the same unknown identifier; on the others
   exactly when the identifier is unknown.
   */
  lemma EnginesAgreeExactlyWhen(es: seq<Edge>, s: int, t: int)
    ensures (if s in Nodes(es) && t in Nodes(es) then HopCount(es, s, t) else -1) == HopCount(es, s, t)
            <==> s != t || s in Nodes(es)
    ensures (if s in Nodes(es) then Degree(es, s) else -1) == Degree(es, s) <==> s in Nodes(es)
    ensures (if s in Nodes(es) then TwoHopCount(es, s) else -1) == TwoHopCount(es, s) <==> s in Nodes(es)
    ensures (if s in Nodes(es) then (Reached(es, s), Depth(es, s)) else (-1, -1)) == (Reached(es, s), Depth(es, s))
            <==> s in Nodes(es)
  {
    ReachStaysInGraph(es, s);
    if s !in Nodes(es) {
      UnknownReachesItself(es, s);
      FirstLevel(ArcsOf(es), s);
      HopsAt(ArcsOf(es), s, s, 0);
    }
  }

  // ----- PageRank over the table

  /** The out degree of the node at each index. */
  ghost predicate Degrees(degree: seq<int>, es: seq<Edge>, ids: seq<int>) {
    |degree| == |ids| && forall i :: 0 <= i < |ids| ==> degree[i] == Degree(es, ids[i])
  }

  /** What is kept of them in 32 bits. */
  ghost predicate Narrowed(degree: seq<int>, es: seq<Edge>, ids: seq<int>) {
    |degree| == |ids| && forall i :: 0 <= i < |ids| ==> degree[i] == Int32(Degree(es, ids[i]))
  }

  ghost predicate DegreesFit(es: seq<Edge>) {
    forall u :: Degree(es, u) < 0x8000_0000
  }

  /** The narrowed counts are the degrees exactly when no node has two to the 31 edges. */
  lemma NarrowedDegrees(degree: seq<int>, es: seq<Edge>, ids: seq<int>)
    requires Narrowed(degree, es, ids) && ListsNodes(ids, es)
    ensures Degrees(degree, es, ids) <==> DegreesFit(es)
  {
    hide Row;
    if Degrees(degree, es, ids) {
      forall u
        ensures Degree(es, u) < 0x8000_0000
      {
        if Degree(es, u) > 0 {
          SourceIsNode(es, ids, u);
          var i :| 0 <= i < |ids| && ids[i] == u;
          assert degree[i] == Int32(Degree(es, ids[i]));
        }
      }
    }
  }

  /**
   The answer to `SELECT src, count(*) FROM edge GROUP BY src`, in any order: the nodes with edges and how
   many each has.
   */
  ghost predicate IsGrouped(groups: seq<(int, int)>, es: seq<Edge>) {
    && (forall k :: 0 <= k < |groups| ==> groups[k].1 == Degree(es, groups[k].0) > 0)
    && (forall u :: Degree(es, u) > 0 ==> exists k :: 0 <= k < |groups| && groups[k].0 == u)
    && (forall k, l :: 0 <= k < l < |groups| ==> groups[k].0 != groups[l].0)
  }

  method FillDegrees(groups: seq<(int, int)>, index: map<int, int>, ids: seq<int>, ghost es: seq<Edge>)
    returns (degree: seq<int>)
    requires IsGrouped(groups, es) && ListsNodes(ids, es)
    requires forall i :: 0 <= i < |ids| ==> ids[i] in index && index[ids[i]] == i
    ensures Narrowed(degree, es, ids)
  {
    hide Row, Int32;
    assert Int32(0) == 0 by { ZeroFits(); }
    var counts := new int[|ids|](_ => 0);
    for k := 0 to |groups|
      invariant forall i :: 0 <= i < |ids| ==> counts[i] == 0 || counts[i] == Int32(Degree(es, ids[i]))
      invariant forall j :: 0 <= j < k ==> groups[j].0 in ids && counts[index[groups[j].0]] == Int32(groups[j].1)
    {
      SourceIsNode(es, ids, groups[k].0);
      counts[index[groups[k].0]] := Int32(groups[k].1);
    }
    forall i | 0 <= i < |ids|
      ensures counts[i] == Int32(Degree(es, ids[i]))
    {
      if Degree(es, ids[i]) > 0 {
        var k :| 0 <= k < |groups| && groups[k].0 == ids[i];
      }
    }
    degree := counts[..];
  }

  lemma ZeroFits()
    ensures Int32(0) == 0
  {
  }

  lemma SourceIsNode(es: seq<Edge>, ids: seq<int>, u: int)
    requires ListsNodes(ids, es) && Degree(es, u) > 0
    ensures u in ids
  {
    RowElems(es, u);
    assert Row(es, u)[0] in Elems(Row(es, u));
    assert u in Elems(ids);
  }

  method DanglingMass(degree: seq<int>, rank: array<real>, ghost es: seq<Edge>, ghost ids: seq<int>, ghost ranks: Ranks)
    returns (dangling: real)
    requires Degrees(degree, es, ids) && Mirrors(rank[..], ranks, ids)
    ensures dangling == Dangling(es, ids, ranks, |ids|)
  {
    dangling := 0.0;
    for i := 0 to rank.Length
      invariant dangling == Dangling(es, ids, ranks, i)
    {
      assert rank[..][i] == ranks[ids[i]];
      if degree[i] == 0 {
        dangling := dangling + rank[i];
      }
    }
  }

  lemma EdgeLeavesItsSource(es: seq<Edge>, e: Edge)
    requires e in es
    ensures Degree(es, e.0) > 0
  {
    var j := EdgeInRow(es, e);
  }

  /** Pushes every node's share along its edges, one row of the table at a time. */
  method SpreadTable(rows: seq<Edge>, index: map<int, int>, degree: seq<int>, rank: array<real>, next: array<real>,
                     ghost es: seq<Edge>, ids: seq<int>, ghost ranks: Ranks)
    requires multiset(rows) == multiset(es) && ListsNodes(ids, es) && ranks.Keys == Elems(ids) && rank != next
    requires forall i :: 0 <= i < |ids| ==> ids[i] in index && index[ids[i]] == i
    requires Degrees(degree, es, ids) && Mirrors(rank[..], ranks, ids)
    requires Pushes(next[..], [], Share(es, ranks), ids)
    modifies next
    ensures Pushes(next[..], es, Share(es, ranks), ids)
  {
    hide Row, Pushes;
    assert rows[..0] == [];
    PushSize(next[..], [], Share(es, ranks), ids);
    for k := 0 to |rows|
      invariant Mirrors(rank[..], ranks, ids)
      invariant Pushes(next[..], rows[..k], Share(es, ranks), ids)
    {
      var e := rows[k];
      EdgeOfTable(rows, es, ids, k);
      var from, to := index[e.0], index[e.1];
      assert rank[..][from] == ranks[e.0];
      ShareOfNode(es, ranks, e.0);
      PushStep(next[..], rows[..k], Share(es, ranks), ids, e.0, to);
      ghost var before := next[..];
      next[to] := next[to] + rank[from] / degree[from] as real;
      assert next[..] == before[to := before[to] + At(Share(es, ranks), e.0)];
      assert rows[..k + 1] == rows[..k] + [(e.0, ids[to])];
    }
    assert rows[..|rows|] == rows;
    SameEdgesSamePushes(next[..], rows, es, Share(es, ranks), ids);
  }

  lemma EdgeOfTable(rows: seq<Edge>, es: seq<Edge>, ids: seq<int>, k: nat)
    requires multiset(rows) == multiset(es) && ListsNodes(ids, es) && k < |rows|
    ensures rows[k].0 in ids && rows[k].1 in ids && Degree(es, rows[k].0) > 0
  {
    assert rows[k] in multiset(rows);
    assert rows[k] in es;
    EdgeEndsAreIds(es, ids);
    EdgeLeavesItsSource(es, rows[k]);
  }

  /** Rank alone: the identifiers came back ascending, so a stable sort breaks ties by itself. */
  function RankOnly(rank: seq<real>): (less: (int, int) -> bool)
    ensures Comparator(less, rank)
  {
    (a: int, b: int) => 0 <= a < |rank| && 0 <= b < |rank| && rank[a] > rank[b]
  }

  method RunTable(ids: seq<int>, rows: nat -> seq<Edge>, groups: seq<(int, int)>, iterations: nat, damping: real,
                  ghost es: seq<Edge>)
    returns (ranks: seq<real>)
    requires ListsNodes(ids, es) && 0 < |ids| <= 0x8000_0000 && IsGrouped(groups, es) && DegreesFit(es)
    requires forall k :: multiset(rows(k)) == multiset(es)
    ensures Mirrors(ranks, Iterate(es, ids, Times(damping), iterations), ids)
  {
    hide IsGrouped;
    var index := IndexMap(ids);
    var n := |ids|;
    var degree := FillDegrees(groups, index, ids, es);
    NarrowedDegrees(degree, es, ids);
    var rank := new real[n](_ => 1.0 / n as real);
    var next := new real[n](_ => 0.0);
    assert Mirrors(rank[..], Iterate(es, ids, Times(damping), 0), ids);
    for k := 0 to iterations
      invariant rank.Length == next.Length == n && rank != next && fresh(rank) && fresh(next)
      invariant Mirrors(rank[..], Iterate(es, ids, Times(damping), k), ids)
    {
      ghost var current := Iterate(es, ids, Times(damping), k);
      Clear(next, Share(es, current), ids);
      var dangling := DanglingMass(degree, rank, es, ids, current);
      SpreadTable(rows(k), index, degree, rank, next, es, ids, current);
      var base := BaseOf(n as real, damping, dangling, es, ids, current);
      Damp(next, damping, base, es, Share(es, current), ids);
      rank, next := next, rank;
    }
    ranks := rank[..];
  }

  /** `ids` is what the node query returned and `rows(k)` the edge query's answer in iteration k. */
  method PageRanked(ids: seq<int>, rows: nat -> seq<Edge>, groups: seq<(int, int)>, iterations: nat, damping: real,
                    top: nat, ghost es: seq<Edge>)
    returns (out: seq<int>)
    requires ListsNodes(ids, es) && |ids| <= 0x8000_0000 && IsGrouped(groups, es) && DegreesFit(es)
    requires forall k :: multiset(rows(k)) == multiset(es)
    ensures IsRanking(es, damping, iterations, top, out)
  {
    if |ids| == 0 {
      HighestIsRanking(es, ids, damping, iterations, top, []);
      return [];
    }
    var rank := RunTable(ids, rows, groups, iterations, damping, es);
    var order := StableOrder(rank, |ids|, RankOnly(rank));
    out := FirstIds(ids, order, Min(top, |ids|));
    OrderIsRanking(es, damping, iterations, top, ids, rank, order, out);
  }
}
