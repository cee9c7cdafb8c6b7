/**
 Directed graphs as finite sets of arcs: walks, the nodes within a number of hops, and
 the three quantities the traversals report (shortest walk length, size of the reachable
 set, greatest distance in it).

 `Ball` is what a level-by-level traversal computes. The theorems here say what that means
 in terms of walks, so that every traversal only has to be tied to `Ball`.
 */
module Digraph {
  import opened Sets

  type Arcs = set<(int, int)>

  function Succ(arcs: Arcs, sources: set<int>): set<int> {
    set a | a in arcs && a.0 in sources :: a.1
  }

  /** The nodes at most `d` arcs away from `s`; none when `d` is negative. */
  function Ball(arcs: Arcs, s: int, d: int): set<int>
    decreases if d < 0 then 0 else d + 1
  {
    if d < 0 then {} else {s} + Ball(arcs, s, d - 1) + Succ(arcs, Ball(arcs, s, d - 1))
  }

  /** `p` lists the nodes of a walk from `s` to `t`, so it has `|p| - 1` arcs. */
  ghost predicate Walk(arcs: Arcs, s: int, t: int, p: seq<int>) {
    && |p| > 0 && p[0] == s && p[|p| - 1] == t
    && forall i :: 0 < i < |p| ==> ArcAt(arcs, p, i)
  }

  ghost predicate ArcAt(arcs: Arcs, p: seq<int>, i: int) {
    0 < i < |p| && (p[i - 1], p[i]) in arcs
  }

  // ----- Ball and walks

  lemma {:induction false} BallMonotone(arcs: Arcs, s: int, c: int, d: int)
    requires c <= d
    ensures Ball(arcs, s, c) <= Ball(arcs, s, d)
    decreases d - c
  {
    if c < d {
      BallMonotone(arcs, s, c, d - 1);
    }
  }

  lemma {:induction false} WalkStaysInBall(arcs: Arcs, s: int, t: int, p: seq<int>)
    requires Walk(arcs, s, t, p)
    ensures t in Ball(arcs, s, |p| - 1)
    decreases |p|
  {
    if |p| > 1 {
      var q := p[..|p| - 1];
      forall i | 0 < i < |q|
        ensures ArcAt(arcs, q, i)
      {
        assert ArcAt(arcs, p, i);
      }
      WalkStaysInBall(arcs, s, q[|q| - 1], q);
      assert ArcAt(arcs, p, |p| - 1);
    }
  }

  lemma {:induction false} BallHasWalk(arcs: Arcs, s: int, t: int, d: int) returns (p: seq<int>)
    requires t in Ball(arcs, s, d)
    ensures Walk(arcs, s, t, p) && |p| <= d + 1
    decreases d
  {
    if t == s {
      p := [s];
    } else if t in Ball(arcs, s, d - 1) {
      p := BallHasWalk(arcs, s, t, d - 1);
    } else {
      var a :| a in arcs && a.0 in Ball(arcs, s, d - 1) && a.1 == t;
      var q := BallHasWalk(arcs, s, a.0, d - 1);
      p := q + [t];
      forall i | 0 < i < |p|
        ensures ArcAt(arcs, p, i)
      {
        assert i < |q| ==> ArcAt(arcs, q, i);
      }
    }
  }

  lemma BallStep(arcs: Arcs, s: int, d: int)
    requires d >= 0
    ensures Ball(arcs, s, d) == {s} + Ball(arcs, s, d - 1) + Succ(arcs, Ball(arcs, s, d - 1))
  {
  }

  /** Only the nodes added last can lead anywhere new, which is why a frontier is enough. */
  lemma NextBall(arcs: Arcs, s: int, d: int)
    requires d >= 0
    ensures Ball(arcs, s, d + 1) == Ball(arcs, s, d) + Succ(arcs, Ball(arcs, s, d) - Ball(arcs, s, d - 1))
  {
    var inner, ball := Ball(arcs, s, d - 1), Ball(arcs, s, d);
    assert Succ(arcs, ball) == Succ(arcs, inner) + Succ(arcs, ball - inner);
    assert d > 0 || inner == {};
  }

  lemma {:induction false} SettledForever(arcs: Arcs, s: int, d: int, e: int)
    requires 0 <= d <= e && Ball(arcs, s, d + 1) == Ball(arcs, s, d)
    ensures Ball(arcs, s, e) == Ball(arcs, s, d)
    decreases e
  {
    hide Ball, Succ;
    if d < e {
      SettledForever(arcs, s, d, e - 1);
      BallStep(arcs, s, e);
      BallStep(arcs, s, d + 1);
    }
  }

  // ----- How far a node reaches

  function Universe(arcs: Arcs, s: int): set<int> {
    {s} + set a | a in arcs :: a.1
  }

  lemma {:induction false} BallInUniverse(arcs: Arcs, s: int, d: int)
    ensures Ball(arcs, s, d) <= Universe(arcs, s)
    decreases d
  {
    if d >= 0 {
      BallInUniverse(arcs, s, d - 1);
    }
  }

  lemma BallGrowsInUniverse(arcs: Arcs, s: int, d: int)
    requires d >= 0 && Ball(arcs, s, d + 1) != Ball(arcs, s, d)
    ensures Universe(arcs, s) - Ball(arcs, s, d + 1) < Universe(arcs, s) - Ball(arcs, s, d)
  {
    BallInUniverse(arcs, s, d + 1);
    BallMonotone(arcs, s, d, d + 1);
  }

  ghost predicate StillGrows(arcs: Arcs, s: int, d: int) {
    Ball(arcs, s, d + 1) != Ball(arcs, s, d)
  }

  /** The first level at which a traversal finds nothing new. */
  ghost predicate IsRadius(arcs: Arcs, s: int, r: nat) {
    !StillGrows(arcs, s, r) && forall e :: 0 <= e < r ==> StillGrows(arcs, s, e)
  }

  lemma {:induction false} FindRadius(arcs: Arcs, s: int, d: nat) returns (r: nat)
    requires forall e :: 0 <= e < d ==> StillGrows(arcs, s, e)
    ensures IsRadius(arcs, s, r)
    decreases Universe(arcs, s) - Ball(arcs, s, d)
  {
    if StillGrows(arcs, s, d) {
      BallGrowsInUniverse(arcs, s, d);
      r := FindRadius(arcs, s, d + 1);
    } else {
      r := d;
    }
  }

  lemma RadiusExists(arcs: Arcs, s: int)
    ensures exists r: nat :: IsRadius(arcs, s, r)
  {
    var r := FindRadius(arcs, s, 0);
  }

  /** How many levels a traversal from `s` goes down before it finds nothing new. */
  ghost function Radius(arcs: Arcs, s: int): (r: nat)
    ensures IsRadius(arcs, s, r)
  {
    RadiusExists(arcs, s);
    var r: nat :| IsRadius(arcs, s, r);
    r
  }

  ghost function Reach(arcs: Arcs, s: int): set<int> {
    Ball(arcs, s, Radius(arcs, s))
  }

  ghost predicate AtDistance(arcs: Arcs, s: int, t: int, d: nat) {
    t in Ball(arcs, s, d) && t !in Ball(arcs, s, d - 1)
  }

  lemma {:induction false} DistanceExists(arcs: Arcs, s: int, t: int, d: nat)
    requires t in Ball(arcs, s, d)
    ensures exists h: nat :: AtDistance(arcs, s, t, h)
  {
    if t in Ball(arcs, s, d - 1) {
      DistanceExists(arcs, s, t, d - 1);
    } else {
      assert AtDistance(arcs, s, t, d);
    }
  }

  /** The number of arcs on a shortest walk from `s` to `t`, or -1 (see `HopsIsShortestWalk`). */
  ghost function Hops(arcs: Arcs, s: int, t: int): (h: int)
    ensures t !in Reach(arcs, s) ==> h == -1
    ensures t in Reach(arcs, s) ==> h >= 0 && AtDistance(arcs, s, t, h)
  {
    if t in Reach(arcs, s) then
      DistanceExists(arcs, s, t, Radius(arcs, s));
      var h: nat :| AtDistance(arcs, s, t, h);
      h
    else -1
  }

  lemma RadiusAt(arcs: Arcs, s: int, d: nat)
    requires Ball(arcs, s, d + 1) == Ball(arcs, s, d)
    requires d > 0 ==> Ball(arcs, s, d - 1) != Ball(arcs, s, d)
    ensures Radius(arcs, s) == d && Reach(arcs, s) == Ball(arcs, s, d)
  {
    var r := Radius(arcs, s);
    assert !StillGrows(arcs, s, d) && !StillGrows(arcs, s, r);
    if r < d {
      SettledForever(arcs, s, r, d - 1);
      SettledForever(arcs, s, r, d);
    }
  }

  lemma ReachAt(arcs: Arcs, s: int, d: nat)
    requires Ball(arcs, s, d + 1) == Ball(arcs, s, d)
    ensures Reach(arcs, s) == Ball(arcs, s, d)
  {
    assert !StillGrows(arcs, s, d) && !StillGrows(arcs, s, Radius(arcs, s));
    SettledForever(arcs, s, Radius(arcs, s), d);
  }

  lemma BallInReach(arcs: Arcs, s: int, d: int)
    ensures Ball(arcs, s, d) <= Reach(arcs, s)
  {
    var r := Radius(arcs, s);
    assert !StillGrows(arcs, s, r);
    if d <= r {
      BallMonotone(arcs, s, d, r);
    } else {
      SettledForever(arcs, s, r, d);
    }
  }

  lemma HopsAt(arcs: Arcs, s: int, t: int, d: nat)
    requires t in Ball(arcs, s, d) && t !in Ball(arcs, s, d - 1)
    ensures Hops(arcs, s, t) == d
  {
    hide Ball;
    BallInReach(arcs, s, d);
    var h := Hops(arcs, s, t);
    if h < d {
      BallMonotone(arcs, s, h, d - 1);
    } else if d < h {
      BallMonotone(arcs, s, d, h - 1);
    }
  }

  // ----- What the three quantities mean

  /** `Hops` is the length of a shortest walk, and -1 exactly when no walk exists. */
  lemma HopsIsShortestWalk(arcs: Arcs, s: int, t: int)
    ensures Hops(arcs, s, t) == -1 <==> !exists p :: Walk(arcs, s, t, p)
    ensures Hops(arcs, s, t) != -1 ==> exists p :: Walk(arcs, s, t, p) && |p| - 1 == Hops(arcs, s, t)
    ensures forall p :: Walk(arcs, s, t, p) ==> 0 <= Hops(arcs, s, t) <= |p| - 1
  {
    hide Ball;
    var h := Hops(arcs, s, t);
    forall p | Walk(arcs, s, t, p)
      ensures 0 <= h <= |p| - 1
    {
      WalkStaysInBall(arcs, s, t, p);
      BallInReach(arcs, s, |p| - 1);
      if |p| - 1 < h {
        BallMonotone(arcs, s, |p| - 1, h - 1);
      }
    }
    if h != -1 {
      var p := BallHasWalk(arcs, s, t, h);
      assert Walk(arcs, s, t, p) && |p| - 1 == h;
    }
  }

  lemma HopsWithinRadius(arcs: Arcs, s: int, t: int)
    ensures t in Reach(arcs, s) ==> Hops(arcs, s, t) <= Radius(arcs, s)
  {
    hide Ball;
    if t in Reach(arcs, s) && Hops(arcs, s, t) > Radius(arcs, s) {
      BallMonotone(arcs, s, Radius(arcs, s), Hops(arcs, s, t) - 1);
    }
  }

  /** `Reach` is everything a walk leads to, and `Radius` is the greatest distance in it. */
  lemma ReachAndRadiusMeaning(arcs: Arcs, s: int)
    ensures forall t :: t in Reach(arcs, s) <==> exists p :: Walk(arcs, s, t, p)
    ensures forall t :: t in Reach(arcs, s) ==> 0 <= Hops(arcs, s, t) <= Radius(arcs, s)
    ensures exists t :: t in Reach(arcs, s) && Hops(arcs, s, t) == Radius(arcs, s)
  {
    forall t
      ensures t in Reach(arcs, s) <==> exists p :: Walk(arcs, s, t, p)
      ensures t in Reach(arcs, s) ==> 0 <= Hops(arcs, s, t) <= Radius(arcs, s)
    {
      HopsIsShortestWalk(arcs, s, t);
      HopsWithinRadius(arcs, s, t);
    }
    var r := Radius(arcs, s);
    if r == 0 {
      HopsAt(arcs, s, s, 0);
      assert s in Reach(arcs, s);
    } else {
      BallMonotone(arcs, s, r - 1, r);
      var before := r - 1;
      assert StillGrows(arcs, s, before);
      var last := Ball(arcs, s, r) - Ball(arcs, s, r - 1);
      var t := Element(last);
      HopsAt(arcs, s, t, r);
    }
  }

  // ----- Comparing graphs

  lemma {:induction false} BallInLargerGraph(few: Arcs, many: Arcs, s: int, d: int)
    requires few <= many
    ensures Ball(few, s, d) <= Ball(many, s, d)
    decreases d
  {
    if d >= 0 {
      BallInLargerGraph(few, many, s, d - 1);
    }
  }

  /** Taking arcs away never makes a distance shorter. */
  lemma FewerArcsNeverShorten(few: Arcs, many: Arcs, s: int, t: int)
    requires few <= many
    ensures Hops(few, s, t) == -1 || 0 <= Hops(many, s, t) <= Hops(few, s, t)
  {
    hide Ball;
    var h := Hops(few, s, t);
    if h != -1 {
      BallInLargerGraph(few, many, s, h);
      BallInReach(many, s, h);
      if Hops(many, s, t) > h {
        BallMonotone(many, s, h, Hops(many, s, t) - 1);
      }
    }
  }

  ghost predicate Distinct(name: seq<int>) {
    forall i, j :: 0 <= i < j < |name| ==> name[i] != name[j]
  }

  ghost predicate Indexes(name: seq<int>, indexes: set<int>) {
    forall i :: i in indexes ==> 0 <= i < |name|
  }

  function Image(name: seq<int>, indexes: set<int>): set<int>
    requires Indexes(name, indexes)
  {
    set i | i in indexes :: name[i]
  }

  /** Both directions of "`arcs` is `dense` with every index `i` replaced by `name[i]`". */
  ghost predicate Renames(name: seq<int>, dense: Arcs, arcs: Arcs) {
    && Distinct(name)
    && (forall a :: a in dense ==> 0 <= a.0 < |name| && 0 <= a.1 < |name| && (name[a.0], name[a.1]) in arcs)
    && (forall b :: b in arcs ==>
          exists i, j :: (i, j) in dense && 0 <= i < |name| && 0 <= j < |name| && b == (name[i], name[j]))
  }

  lemma ImageInjective(name: seq<int>, indexes: set<int>, i: int)
    requires Distinct(name) && Indexes(name, indexes) && 0 <= i < |name|
    ensures name[i] in Image(name, indexes) <==> i in indexes
  {
  }

  lemma ImageWithout(name: seq<int>, indexes: set<int>, i: int)
    requires Distinct(name) && Indexes(name, indexes) && 0 <= i < |name|
    ensures Indexes(name, indexes - {i})
    ensures Image(name, indexes - {i}) == Image(name, indexes) - {name[i]}
  {
  }

  lemma ImageEqual(name: seq<int>, some: set<int>, others: set<int>)
    requires Distinct(name) && Indexes(name, some) && Indexes(name, others)
    ensures some == others <==> Image(name, some) == Image(name, others)
  {
    if Image(name, some) == Image(name, others) {
      forall i
        ensures i in some <==> i in others
      {
        if 0 <= i < |name| {
          ImageInjective(name, some, i);
          ImageInjective(name, others, i);
        }
      }
    }
  }

  lemma {:induction false} ImageSize(name: seq<int>, indexes: set<int>)
    requires Distinct(name) && Indexes(name, indexes)
    ensures |Image(name, indexes)| == |indexes|
    decreases |indexes|
  {
    if indexes != {} {
      var i := Element(indexes);
      var rest := indexes - {i};
      ImageSize(name, rest);
      ImageInjective(name, rest, i);
      assert Image(name, indexes) == Image(name, rest) + {name[i]};
    } else {
      assert Image(name, indexes) == {};
    }
  }

  lemma SuccRenamed(name: seq<int>, dense: Arcs, arcs: Arcs, indexes: set<int>)
    requires Renames(name, dense, arcs) && Indexes(name, indexes)
    ensures Indexes(name, Succ(dense, indexes))
    ensures Succ(arcs, Image(name, indexes)) == Image(name, Succ(dense, indexes))
  {
    forall v | v in Succ(arcs, Image(name, indexes))
      ensures v in Image(name, Succ(dense, indexes))
    {
      var b :| b in arcs && b.0 in Image(name, indexes) && b.1 == v;
      var i, j :| (i, j) in dense && 0 <= i < |name| && 0 <= j < |name| && b == (name[i], name[j]);
      ImageInjective(name, indexes, i);
      assert (i, j).1 in Succ(dense, indexes);
    }
    forall v | v in Image(name, Succ(dense, indexes))
      ensures v in Succ(arcs, Image(name, indexes))
    {
      var a :| a in dense && a.0 in indexes && name[a.1] == v;
      var b := (name[a.0], name[a.1]);
      assert b in arcs && b.0 in Image(name, indexes);
    }
  }

  lemma {:induction false} BallRenamed(name: seq<int>, dense: Arcs, arcs: Arcs, s: int, d: int)
    requires Renames(name, dense, arcs) && 0 <= s < |name|
    ensures Indexes(name, Ball(dense, s, d))
    ensures Ball(arcs, name[s], d) == Image(name, Ball(dense, s, d))
    decreases d
  {
    if d >= 0 {
      BallRenamed(name, dense, arcs, s, d - 1);
      SuccRenamed(name, dense, arcs, Ball(dense, s, d - 1));
    }
  }

  lemma BallEqualRenamed(name: seq<int>, dense: Arcs, arcs: Arcs, s: int, d: int, e: int)
    requires Renames(name, dense, arcs) && 0 <= s < |name|
    ensures Ball(dense, s, d) == Ball(dense, s, e) <==> Ball(arcs, name[s], d) == Ball(arcs, name[s], e)
  {
    BallRenamed(name, dense, arcs, s, d);
    BallRenamed(name, dense, arcs, s, e);
    ImageEqual(name, Ball(dense, s, d), Ball(dense, s, e));
  }

  lemma BallMemberRenamed(name: seq<int>, dense: Arcs, arcs: Arcs, s: int, d: int, t: int)
    requires Renames(name, dense, arcs) && 0 <= s < |name| && 0 <= t < |name|
    ensures t in Ball(dense, s, d) <==> name[t] in Ball(arcs, name[s], d)
  {
    BallRenamed(name, dense, arcs, s, d);
    ImageInjective(name, Ball(dense, s, d), t);
  }

  lemma RadiusRenamed(name: seq<int>, dense: Arcs, arcs: Arcs, s: int)
    requires Renames(name, dense, arcs) && 0 <= s < |name|
    ensures Radius(arcs, name[s]) == Radius(dense, s)
  {
    var r := Radius(dense, s);
    BallEqualRenamed(name, dense, arcs, s, r + 1, r);
    if r > 0 {
      var before := r - 1;
      assert StillGrows(dense, s, before);
      BallEqualRenamed(name, dense, arcs, s, r - 1, r);
    }
    RadiusAt(arcs, name[s], r);
  }

  lemma HopsRenamed(name: seq<int>, dense: Arcs, arcs: Arcs, s: int, t: int)
    requires Renames(name, dense, arcs) && 0 <= s < |name| && 0 <= t < |name|
    ensures Hops(arcs, name[s], name[t]) == Hops(dense, s, t)
  {
    RadiusRenamed(name, dense, arcs, s);
    BallMemberRenamed(name, dense, arcs, s, Radius(dense, s), t);
    var h := Hops(dense, s, t);
    if h != -1 {
      BallMemberRenamed(name, dense, arcs, s, h, t);
      BallMemberRenamed(name, dense, arcs, s, h - 1, t);
      HopsAt(arcs, name[s], name[t], h);
    }
  }

  /** Replacing identifiers by dense indexes changes no answer. */
  lemma AnswersRenamed(name: seq<int>, dense: Arcs, arcs: Arcs, s: int)
    requires Renames(name, dense, arcs) && 0 <= s < |name|
    ensures Radius(arcs, name[s]) == Radius(dense, s)
    ensures |Reach(arcs, name[s])| == |Reach(dense, s)|
    ensures forall t :: 0 <= t < |name| ==> Hops(arcs, name[s], name[t]) == Hops(dense, s, t)
  {
    RadiusRenamed(name, dense, arcs, s);
    BallRenamed(name, dense, arcs, s, Radius(dense, s));
    ImageSize(name, Reach(dense, s));
    forall t | 0 <= t < |name|
      ensures Hops(arcs, name[s], name[t]) == Hops(dense, s, t)
    {
      HopsRenamed(name, dense, arcs, s, t);
    }
  }
}
