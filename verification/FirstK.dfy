/**
 "Order everything by score, then by identifier, and take the first k."

 That is what every ranking in the repository means, whether it is produced by a bounded
 insertion list or by a full sort. `IsFirst` says it as a relation between the scores and
 an answer, and the lemmas show the answer is unique and can be cut shorter.
 */
module FirstK {
  import opened Sets

  type Scores = map<int, real>

  /** Smaller scores come first and the lower identifier breaks a tie. */
  ghost predicate Before(score: Scores, a: int, b: int) {
    a in score && b in score && (score[a] < score[b] || (score[a] == score[b] && a < b))
  }

  ghost predicate Ordered(score: Scores, out: seq<int>) {
    && (forall i :: 0 <= i < |out| ==> out[i] in score)
    && (forall i, j :: 0 <= i < j < |out| ==> Before(score, out[i], out[j]))
  }

  function Min(a: int, b: int): (m: int)
    ensures m <= a && m <= b && (m == a || m == b)
  {
    if a <= b then a else b
  }

  ghost predicate IsFirst(score: Scores, out: seq<int>, k: nat) {
    && |out| == Min(k, |score.Keys|)
    && Ordered(score, out)
    && forall x, j :: x in score && x !in out && 0 <= j < |out| ==> Before(score, out[j], x)
  }

  lemma {:induction false} OrderedSize(score: Scores, out: seq<int>)
    requires Ordered(score, out)
    ensures |Elems(out)| == |out| && Elems(out) <= score.Keys && |out| <= |score.Keys|
  {
    if out != [] {
      var rest := out[..|out| - 1];
      OrderedSize(score, rest);
      assert out == rest + [out[|out| - 1]];
      assert Elems(out) == Elems(rest) + {out[|out| - 1]};
      assert out[|out| - 1] !in rest;
    }
    SubsetSize(Elems(out), score.Keys);
  }

  lemma NotLater(score: Scores, out: seq<int>, other: seq<int>, k: nat, i: nat)
    requires IsFirst(score, out, k) && IsFirst(score, other, k)
    requires i < |out| && out[..i] == other[..i]
    ensures !Before(score, out[i], other[i])
  {
    assert forall j :: 0 <= j < i ==> out[..i][j] == out[j] && other[..i][j] == other[j];
    if out[i] in other {
      var j :| 0 <= j < |other| && other[j] == out[i];
      assert j >= i;
    }
  }

  lemma {:induction false} FirstAgreeUpTo(score: Scores, out: seq<int>, other: seq<int>, k: nat, i: nat)
    requires IsFirst(score, out, k) && IsFirst(score, other, k) && i <= |out|
    ensures out[..i] == other[..i]
  {
    if i > 0 {
      FirstAgreeUpTo(score, out, other, k, i - 1);
      NotLater(score, out, other, k, i - 1);
      NotLater(score, other, out, k, i - 1);
      assert out[..i] == out[..i - 1] + [out[i - 1]];
      assert other[..i] == other[..i - 1] + [other[i - 1]];
    }
  }

  /** The scores decide the answer: two correct rankings are the same list. */
  lemma FirstIsUnique(score: Scores, out: seq<int>, other: seq<int>, k: nat)
    requires IsFirst(score, out, k) && IsFirst(score, other, k)
    ensures out == other
  {
    FirstAgreeUpTo(score, out, other, k, |out|);
    assert out == out[..|out|] && other == other[..|other|];
  }

  /** A deep ranking cut to its first k entries is the ranking to depth k. */
  lemma FirstTruncates(score: Scores, out: seq<int>, depth: nat, k: nat)
    requires IsFirst(score, out, depth) && k <= depth
    ensures IsFirst(score, out[..Min(k, |out|)], k)
  {
    var cut := out[..Min(k, |out|)];
    forall x, j | x in score && x !in cut && 0 <= j < |cut|
      ensures Before(score, cut[j], x)
    {
      if x in out {
        var i :| 0 <= i < |out| && out[i] == x;
        assert forall c :: 0 <= c < |cut| ==> cut[c] == out[c];
        assert i >= |cut|;
      }
    }
  }

  /** `IsFirst` is "sort everything and take k": it is a prefix of any complete ordering. */
  lemma FirstIsPrefixOfSorted(score: Scores, all: seq<int>, out: seq<int>, k: nat)
    requires Ordered(score, all) && Elems(all) == score.Keys
    ensures IsFirst(score, out, k) <==> out == all[..Min(k, |all|)]
  {
    OrderedSize(score, all);
    assert forall x :: x in score ==> x in all;
    assert IsFirst(score, all, |all|);
    var cut := all[..Min(k, |all|)];
    if k <= |all| {
      FirstTruncates(score, all, |all|, k);
    } else {
      assert cut == all;
    }
    assert IsFirst(score, cut, k);
    if IsFirst(score, out, k) {
      FirstIsUnique(score, out, cut, k);
    }
  }

  /** Only the order of the scores matters, not their values. */
  lemma SameOrderSameFirst(score: Scores, other: Scores, out: seq<int>, k: nat)
    requires score.Keys == other.Keys
    requires forall a, b :: a in score && b in score ==> (score[a] < score[b] <==> other[a] < other[b])
    ensures IsFirst(score, out, k) <==> IsFirst(other, out, k)
  {
    forall a, b
      ensures Before(score, a, b) <==> Before(other, a, b)
    {
      if a in score && b in score {
        assert score[a] < score[b] <==> other[a] < other[b];
        assert score[b] < score[a] <==> other[b] < other[a];
      }
    }
  }

  // ----- There always is an answer

  lemma Latest(score: Scores, members: set<int>) returns (m: int)
    requires members != {} && members <= score.Keys
    ensures m in members && forall x :: x in members && x != m ==> Before(score, x, m)
  {
    var x := Element(members);
    var others := members - {x};
    m := x;
    if others != {} {
      var rest := Latest(score, others);
      m := if Before(score, x, rest) then rest else x;
    }
    assert forall y :: y in members ==> y == x || y in others;
  }

  lemma {:induction false} CanBeOrdered(score: Scores, members: set<int>) returns (list: seq<int>)
    requires members <= score.Keys
    ensures Ordered(score, list) && Elems(list) == members
    decreases |members|
  {
    if members == {} {
      list := [];
    } else {
      var m := Latest(score, members);
      var front := CanBeOrdered(score, members - {m});
      assert forall x :: x in front ==> x in Elems(front);
      ElemsAppend(front, [m]);
      assert Elems([m]) == {m};
      list := front + [m];
      forall i, j | 0 <= i < j < |list|
        ensures Before(score, list[i], list[j])
      {
        assert list[i] == front[i] && front[i] in front;
      }
    }
  }

  lemma FirstExists(score: Scores, k: nat) returns (out: seq<int>)
    ensures IsFirst(score, out, k)
  {
    var all := CanBeOrdered(score, score.Keys);
    out := all[..Min(k, |all|)];
    FirstIsPrefixOfSorted(score, all, out, k);
  }
}
