/**
 A bounded list of the best candidates so far, worst last. Both the reference and the Rust
 scan keep one; these are the two things that can happen to it when a candidate comes by.
 */
module TopList {
  import opened Sets
  import opened FirstK

  datatype Pair = Pair(score: real, id: int)

  /** The scores of the first `n` candidates. */
  ghost function UpTo(f: seq<real>, n: nat): Scores
    requires n <= |f|
  {
    map i: int | 0 <= i < n :: f[i]
  }

  function Ids(best: seq<Pair>): (ids: seq<int>)
    ensures |ids| == |best|
  {
    seq(|best|, p requires 0 <= p < |best| => best[p].id)
  }

  /** `best` holds the first `k` of the first `n` candidates, in order, with their scores. */
  ghost predicate Keeps(best: seq<Pair>, f: seq<real>, k: nat, n: nat) {
    && n <= |f|
    && IsFirst(UpTo(f, n), Ids(best), k)
    && forall p :: 0 <= p < |best| ==> 0 <= best[p].id < n && best[p].score == f[best[p].id]
  }

  /** Everything before `at` scores at most `s`, everything from there on scores more. */
  ghost predicate Splits(best: seq<Pair>, at: nat, s: real) {
    && at <= |best|
    && (forall p :: 0 <= p < at ==> best[p].score <= s)
    && (forall p :: at <= p < |best| ==> best[p].score > s)
  }

  function Inserted(best: seq<Pair>, at: nat, c: Pair): seq<Pair>
    requires at <= |best|
  {
    best[..at] + [c] + best[at..]
  }

  lemma UpToSize(f: seq<real>, n: nat)
    requires n <= |f|
    ensures |UpTo(f, n).Keys| == n
  {
    if n > 0 {
      UpToSize(f, n - 1);
      assert UpTo(f, n).Keys == UpTo(f, n - 1).Keys + {n - 1};
    } else {
      assert UpTo(f, 0).Keys == {};
    }
  }

  lemma NothingKept(f: seq<real>, k: nat)
    ensures Keeps([], f, k, 0)
  {
    UpToSize(f, 0);
  }

  lemma KeptSize(best: seq<Pair>, f: seq<real>, k: nat, n: nat)
    requires Keeps(best, f, k, n)
    ensures |best| == Min(k, n)
  {
    UpToSize(f, n);
  }

  /** The list is sorted by score. */
  lemma KeptSorted(best: seq<Pair>, f: seq<real>, k: nat, n: nat)
    requires Keeps(best, f, k, n)
    ensures forall p, q :: 0 <= p < q < |best| ==> best[p].score <= best[q].score
  {
    forall p, q | 0 <= p < q < |best|
      ensures best[p].score <= best[q].score
    {
      assert Before(UpTo(f, n), Ids(best)[p], Ids(best)[q]);
    }
  }

  /** A full list is not changed by a candidate that is no better than its worst. */
  lemma SkipKeeps(best: seq<Pair>, f: seq<real>, k: nat, n: nat)
    requires Keeps(best, f, k, n) && n < |f| && 0 < k == |best| && f[n] >= best[k - 1].score
    ensures Keeps(best, f, k, n + 1)
  {
    var was, now, ids := UpTo(f, n), UpTo(f, n + 1), Ids(best);
    KeptSize(best, f, k, n);
    UpToSize(f, n + 1);
    KeptSorted(best, f, k, n);
    forall p, q | 0 <= p < q < |ids|
      ensures Before(now, ids[p], ids[q])
    {
      assert Before(was, ids[p], ids[q]);
    }
    forall x, j | x in now && x !in ids && 0 <= j < |ids|
      ensures Before(now, ids[j], x)
    {
      assert best[j].score <= best[k - 1].score;
      if x < n {
        assert Before(was, ids[j], x);
      }
    }
  }

  lemma InsertedBefore(best: seq<Pair>, f: seq<real>, k: nat, n: nat, at: nat, p: nat, q: nat)
    requires Keeps(best, f, k, n) && n < |f| && Splits(best, at, f[n]) && p < q <= |best|
    ensures var more := Ids(Inserted(best, at, Pair(f[n], n))); Before(UpTo(f, n + 1), more[p], more[q])
  {
    var ids, more := Ids(best), Ids(Inserted(best, at, Pair(f[n], n)));
    if p != at && q != at {
      var i, j := if p < at then p else p - 1, if q < at then q else q - 1;
      assert more[p] == ids[i] && more[q] == ids[j];
      assert Before(UpTo(f, n), ids[i], ids[j]);
    } else if p == at {
      assert more[p] == n && more[q] == ids[q - 1] && best[q - 1].score > f[n];
    } else {
      assert more[q] == n && more[p] == ids[p] && best[p].score <= f[n];
    }
  }

  lemma InsertedOrdered(best: seq<Pair>, f: seq<real>, k: nat, n: nat, at: nat)
    requires Keeps(best, f, k, n) && n < |f| && Splits(best, at, f[n])
    ensures Ordered(UpTo(f, n + 1), Ids(Inserted(best, at, Pair(f[n], n))))
  {
    var more := Ids(Inserted(best, at, Pair(f[n], n)));
    forall p, q | 0 <= p < q < |more|
      ensures Before(UpTo(f, n + 1), more[p], more[q])
    {
      InsertedBefore(best, f, k, n, at, p, q);
    }
    assert |more| > 1 ==> Before(UpTo(f, n + 1), more[0], more[1]);
    assert |more| == 1 ==> more == [n];
  }

  lemma InsertedBeforeOthers(best: seq<Pair>, f: seq<real>, k: nat, n: nat, at: nat, x: int, j: nat)
    requires Keeps(best, f, k, n) && n < |f| && 0 < k && Splits(best, at, f[n])
    requires |best| == k ==> f[n] < best[k - 1].score
    requires 0 <= x < n && x !in Ids(best) && j <= |best|
    ensures Before(UpTo(f, n + 1), Ids(Inserted(best, at, Pair(f[n], n)))[j], x)
  {
    var was, ids := UpTo(f, n), Ids(best);
    var more := Ids(Inserted(best, at, Pair(f[n], n)));
    assert more == ids[..at] + [n] + ids[at..];
    KeptSize(best, f, k, n);
    OrderedSize(was, ids);
    UpToSize(f, n);
    SubsetSize(Elems(ids), was.Keys);
    assert x in was.Keys && x !in Elems(ids);
    assert |best| == k;
    if j == at {
      assert Before(was, ids[k - 1], x);
    } else {
      var i := if j < at then j else j - 1;
      assert more[j] == ids[i];
      assert Before(was, ids[i], x);
    }
  }

  lemma NotInserted(best: seq<Pair>, at: nat, c: Pair, x: int)
    requires at <= |best| && x !in Ids(Inserted(best, at, c))
    ensures x != c.id && x !in Ids(best)
  {
    var ids := Ids(Inserted(best, at, c));
    assert ids[at] == c.id;
    assert forall p :: 0 <= p < |best| ==> Ids(best)[p] == ids[if p < at then p else p + 1];
  }

  /** A candidate that belongs goes in behind its equals; the list is then cut back to `k`. */
  lemma InsertKeeps(best: seq<Pair>, f: seq<real>, k: nat, n: nat, at: nat)
    requires Keeps(best, f, k, n) && n < |f| && 0 < k && Splits(best, at, f[n])
    requires |best| == k ==> f[n] < best[k - 1].score
    ensures var more := Inserted(best, at, Pair(f[n], n)); Keeps(more[..Min(k, |more|)], f, k, n + 1)
  {
    var now := UpTo(f, n + 1);
    var more := Inserted(best, at, Pair(f[n], n));
    var ids := Ids(more);
    assert ids == Ids(best)[..at] + [n] + Ids(best)[at..];
    KeptSize(best, f, k, n);
    UpToSize(f, n + 1);
    InsertedOrdered(best, f, k, n, at);
    forall x, j | x in now && x !in ids && 0 <= j < |ids|
      ensures Before(now, ids[j], x)
    {
      NotInserted(best, at, Pair(f[n], n), x);
      InsertedBeforeOthers(best, f, k, n, at, x, j);
    }
    assert IsFirst(now, ids, k + 1);
    FirstTruncates(now, ids, k + 1, k);
    assert Ids(more[..Min(k, |more|)]) == ids[..Min(k, |ids|)];
  }

  /** What "the first k" says of a list of scores: as many as there are, each in front of the next and of the rest. */
  lemma FirstMeans(f: seq<real>, out: seq<int>, k: nat)
    ensures IsFirst(UpTo(f, |f|), out, k) <==>
            && |out| == (if k <= |f| then k else |f|)
            && (forall i :: 0 <= i < |out| ==> 0 <= out[i] < |f|)
            && (forall i, j :: 0 <= i < j < |out| ==>
                  f[out[i]] < f[out[j]] || (f[out[i]] == f[out[j]] && out[i] < out[j]))
            && (forall x, i :: 0 <= x < |f| && x !in out && 0 <= i < |out| ==>
                  f[out[i]] < f[x] || (f[out[i]] == f[x] && out[i] < x))
  {
    var score := UpTo(f, |f|);
    UpToSize(f, |f|);
    forall a, b
      ensures Before(score, a, b) <==>
              0 <= a < |f| && 0 <= b < |f| && (f[a] < f[b] || (f[a] == f[b] && a < b))
    {
    }
    hide Before;
    assert forall x :: x in score <==> 0 <= x < |f|;
  }
}
