/** Adding something up over the workers of a pool, one of which takes a step. */
module Totals {
  function Total<W>(ws: seq<W>, weight: W -> int): int {
    if ws == [] then 0 else Total(ws[..|ws| - 1], weight) + weight(ws[|ws| - 1])
  }

  lemma {:induction false} TotalAfterStep<W>(ws: seq<W>, weight: W -> int, w: nat, x: W)
    requires w < |ws|
    ensures Total(ws[w := x], weight) == Total(ws, weight) - weight(ws[w]) + weight(x)
    decreases |ws|
  {
    var front, after := ws[..|ws| - 1], ws[w := x];
    if w < |ws| - 1 {
      TotalAfterStep(front, weight, w, x);
      assert after[..|ws| - 1] == front[w := x];
    } else {
      assert after[..|ws| - 1] == front;
    }
  }

  lemma {:induction false} TotalOfSame<W>(ws: seq<W>, weight: W -> int, each: int)
    requires forall w :: 0 <= w < |ws| ==> weight(ws[w]) == each
    ensures Total(ws, weight) == |ws| * each
    decreases |ws|
  {
    if ws != [] {
      TotalOfSame(ws[..|ws| - 1], weight, each);
      assert |ws| * each == (|ws| - 1) * each + each;
    }
  }

  function Gathered<W>(ws: seq<W>, held: W -> multiset<nat>): multiset<nat> {
    if ws == [] then multiset{} else Gathered(ws[..|ws| - 1], held) + held(ws[|ws| - 1])
  }

  lemma {:induction false} GatheredAfterStep<W>(ws: seq<W>, held: W -> multiset<nat>, w: nat, x: W)
    requires w < |ws|
    ensures Gathered(ws[w := x], held) + held(ws[w]) == Gathered(ws, held) + held(x)
    decreases |ws|
  {
    var front, last, after := ws[..|ws| - 1], |ws| - 1, ws[w := x];
    if w < last {
      GatheredAfterStep(front, held, w, x);
      assert after[..last] == front[w := x];
      Regroup(Gathered(front[w := x], held), Gathered(front, held), held(ws[last]), held(ws[w]), held(x));
    } else {
      assert after[..last] == front;
    }
  }

  lemma Regroup(a: multiset<nat>, b: multiset<nat>, c: multiset<nat>, d: multiset<nat>, e: multiset<nat>)
    requires a + d == b + e
    ensures (a + c) + d == (b + c) + e
  {
    assert (a + c) + d == (a + d) + c;
    assert (b + c) + e == (b + e) + c;
  }

  lemma CancelSame(a: multiset<nat>, b: multiset<nat>, c: multiset<nat>)
    requires a + c == b + c
    ensures a == b
  {
    forall i: nat
      ensures a[i] == b[i]
    {
      assert (a + c)[i] == (b + c)[i];
    }
  }

  lemma {:induction false} NothingGathered<W>(ws: seq<W>, held: W -> multiset<nat>)
    requires forall w :: 0 <= w < |ws| ==> held(ws[w]) == multiset{}
    ensures Gathered(ws, held) == multiset{}
    decreases |ws|
  {
    if ws != [] {
      NothingGathered(ws[..|ws| - 1], held);
    }
  }
}
