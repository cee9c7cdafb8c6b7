/**
 Finite sums of reals, and steps of a chain: what a matrix of weights carries from one position to another
 in so many steps.
 */
module Sums {
  function Sum(n: nat, f: int -> real): real {
    if n == 0 then 0.0 else Sum(n - 1, f) + f(n - 1)
  }

  /** Products are kept behind a name, because the solver is slow at them. */
  function Mul(a: real, b: real): real {
    a * b
  }

  lemma MulFacts(a: real, b: real, c: real)
    ensures Mul(a, b + c) == Mul(a, b) + Mul(a, c) && Mul(b + c, a) == Mul(b, a) + Mul(c, a)
    ensures Mul(Mul(a, b), c) == Mul(a, Mul(b, c)) && Mul(a, b) == Mul(b, a)
    ensures Mul(a, 0.0) == 0.0 == Mul(0.0, a) && Mul(a, 1.0) == a == Mul(1.0, a)
  {
  }

  lemma {:induction false} SumOfSame(n: nat, f: int -> real, g: int -> real)
    requires forall i :: 0 <= i < n ==> f(i) == g(i)
    ensures Sum(n, f) == Sum(n, g)
  {
    if n > 0 {
      SumOfSame(n - 1, f, g);
    }
  }

  lemma {:induction false} SumOfNothing(n: nat, f: int -> real)
    requires forall i :: 0 <= i < n ==> f(i) == 0.0
    ensures Sum(n, f) == 0.0
  {
    if n > 0 {
      SumOfNothing(n - 1, f);
    }
  }

  /** Only one term is not zero. */
  lemma {:induction false} SumOfOne(n: nat, f: int -> real, at: nat)
    requires at < n && forall i :: 0 <= i < n && i != at ==> f(i) == 0.0
    ensures Sum(n, f) == f(at)
  {
    if at == n - 1 {
      SumOfNothing(n - 1, f);
    } else {
      SumOfOne(n - 1, f, at);
    }
  }

  lemma {:induction false} SumAdds(n: nat, f: int -> real, g: int -> real, both: int -> real)
    requires forall i :: 0 <= i < n ==> both(i) == f(i) + g(i)
    ensures Sum(n, both) == Sum(n, f) + Sum(n, g)
  {
    if n > 0 {
      SumAdds(n - 1, f, g, both);
    }
  }

  lemma {:induction false} SumScales(n: nat, f: int -> real, c: real, scaled: int -> real)
    requires forall i :: 0 <= i < n ==> scaled(i) == Mul(c, f(i))
    ensures Sum(n, scaled) == Mul(c, Sum(n, f))
  {
    hide Mul;
    if n > 0 {
      SumScales(n - 1, f, c, scaled);
      MulFacts(c, Sum(n - 1, f), f(n - 1));
    } else {
      MulFacts(c, 0.0, 0.0);
    }
  }

  /** Rows first or columns first. */
  lemma {:induction false} SumSwaps(m: nat, n: nat, f: (int, int) -> real, rows: int -> real, columns: int -> real)
    requires forall i :: 0 <= i < m ==> rows(i) == Sum(n, j => f(i, j))
    requires forall j :: 0 <= j < n ==> columns(j) == Sum(m, i => f(i, j))
    ensures Sum(m, rows) == Sum(n, columns)
  {
    if m == 0 {
      SumOfNothing(n, columns);
    } else {
      var fewer := (j: int) => Sum(m - 1, i => f(i, j));
      SumSwaps(m - 1, n, f, rows, fewer);
      forall j | 0 <= j < n
        ensures columns(j) == fewer(j) + f(m - 1, j)
      {
        SumNext(m - 1, i => f(i, j));
      }
      SumAdds(n, fewer, j => f(m - 1, j), columns);
    }
  }

  lemma {:induction false} SumOfAlike(n: nat, f: int -> real, c: real)
    requires forall i :: 0 <= i < n ==> f(i) == c
    ensures Sum(n, f) == Mul(n as real, c)
  {
    hide Mul;
    MulFacts(c, (n - 1) as real, 1.0);
    MulFacts(c, 1.0, 0.0);
    MulFacts((n - 1) as real, c, 0.0);
    MulFacts(n as real, c, 0.0);
    if n > 0 {
      SumOfAlike(n - 1, f, c);
    }
  }

  lemma SumNext(n: nat, f: int -> real)
    ensures Sum(n + 1, f) == Sum(n, f) + f(n)
  {
  }

  // ----- Chains

  /** The weight of getting from `i` to `j` in `k` steps, by the first step. */
  function Carried(step: (int, int) -> real, n: nat, k: nat, i: int, j: int): real
    decreases k
  {
    if k == 0 then if i == j then 1.0 else 0.0
    else Sum(n, w => Mul(step(i, w), Carried(step, n, k - 1, w, j)))
  }

  /** What one more step at the end carries. */
  function ThenStep(step: (int, int) -> real, n: nat, k: nat, i: int, j: int): real {
    Sum(n, w => Mul(Carried(step, n, k, i, w), step(w, j)))
  }

  lemma CarriedNowhere(step: (int, int) -> real, n: nat, i: nat, j: nat)
    requires i < n && j < n
    ensures Carried(step, n, 1, i, j) == step(i, j) == ThenStep(step, n, 0, i, j)
  {
    hide Mul;
    var first := w => Mul(step(i, w), Carried(step, n, 0, w, j));
    var last := w => Mul(Carried(step, n, 0, i, w), step(w, j));
    forall w | 0 <= w < n
      ensures first(w) == if w == j then step(i, j) else 0.0
      ensures last(w) == if w == i then step(i, j) else 0.0
    {
      MulFacts(step(i, w), 0.0, 0.0);
      MulFacts(step(w, j), 0.0, 0.0);
    }
    SumOfOne(n, first, j);
    SumOfOne(n, last, i);
  }

  /** Taking the steps from the other end carries the same. */
  lemma {:induction false} LastStepInstead(step: (int, int) -> real, n: nat, k: nat, i: nat, j: nat)
    requires i < n && j < n
    ensures Carried(step, n, k + 1, i, j) == ThenStep(step, n, k, i, j)
    decreases k
  {
    hide Mul;
    if k == 0 {
      CarriedNowhere(step, n, i, j);
    } else {
      hide Carried, ThenStep;
      var paths := (w, x) => Mul(step(i, w), Mul(Carried(step, n, k - 1, w, x), step(x, j)));
      var rows := w => Mul(step(i, w), Carried(step, n, k, w, j));
      var columns := x => Mul(Carried(step, n, k, i, x), step(x, j));
      forall w | 0 <= w < n
        ensures rows(w) == Sum(n, x => paths(w, x))
      {
        LastStepInstead(step, n, k - 1, w, j);
        ThenStepScaled(step, n, k, i, w, j);
        SumOfSame(n, x => paths(w, x), x => Mul(step(i, w), Mul(Carried(step, n, k - 1, w, x), step(x, j))));
      }
      forall x | 0 <= x < n
        ensures columns(x) == Sum(n, w => paths(w, x))
      {
        FirstStepScaled(step, n, k, i, x, j);
        SumOfSame(n, w => paths(w, x), w => Mul(step(i, w), Mul(Carried(step, n, k - 1, w, x), step(x, j))));
      }
      SumSwaps(n, n, paths, rows, columns);
      FirstAndLast(step, n, k, i, j, rows, columns);
    }
  }

  lemma FirstAndLast(step: (int, int) -> real, n: nat, k: nat, i: nat, j: nat, rows: int -> real, columns: int -> real)
    requires forall w :: 0 <= w < n ==> rows(w) == Mul(step(i, w), Carried(step, n, k, w, j))
    requires forall x :: 0 <= x < n ==> columns(x) == Mul(Carried(step, n, k, i, x), step(x, j))
    ensures Carried(step, n, k + 1, i, j) == Sum(n, rows) && ThenStep(step, n, k, i, j) == Sum(n, columns)
  {
    hide Mul;
    SumOfSame(n, rows, w => Mul(step(i, w), Carried(step, n, k, w, j)));
    SumOfSame(n, columns, x => Mul(Carried(step, n, k, i, x), step(x, j)));
  }

  lemma ThenStepScaled(step: (int, int) -> real, n: nat, k: nat, i: nat, w: nat, j: nat)
    requires k > 0 && Carried(step, n, k, w, j) == ThenStep(step, n, k - 1, w, j)
    ensures Mul(step(i, w), Carried(step, n, k, w, j))
         == Sum(n, x => Mul(step(i, w), Mul(Carried(step, n, k - 1, w, x), step(x, j))))
  {
    hide Mul, Carried;
    SumScales(n, x => Mul(Carried(step, n, k - 1, w, x), step(x, j)), step(i, w),
              x => Mul(step(i, w), Mul(Carried(step, n, k - 1, w, x), step(x, j))));
  }

  lemma FirstStepScaled(step: (int, int) -> real, n: nat, k: nat, i: nat, x: nat, j: nat)
    requires k > 0
    ensures Mul(Carried(step, n, k, i, x), step(x, j))
         == Sum(n, w => Mul(step(i, w), Mul(Carried(step, n, k - 1, w, x), step(x, j))))
  {
    hide Mul;
    var parts := w => Mul(step(i, w), Carried(step, n, k - 1, w, x));
    var whole := w => Mul(step(i, w), Mul(Carried(step, n, k - 1, w, x), step(x, j)));
    forall w | 0 <= w < n
      ensures whole(w) == Mul(step(x, j), parts(w))
    {
      MulFacts(step(i, w), Carried(step, n, k - 1, w, x), step(x, j));
      MulFacts(step(x, j), parts(w), 0.0);
    }
    SumScales(n, parts, step(x, j), whole);
    MulFacts(Carried(step, n, k, i, x), step(x, j), 0.0);
  }

  /** `rank` is moved on by a step: what arrives at `j` is what every position sends there. */
  ghost predicate MovesOn(step: (int, int) -> real, n: nat, rank: (int, int) -> real, k: int) {
    var next := k + 1;
    forall j :: 0 <= j < n ==> rank(next, j) == Sum(n, w => Mul(rank(k, w), step(w, j)))
  }

  /** After `k` steps there is what the start held, carried from everywhere. */
  lemma {:induction false} CarriedFromStart(step: (int, int) -> real, n: nat, rank: (int, int) -> real, k: nat, j: nat)
    requires j < n && forall m :: 0 <= m < k ==> MovesOn(step, n, rank, m)
    ensures rank(k, j) == Sum(n, i => Mul(rank(0, i), Carried(step, n, k, i, j)))
    decreases k
  {
    hide Mul;
    if k == 0 {
      var held := i => Mul(rank(0, i), Carried(step, n, 0, i, j));
      forall i | 0 <= i < n
        ensures held(i) == if i == j then rank(0, j) else 0.0
      {
        MulFacts(rank(0, i), 0.0, 0.0);
      }
      SumOfOne(n, held, j);
      SumOfSame(n, held, i => Mul(rank(0, i), Carried(step, n, k, i, j)));
    } else {
      hide Carried;
      var last := k - 1;
      assert MovesOn(step, n, rank, last);
      var paths := (w, i) => Mul(rank(0, i), Mul(Carried(step, n, last, i, w), step(w, j)));
      var rows := w => Mul(rank(last, w), step(w, j));
      var columns := i => Mul(rank(0, i), Carried(step, n, k, i, j));
      forall w | 0 <= w < n
        ensures rows(w) == Sum(n, i => paths(w, i))
      {
        CarriedFromStart(step, n, rank, last, w);
        StartScaled(step, n, rank, last, w, j);
        SumOfSame(n, i => paths(w, i), i => Mul(rank(0, i), Mul(Carried(step, n, last, i, w), step(w, j))));
      }
      forall i | 0 <= i < n
        ensures columns(i) == Sum(n, w => paths(w, i))
      {
        LastStepInstead(step, n, last, i, j);
        EndScaled(step, n, rank(0, i), last, i, j);
        SumOfSame(n, w => paths(w, i), w => Mul(rank(0, i), Mul(Carried(step, n, last, i, w), step(w, j))));
      }
      SumSwaps(n, n, paths, rows, columns);
      SumOfSame(n, rows, w => Mul(rank(last, w), step(w, j)));
      SumOfSame(n, columns, i => Mul(rank(0, i), Carried(step, n, k, i, j)));
    }
  }

  lemma StartScaled(step: (int, int) -> real, n: nat, rank: (int, int) -> real, k: nat, w: nat, j: nat)
    requires rank(k, w) == Sum(n, i => Mul(rank(0, i), Carried(step, n, k, i, w)))
    ensures Mul(rank(k, w), step(w, j))
         == Sum(n, i => Mul(rank(0, i), Mul(Carried(step, n, k, i, w), step(w, j))))
  {
    hide Mul, Carried;
    var parts := i => Mul(rank(0, i), Carried(step, n, k, i, w));
    var whole := i => Mul(rank(0, i), Mul(Carried(step, n, k, i, w), step(w, j)));
    forall i | 0 <= i < n
      ensures whole(i) == Mul(step(w, j), parts(i))
    {
      MulFacts(rank(0, i), Carried(step, n, k, i, w), step(w, j));
      MulFacts(step(w, j), parts(i), 0.0);
    }
    SumScales(n, parts, step(w, j), whole);
    SumOfSame(n, parts, i => Mul(rank(0, i), Carried(step, n, k, i, w)));
    SumOfSame(n, whole, i => Mul(rank(0, i), Mul(Carried(step, n, k, i, w), step(w, j))));
    MulFacts(rank(k, w), step(w, j), 0.0);
  }

  lemma EndScaled(step: (int, int) -> real, n: nat, held: real, k: nat, i: nat, j: nat)
    requires Carried(step, n, k + 1, i, j) == ThenStep(step, n, k, i, j)
    ensures Mul(held, Carried(step, n, k + 1, i, j))
         == Sum(n, w => Mul(held, Mul(Carried(step, n, k, i, w), step(w, j))))
  {
    hide Mul, Carried;
    SumScales(n, w => Mul(Carried(step, n, k, i, w), step(w, j)), held,
              w => Mul(held, Mul(Carried(step, n, k, i, w), step(w, j))));
  }
}
