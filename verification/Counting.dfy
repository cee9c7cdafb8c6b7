/** Counting positions: a loop that adds one now and then ends with the size of a set. */
module Counting {
  /** The positions below `n` at which `holds`. */
  ghost function Where(n: nat, holds: int -> bool): set<nat> {
    set i: nat | i < n && holds(i)
  }

  ghost function HowMany(n: nat, holds: int -> bool): (count: nat)
    ensures count == |Where(n, holds)|
  {
    |Where(n, holds)|
  }

  lemma HowManyNext(n: nat, holds: int -> bool)
    ensures HowMany(0, holds) == 0
    ensures HowMany(n + 1, holds) == HowMany(n, holds) + if holds(n) then 1 else 0
  {
    assert Where(0, holds) == {};
    if holds(n) {
      assert Where(n + 1, holds) == Where(n, holds) + {n};
    } else {
      assert Where(n + 1, holds) == Where(n, holds);
    }
  }

  /** Counting on from `m`. */
  lemma {:induction false} HowManyInTwo(m: nat, n: nat, holds: int -> bool, later: int -> bool)
    requires forall i: nat :: i < n ==> later(i) == holds(m + i)
    ensures HowMany(m + n, holds) == HowMany(m, holds) + HowMany(n, later)
  {
    if n == 0 {
      HowManyNext(0, later);
    } else {
      var last := n - 1;
      HowManyInTwo(m, last, holds, later);
      HowManyNext(m + last, holds);
      HowManyNext(last, later);
      assert later(last) == holds(m + last);
    }
  }

  lemma {:induction false} HowManyIsAll(n: nat, holds: int -> bool)
    ensures HowMany(n, holds) <= n
    ensures HowMany(n, holds) == n <==> forall i: nat :: i < n ==> holds(i)
  {
    if n == 0 {
      HowManyNext(0, holds);
    } else {
      HowManyIsAll(n - 1, holds);
      HowManyNext(n - 1, holds);
    }
  }
}
