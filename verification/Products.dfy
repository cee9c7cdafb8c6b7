/** Facts about products and quotients of variables, kept apart because the solver is slow at them. */
module Products {
  lemma TimesMonotone(c: nat, a: int, b: int)
    ensures a <= b ==> c * a <= c * b
  {
  }

  lemma DivideBack(c: nat, d: nat)
    requires c > 0
    ensures (d * c) / c == d && (d * c) % c == 0
  {
    var q := (d * c) / c;
    assert d * c == c * q + (d * c) % c;
    TimesMonotone(c, q + 1, d);
    TimesMonotone(c, d + 1, q);
  }

  lemma QuotientAscends(a: nat, b: nat, c: nat)
    requires a <= b && c > 0
    ensures a / c <= b / c
  {
    TimesMonotone(c, b / c + 1, a / c);
  }
}
