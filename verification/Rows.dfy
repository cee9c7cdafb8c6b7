/** Fixed width rows laid out one after another in a flat sequence. */
module Rows {
  import opened Products

  lemma RowFits(dim: nat, count: nat, i: nat)
    requires i < count
    ensures 0 <= i * dim <= (i + 1) * dim <= count * dim
  {
    assert (i + 1) * dim <= count * dim by {
      assert (count - (i + 1)) * dim >= 0;
    }
  }

  /** `count` rows of `dim` values laid out one after another. */
  ghost predicate IsFlat<T>(data: seq<T>, dim: nat, count: nat) {
    |data| == count * dim
  }

  function RowOf<T>(data: seq<T>, dim: nat, ghost count: nat, i: nat): (row: seq<T>)
    requires IsFlat(data, dim, count) && i < count
    ensures |row| == dim
  {
    RowFits(dim, count, i);
    data[i * dim..(i + 1) * dim]
  }

  /** Appending a row of the right width adds it at the end and leaves the others alone. */
  lemma RowAppended<T>(data: seq<T>, dim: nat, count: nat, row: seq<T>)
    requires IsFlat(data, dim, count) && |row| == dim
    ensures IsFlat(data + row, dim, count + 1) && RowOf(data + row, dim, count + 1, count) == row
    ensures forall i :: 0 <= i < count ==> RowOf(data + row, dim, count + 1, i) == RowOf(data, dim, count, i)
  {
    assert (count + 1) * dim == count * dim + dim;
    forall i | 0 <= i < count
      ensures RowOf(data + row, dim, count + 1, i) == RowOf(data, dim, count, i)
    {
      RowFits(dim, count, i);
    }
  }

  lemma RowOfIndex(dim: nat, count: nat, i: nat)
    requires i < count * dim
    ensures dim > 0 && i / dim < count && (i / dim) * dim <= i < (i / dim) * dim + dim
  {
    assert dim > 0;
    var q := i / dim;
    assert i == dim * q + i % dim;
    TimesMonotone(dim, count, q);
  }

  lemma PositionInRow(k: nat, q: nat, j: nat)
    requires j < k
    ensures (q * k + j) / k == q && (q * k + j) % k == j
  {
    var p := q * k + j;
    var d := p / k;
    assert p == k * d + p % k;
    TimesMonotone(k, d + 1, q);
    TimesMonotone(k, q + 1, d);
  }

  /** Two flat sequences with the same rows are the same. */
  lemma RowsDetermine<T>(a: seq<T>, b: seq<T>, dim: nat, count: nat)
    requires IsFlat(a, dim, count) && IsFlat(b, dim, count)
    requires forall q :: 0 <= q < count ==> RowOf(a, dim, count, q) == RowOf(b, dim, count, q)
    ensures a == b
  {
    forall i | 0 <= i < |a|
      ensures a[i] == b[i]
    {
      RowOfIndex(dim, count, i);
      var q := i / dim;
      RowFits(dim, count, q);
      assert RowOf(a, dim, count, q)[i - q * dim] == RowOf(b, dim, count, q)[i - q * dim];
    }
  }
}
