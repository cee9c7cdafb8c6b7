/**
 Flat vector files and the three metrics, in exact arithmetic. Smaller is always better. The
 square root is any function that is zero at zero and positive above it, which is all the
 ranking needs of it.
 */
module Metrics {
  import opened FirstK
  import opened Rows
  import opened TopList

  datatype Metric = Euclidean | Cosine | InnerProduct

  ghost predicate IsRoot(root: real -> real) {
    root(0.0) == 0.0 && forall x :: x > 0.0 ==> root(x) > 0.0
  }

  // ----- Sums over components

  function SquareOfDifference(x: real, y: real): real {
    (x - y) * (x - y)
  }

  /** The squared distance over the first `n` components. */
  function SquaredUpTo(a: seq<real>, b: seq<real>, n: nat): real
    requires n <= |a| && n <= |b|
  {
    if n == 0 then 0.0 else SquaredUpTo(a, b, n - 1) + SquareOfDifference(a[n - 1], b[n - 1])
  }

  function DotUpTo(a: seq<real>, b: seq<real>, n: nat): real
    requires n <= |a| && n <= |b|
  {
    if n == 0 then 0.0 else DotUpTo(a, b, n - 1) + a[n - 1] * b[n - 1]
  }

  lemma {:induction false} SquaredGrows(a: seq<real>, b: seq<real>, m: nat, n: nat)
    requires m <= n <= |a| && n <= |b|
    ensures SquaredUpTo(a, b, m) <= SquaredUpTo(a, b, n)
    decreases n - m
  {
    if m < n {
      SquaredGrows(a, b, m, n - 1);
      SquareNotNegative(a[n - 1] - b[n - 1]);
    }
  }

  lemma SquareNotNegative(x: real)
    ensures x * x >= 0.0
  {
  }

  lemma OnlyZeroTimes(x: real, y: real)
    requires x * y == 0.0 && x != 0.0
    ensures y == 0.0
  {
    assert (x * y) / x == y;
  }

  lemma OnlyZeroSquares(x: real)
    ensures x * x == 0.0 ==> x == 0.0
  {
    if x != 0.0 && x * x == 0.0 {
      OnlyZeroTimes(x, x);
      assert false;
    }
  }

  lemma {:induction false} LengthNotNegative(a: seq<real>, n: nat)
    requires n <= |a|
    ensures DotUpTo(a, a, n) >= 0.0
  {
    if n > 0 {
      LengthNotNegative(a, n - 1);
      SquareNotNegative(a[n - 1]);
    }
  }

  // ----- What the sums are

  function Plus(a: seq<real>, b: seq<real>): (c: seq<real>)
    requires |a| == |b|
    ensures |c| == |a|
  {
    seq(|a|, i requires 0 <= i < |a| => a[i] + b[i])
  }

  function Times(x: real, a: seq<real>): (c: seq<real>)
    ensures |c| == |a|
  {
    seq(|a|, i requires 0 <= i < |a| => x * a[i])
  }

  /** All zero but for a one at `at`. */
  function Unit(n: nat, at: nat): (c: seq<real>)
    ensures |c| == n
  {
    seq(n, i => if i == at then 1.0 else 0.0)
  }

  lemma ProductFacts(x: real, y: real, z: real)
    ensures (x + y) * z == x * z + y * z && (x * y) * z == x * (y * z) && x * y == y * x
  {
  }

  /** Symmetric, additive and homogeneous: an inner product. */
  lemma {:induction false} DotIsBilinear(x: real, a: seq<real>, b: seq<real>, c: seq<real>, n: nat)
    requires n <= |a| == |b| == |c|
    ensures DotUpTo(a, c, n) == DotUpTo(c, a, n)
    ensures DotUpTo(Plus(a, b), c, n) == DotUpTo(a, c, n) + DotUpTo(b, c, n)
    ensures DotUpTo(Times(x, a), c, n) == x * DotUpTo(a, c, n)
  {
    if n > 0 {
      var last := n - 1;
      DotIsBilinear(x, a, b, c, last);
      ProductFacts(a[last], b[last], c[last]);
      ProductFacts(x, a[last], c[last]);
      ProductFacts(a[last], c[last], 0.0);
      ProductFacts(DotUpTo(a, c, last), a[last] * c[last], x);
      ProductFacts(x, DotUpTo(a, c, last), 0.0);
      ProductFacts(x, a[last] * c[last], 0.0);
      ProductFacts(x, DotUpTo(a, c, last) + a[last] * c[last], 0.0);
    }
  }

  /** Against a unit vector it gives the component there, so no component is left out. */
  lemma {:induction false} DotWithUnit(a: seq<real>, at: nat, n: nat)
    requires n <= |a|
    ensures DotUpTo(a, Unit(|a|, at), n) == if at < n then a[at] else 0.0
  {
    if n > 0 {
      DotWithUnit(a, at, n - 1);
    }
  }

  lemma SquareExpands(x: real, y: real)
    ensures SquareOfDifference(x, y) == x * x - 2.0 * (x * y) + y * y
  {
  }

  /** The squared distance is the inner product of the difference with itself, multiplied out. */
  lemma {:induction false} SquaredIsDots(a: seq<real>, b: seq<real>, n: nat)
    requires n <= |a| == |b|
    ensures SquaredUpTo(a, b, n) == DotUpTo(a, a, n) - 2.0 * DotUpTo(a, b, n) + DotUpTo(b, b, n)
  {
    if n > 0 {
      SquaredIsDots(a, b, n - 1);
      SquareExpands(a[n - 1], b[n - 1]);
    }
  }

  /** Only a vector of zeros has no length. */
  lemma {:induction false} OnlyZerosHaveNoLength(a: seq<real>, n: nat)
    requires n <= |a|
    ensures DotUpTo(a, a, n) == 0.0 <==> forall i :: 0 <= i < n ==> a[i] == 0.0
  {
    if n > 0 {
      OnlyZerosHaveNoLength(a, n - 1);
      LengthNotNegative(a, n - 1);
      SquareNotNegative(a[n - 1]);
      OnlyZeroSquares(a[n - 1]);
    }
  }

  /** The length of a vector, one when it is all zero: the Rust engine asks before the root. */
  function Norm(root: real -> real, row: seq<real>): real {
    var s := DotUpTo(row, row, |row|);
    if s > 0.0 then root(s) else 1.0
  }

  /** The reference takes the root first and asks afterwards. */
  function NormAfter(root: real -> real, row: seq<real>): real {
    var n := root(DotUpTo(row, row, |row|));
    if n == 0.0 then 1.0 else n
  }

  lemma NormsAgree(root: real -> real, row: seq<real>)
    requires IsRoot(root)
    ensures Norm(root, row) == NormAfter(root, row) > 0.0
  {
    LengthNotNegative(row, |row|);
  }

  // ----- Scores

  /** What the Rust scan ranks by. */
  function ScanScore(metric: Metric, root: real -> real, query: seq<real>, row: seq<real>): real
    requires |query| == |row| && IsRoot(root)
  {
    match metric
    case Euclidean => SquaredUpTo(query, row, |row|)
    case InnerProduct => -DotUpTo(query, row, |row|)
    case Cosine => NormsAgree(root, row); -DotUpTo(query, row, |row|) / Norm(root, row)
  }

  /** What the reference ranks by: only cosine differs, by the length of the query. */
  function TruthScore(metric: Metric, root: real -> real, query: seq<real>, row: seq<real>): real
    requires |query| == |row| && IsRoot(root)
  {
    match metric
    case Euclidean => SquaredUpTo(query, row, |row|)
    case InnerProduct => -DotUpTo(query, row, |row|)
    case Cosine =>
      NormsAgree(root, row);
      NormsAgree(root, query);
      PositiveProduct(NormAfter(root, query), NormAfter(root, row));
      -DotUpTo(query, row, |row|) / (NormAfter(root, query) * NormAfter(root, row))
  }

  lemma PositiveProduct(a: real, b: real)
    requires a > 0.0 && b > 0.0
    ensures a * b > 0.0
  {
  }

  lemma DivideTwice(x: real, a: real, b: real)
    requires a > 0.0 && b > 0.0 && a * b != 0.0
    ensures x / (a * b) == (x / b) / a
  {
    var y := x / b / a;
    assert y * a == x / b;
    assert (x / b) * b == x;
    assert y * (a * b) == (y * a) * b;
  }

  lemma DivideKeepsOrder(x: real, y: real, a: real)
    requires a > 0.0
    ensures x < y <==> x / a < y / a
  {
    assert (x / a) * a == x && (y / a) * a == y;
    ScaleKeepsOrder(y / a, x / a, a);
    ScaleKeepsOrder(x / a, y / a, a);
  }

  lemma ScaleKeepsOrder(x: real, y: real, a: real)
    requires a > 0.0
    ensures x <= y ==> x * a <= y * a
    ensures x < y ==> x * a < y * a
  {
  }

  /** Dividing by the query's own length cannot change which of two vectors is nearer. */
  lemma ScoresOrderAlike(metric: Metric, root: real -> real, query: seq<real>, row: seq<real>, other: seq<real>)
    requires IsRoot(root) && |query| == |row| == |other|
    ensures ScanScore(metric, root, query, row) < ScanScore(metric, root, query, other)
       <==> TruthScore(metric, root, query, row) < TruthScore(metric, root, query, other)
  {
    if metric == Cosine {
      var length := NormAfter(root, query);
      NormsAgree(root, query);
      NormsAgree(root, row);
      NormsAgree(root, other);
      PositiveProduct(length, Norm(root, row));
      PositiveProduct(length, Norm(root, other));
      DivideTwice(-DotUpTo(query, row, |row|), length, Norm(root, row));
      DivideTwice(-DotUpTo(query, other, |other|), length, Norm(root, other));
      DivideKeepsOrder(ScanScore(metric, root, query, row), ScanScore(metric, root, query, other), length);
    }
  }

  /** The length that is divided by: the root of the inner product with itself, or one for a vector of zeros. */
  lemma NormMeans(root: real -> real, row: seq<real>)
    requires IsRoot(root)
    ensures (exists i :: 0 <= i < |row| && row[i] != 0.0) ==> Norm(root, row) == root(DotUpTo(row, row, |row|))
    ensures (forall i :: 0 <= i < |row| ==> row[i] == 0.0) ==> Norm(root, row) == 1.0
  {
    OnlyZerosHaveNoLength(row, |row|);
    LengthNotNegative(row, |row|);
  }

  /** Which way the scores point: nearer is a smaller distance, a larger product or a larger cosine. */
  lemma NearerMeans(root: real -> real, query: seq<real>, row: seq<real>, other: seq<real>)
    requires IsRoot(root) && |query| == |row| == |other|
    ensures ScanScore(Euclidean, root, query, row) < ScanScore(Euclidean, root, query, other)
       <==> SquaredUpTo(query, row, |row|) < SquaredUpTo(query, other, |row|)
    ensures ScanScore(InnerProduct, root, query, row) < ScanScore(InnerProduct, root, query, other)
       <==> DotUpTo(query, row, |row|) > DotUpTo(query, other, |row|)
    ensures Norm(root, row) > 0.0 && Norm(root, other) > 0.0
    ensures ScanScore(Cosine, root, query, row) < ScanScore(Cosine, root, query, other)
       <==> DotUpTo(query, row, |row|) / Norm(root, row) > DotUpTo(query, other, |row|) / Norm(root, other)
  {
    NormsAgree(root, row);
    NormsAgree(root, other);
    NegatedQuotient(DotUpTo(query, row, |row|), Norm(root, row));
    NegatedQuotient(DotUpTo(query, other, |row|), Norm(root, other));
  }

  lemma NegatedQuotient(x: real, a: real)
    requires a > 0.0
    ensures -x / a == -(x / a)
  {
  }

  /** A root that is one. */
  ghost predicate IsSquareRoot(root: real -> real) {
    forall x :: x >= 0.0 ==> root(x) >= 0.0 && root(x) * root(x) == x
  }

  lemma SquareRootIsRoot(root: real -> real)
    requires IsSquareRoot(root)
    ensures IsRoot(root)
  {
    forall x | x > 0.0
      ensures root(x) > 0.0
    {
      assert root(x) * root(x) == x;
    }
    assert root(0.0) * root(0.0) == 0.0;
    OnlyZeroSquares(root(0.0));
  }

  lemma SameSquare(a: real, b: real)
    requires a >= 0.0 && b >= 0.0 && a * a == b * b
    ensures a == b
  {
    DifferenceOfSquares(a, b);
    if a < b {
      PositiveProduct(b - a, b + a);
    } else if b < a {
      PositiveProduct(a - b, a + b);
      DifferenceOfSquares(b, a);
    }
  }

  lemma DifferenceOfSquares(a: real, b: real)
    ensures (b - a) * (b + a) == b * b - a * a
  {
  }

  /** Made longer, a vector is longer by as much. */
  lemma NormScales(root: real -> real, x: real, row: seq<real>)
    requires IsSquareRoot(root) && IsRoot(root) && x > 0.0 && exists i :: 0 <= i < |row| && row[i] != 0.0
    ensures Norm(root, Times(x, row)) == x * Norm(root, row)
  {
    var s, t := DotUpTo(row, row, |row|), DotUpTo(Times(x, row), Times(x, row), |row|);
    OnlyZerosHaveNoLength(row, |row|);
    LengthNotNegative(row, |row|);
    DotIsBilinear(x, row, row, row, |row|);
    DotIsBilinear(x, row, row, Times(x, row), |row|);
    ScaledSquare(root, x, s, t);
  }

  lemma ScaledSquare(root: real -> real, x: real, s: real, t: real)
    requires IsSquareRoot(root) && x > 0.0 && s > 0.0 && t == x * (x * s)
    ensures t > 0.0 && root(t) == x * root(s)
  {
    PositiveProduct(x, s);
    PositiveProduct(x, x * s);
    var r := root(s);
    assert r >= 0.0 && r * r == s;
    NotNegativeProduct(x, r);
    ProductFacts(x, r, x * r);
    ProductFacts(r, x, r);
    ProductFacts(x, r, r);
    assert (x * r) * (x * r) == t;
    assert root(t) * root(t) == t;
    SameSquare(root(t), x * r);
  }

  lemma NotNegativeProduct(a: real, b: real)
    requires a >= 0.0 && b >= 0.0
    ensures a * b >= 0.0
  {
  }

  /** Cosine looks at direction only: a vector made longer scores what it did. */
  lemma CosineIgnoresLength(root: real -> real, x: real, query: seq<real>, row: seq<real>)
    requires IsSquareRoot(root) && IsRoot(root) && |query| == |row| && x > 0.0
    ensures ScanScore(Cosine, root, query, Times(x, row)) == ScanScore(Cosine, root, query, row)
  {
    hide DotUpTo, Norm;
    NormsAgree(root, row);
    NormsAgree(root, Times(x, row));
    if exists i :: 0 <= i < |row| && row[i] != 0.0 {
      var dot, norm := DotUpTo(query, row, |row|), Norm(root, row);
      DotIsBilinear(x, row, row, query, |row|);
      DotIsBilinear(x, Times(x, row), row, query, |row|);
      NormScales(root, x, row);
      CancelFactor(x, dot, norm);
      assert DotUpTo(query, Times(x, row), |row|) == x * dot && Norm(root, Times(x, row)) == x * norm;
    } else {
      assert Times(x, row) == row;
    }
  }

  lemma CancelFactor(x: real, dot: real, norm: real)
    requires x > 0.0 && norm > 0.0 && x * norm > 0.0
    ensures -(x * dot) / (x * norm) == -dot / norm
  {
    ProductFacts(x, -dot, 0.0);
    assert -(x * dot) == x * (-dot);
    var q := -dot / norm;
    assert q * norm == -dot;
    ProductFacts(x, q, norm);
    ProductFacts(q, x, norm);
    assert q * (x * norm) == x * (-dot);
  }

  ghost function ScanScores(metric: Metric, root: real -> real, data: seq<real>, dim: nat, count: nat,
                            query: seq<real>): (f: seq<real>)
    requires IsFlat(data, dim, count) && |query| == dim && IsRoot(root)
    ensures |f| == count
    ensures forall i :: 0 <= i < count ==> f[i] == ScanScore(metric, root, query, RowOf(data, dim, count, i))
  {
    seq(count, i requires 0 <= i < count => ScanScore(metric, root, query, RowOf(data, dim, count, i)))
  }

  ghost function TruthScores(metric: Metric, root: real -> real, data: seq<real>, dim: nat, count: nat,
                             query: seq<real>): (f: seq<real>)
    requires IsFlat(data, dim, count) && |query| == dim && IsRoot(root)
    ensures |f| == count
    ensures forall i :: 0 <= i < count ==> f[i] == TruthScore(metric, root, query, RowOf(data, dim, count, i))
  {
    seq(count, i requires 0 <= i < count => TruthScore(metric, root, query, RowOf(data, dim, count, i)))
  }

  /** Both engines rank by different numbers and in the same order. */
  lemma SameNearest(metric: Metric, root: real -> real, data: seq<real>, dim: nat, count: nat, query: seq<real>,
                    out: seq<int>, k: nat)
    requires IsFlat(data, dim, count) && |query| == dim && IsRoot(root)
    ensures IsFirst(UpTo(ScanScores(metric, root, data, dim, count, query), count), out, k)
       <==> IsFirst(UpTo(TruthScores(metric, root, data, dim, count, query), count), out, k)
  {
    var scan := ScanScores(metric, root, data, dim, count, query);
    var truth := TruthScores(metric, root, data, dim, count, query);
    forall a, b | 0 <= a < count && 0 <= b < count
      ensures scan[a] < scan[b] <==> truth[a] < truth[b]
    {
      ScoresOrderAlike(metric, root, query, RowOf(data, dim, count, a), RowOf(data, dim, count, b));
    }
    SameOrderSameFirst(UpTo(scan, count), UpTo(truth, count), out, k);
  }
}
