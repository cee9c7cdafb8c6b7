/**
 The vector ground truth in Go: one bounded list per query, shifted and inserted into in
 place, and the recall an engine scores against it.
 */
module VectorTruth {
  import opened Sets
  import opened Counting
  import opened Library
  import opened FirstK
  import opened TopList
  import opened Metrics
  import opened Rows
  import opened Options
  import opened ExactScan
  import RowPool

  // ----- topK

  /** Makes room at `at` by moving everything from there on one place up, then writes the candidate. */
  method InsertAt(best: array<Pair>, n: nat, at: nat, c: Pair)
    requires at <= n < best.Length
    modifies best
    ensures best[..n + 1] == Inserted(old(best[..n]), at, c)
  {
    ghost var was := best[..n];
    var i := n;
    while i > at
      invariant at <= i <= n
      invariant forall j :: 0 <= j < i ==> best[j] == was[j]
      invariant forall j :: i < j <= n ==> best[j] == was[j - 1]
    {
      best[i] := best[i - 1];
      i := i - 1;
    }
    best[at] := c;
    forall j | 0 <= j <= n
      ensures best[j] == Inserted(was, at, c)[j]
    {
    }
  }

  /** The first position whose score is greater, by the search the library does. */
  method SearchGreater(best: array<Pair>, n: nat, s: real) returns (at: nat)
    requires n <= best.Length
    requires forall p, q :: 0 <= p < q < n ==> best[p].score <= best[q].score
    ensures Splits(best[..n], at, s)
  {
    at := 0;
    var hi := n;
    while at < hi
      invariant at <= hi <= n
      invariant forall p :: 0 <= p < at ==> best[p].score <= s
      invariant forall p :: hi <= p < n ==> best[p].score > s
    {
      var mid := (at + hi) / 2;
      if best[mid].score > s {
        hi := mid;
      } else {
        at := mid + 1;
      }
    }
  }

  ghost predicate HasNorms(norms: seq<real>, metric: Metric, root: real -> real, base: seq<real>, dim: nat, count: nat)
    requires IsFlat(base, dim, count)
  {
    metric == Cosine ==>
      |norms| == count && forall i :: 0 <= i < count ==> norms[i] == NormAfter(root, RowOf(base, dim, count, i))
  }

  /** The length of every base vector, for cosine only. */
  method NormsOf(metric: Metric, root: real -> real, base: seq<real>, dim: nat, count: nat) returns (norms: seq<real>)
    requires IsFlat(base, dim, count)
    ensures HasNorms(norms, metric, root, base, dim, count)
  {
    norms := [];
    if metric == Cosine {
      for i := 0 to count
        invariant |norms| == i
        invariant forall j :: 0 <= j < i ==> norms[j] == NormAfter(root, RowOf(base, dim, count, j))
      {
        norms := norms + [NormAfter(root, RowOf(base, dim, count, i))];
      }
    }
  }

  method ScoreRow(metric: Metric, ghost root: real -> real, query: seq<real>, row: seq<real>, lengths: (real, real))
    returns (s: real)
    requires |query| == |row| && IsRoot(root)
    requires metric == Cosine ==> lengths == (NormAfter(root, query), NormAfter(root, row))
    ensures s == TruthScore(metric, root, query, row)
  {
    s := 0.0;
    match metric {
      case Euclidean =>
        for j := 0 to |row|
          invariant s == SquaredUpTo(query, row, j)
        {
          var d := query[j] - row[j];
          s := s + d * d;
        }
      case InnerProduct =>
        s := Dot(query, row);
        s := -s;
      case Cosine =>
        s := Dot(query, row);
        NormsAgree(root, query);
        NormsAgree(root, row);
        PositiveProduct(lengths.0, lengths.1);
        s := -s / (lengths.0 * lengths.1);
    }
  }

  /** One candidate: skipped when it cannot enter a full list, else inserted and the list cut back. */
  method Offer(best: array<Pair>, n: nat, depth: nat, i: nat, s: real, ghost f: seq<real>) returns (m: nat)
    requires best.Length == depth + 1 && 0 < depth && n <= depth && i < |f| && s == f[i]
    requires Keeps(best[..n], f, depth, i)
    modifies best
    ensures m <= depth && Keeps(best[..m], f, depth, i + 1)
  {
    KeptSize(best[..n], f, depth, i);
    KeptSorted(best[..n], f, depth, i);
    if n == depth && s >= best[depth - 1].score {
      SkipKeeps(best[..n], f, depth, i);
      return n;
    }
    assert forall p, q :: 0 <= p < q < n ==> best[..n][p].score <= best[..n][q].score;
    var at := SearchGreater(best, n, s);
    InsertKeeps(best[..n], f, depth, i, at);
    InsertAt(best, n, at, Pair(s, i));
    m := if n + 1 > depth then depth else n + 1;
    assert best[..m] == best[..n + 1][..m];
  }

  /** Keeps the best `depth` candidates; whatever the list held before is overwritten. */
  method TopK(best: array<Pair>, base: seq<real>, norms: seq<real>, dim: nat, count: nat, query: seq<real>, depth: nat,
              metric: Metric, root: real -> real)
    returns (n: nat)
    requires IsRoot(root) && IsFlat(base, dim, count) && |query| == dim
    requires HasNorms(norms, metric, root, base, dim, count) && best.Length == depth + 1 && 0 < depth
    modifies best
    ensures n <= depth && Keeps(best[..n], TruthScores(metric, root, base, dim, count, query), depth, count)
  {
    ghost var f := TruthScores(metric, root, base, dim, count, query);
    var qnorm := if metric == Cosine then NormAfter(root, query) else 1.0;
    n := 0;
    NothingKept(f, depth);
    assert best[..0] == [];
    for i := 0 to count
      invariant n <= depth && Keeps(best[..n], f, depth, i)
    {
      var length := if metric == Cosine then norms[i] else 1.0;
      var s := ScoreRow(metric, root, query, RowOf(base, dim, count, i), (qnorm, length));
      n := Offer(best, n, depth, i, s, f);
    }
  }

  // ----- What the shapes have to be

  datatype ShapeError = NotPositive | NotWholeRows | TooFewVectors

  /** What the scan refuses before it starts. */
  function CheckShape(base: int, dim: int, queries: int, depth: int): (bad: Option<ShapeError>)
    requires base >= 0 && queries >= 0
    ensures bad == Some(NotPositive) <==> dim <= 0 || depth <= 0
    ensures bad == Some(NotWholeRows) <==> dim > 0 && depth > 0 && (base % dim != 0 || queries % dim != 0)
    ensures bad == Some(TooFewVectors) ==> dim > 0 && base % dim == 0 == queries % dim && base < depth * dim
  {
    if dim <= 0 || depth <= 0 then Some(NotPositive)
    else if base % dim != 0 || queries % dim != 0 then Some(NotWholeRows)
    else if base / dim < depth then Some(TooFewVectors)
    else None
  }

  /** A base set, a query set and a depth that passed the check, and what the answer to them has to be. */
  datatype Request = Request(metric: Metric, root: real -> real, base: seq<real>, dim: nat, count: nat,
                             queries: seq<real>, total: nat, depth: nat) {
    ghost predicate Valid() {
      && IsRoot(root) && IsFlat(base, dim, count) && IsFlat(queries, dim, total)
      && dim > 0 && 0 < depth <= count
    }

    ghost function Query(q: nat): (query: seq<real>)
      requires Valid() && q < total
      ensures |query| == dim
    {
      RowOf(queries, dim, total, q)
    }

    ghost function Scores(query: seq<real>): (f: seq<real>)
      requires Valid() && |query| == dim
      ensures |f| == count
    {
      TruthScores(metric, root, base, dim, count, query)
    }

    /** The first `depth` vectors of all, ordered by score, then identifier. */
    ghost predicate IsTruthRow(row: seq<int>, q: nat)
      requires Valid()
    {
      q < total && IsFirst(UpTo(Scores(Query(q)), count), row, depth)
    }

    ghost predicate IsTruth(want: seq<int>)
      requires Valid()
    {
      IsFlat(want, depth, total) && forall q :: 0 <= q < total ==> IsTruthRow(RowOf(want, depth, total, q), q)
    }

    /** The work the pool is given. */
    ghost predicate IsWork(j: RowPool.Job)
      requires Valid()
    {
      && j.Valid() && |j.rows| == total && j.depth == depth
      && forall q :: 0 <= q < total ==> IsTruthRow(j.rows[q], q)
    }
  }

  /** One row of the ground truth: exactly `depth` identifiers, the nearest first. */
  method TruthRow(best: array<Pair>, norms: seq<real>, t: Request, q: nat) returns (row: seq<int>)
    requires t.Valid() && q < t.total && HasNorms(norms, t.metric, t.root, t.base, t.dim, t.count)
    requires best.Length == t.depth + 1
    modifies best
    ensures |row| == t.depth && t.IsTruthRow(row, q)
  {
    var query := RowOf(t.queries, t.dim, t.total, q);
    var n := TopK(best, t.base, norms, t.dim, t.count, query, t.depth, t.metric, t.root);
    KeptSize(best[..n], t.Scores(query), t.depth, t.count);
    row := Ids(best[..n]);
  }

  /** A truth row, said of the vectors themselves: the nearest first, ties to the lower position. */
  lemma TruthRowMeans(t: Request, row: seq<int>, q: nat)
    requires t.Valid() && q < t.total
    ensures var f := t.Scores(t.Query(q));
            && (forall i :: 0 <= i < t.count ==>
                  f[i] == TruthScore(t.metric, t.root, t.Query(q), RowOf(t.base, t.dim, t.count, i)))
            && (t.IsTruthRow(row, q) <==>
                  && |row| == t.depth
                  && (forall i :: 0 <= i < |row| ==> 0 <= row[i] < t.count)
                  && (forall i, j :: 0 <= i < j < |row| ==>
                        f[row[i]] < f[row[j]] || (f[row[i]] == f[row[j]] && row[i] < row[j]))
                  && (forall x, i :: 0 <= x < t.count && x !in row && 0 <= i < |row| ==>
                        f[row[i]] < f[x] || (f[row[i]] == f[x] && row[i] < x)))
  {
    hide IsFirst;
    FirstMeans(t.Scores(t.Query(q)), row, t.depth);
  }

  lemma WholeRowsAreFlat(data: seq<real>, dim: int)
    requires dim > 0 && |data| % dim == 0
    ensures IsFlat(data, dim, |data| / dim)
  {
  }

  ghost function RequestOf(metric: Metric, root: real -> real, base: seq<real>, dim: nat, queries: seq<real>,
                           depth: nat): (t: Request)
    requires CheckShape(|base|, dim, |queries|, depth).None? && IsRoot(root)
    ensures t.Valid() && t.metric == metric && t.root == root && t.base == base && t.dim == dim
    ensures t.queries == queries && t.depth == depth && t.count * dim == |base| && t.total * dim == |queries|
  {
    WholeRowsAreFlat(base, dim);
    WholeRowsAreFlat(queries, dim);
    Request(metric, root, base, dim, |base| / dim, queries, |queries| / dim, depth)
  }

  /** What there is to do: the norms once, then a row for every query into one list that is used again. */
  method WorkFor(t: Request, workers: nat, watched: bool) returns (j: RowPool.Job)
    requires t.Valid() && workers > 0
    ensures t.IsWork(j) && j.workers == workers && j.watched == watched
  {
    var norms := NormsOf(t.metric, t.root, t.base, t.dim, t.count);
    var best := new Pair[t.depth + 1](_ => Pair(0.0, 0));
    var rows: seq<seq<int>> := [];
    for q := 0 to t.total
      invariant |rows| == q && fresh(best)
      invariant forall p :: 0 <= p < q ==> |rows[p]| == t.depth && t.IsTruthRow(rows[p], p)
    {
      var row := TruthRow(best, norms, t, q);
      rows := rows + [row];
    }
    j := RowPool.Job(rows, t.depth, workers, watched);
  }

  /** Whatever the schedule of the workers, what they leave behind is the truth for every query. */
  lemma ScheduledTruth(run: seq<RowPool.State>, j: RowPool.Job, t: Request)
    requires t.Valid() && t.IsWork(j) && RowPool.IsSchedule(run, j)
    ensures t.IsTruth(run[|run| - 1].out)
  {
    hide IsFirst, RowPool.Finished;
    var out := run[|run| - 1].out;
    RowPool.EveryScheduleIsSequential(run, j);
    forall q | 0 <= q < t.total
      ensures IsFlat(out, t.depth, t.total) && t.IsTruthRow(RowOf(out, t.depth, t.total, q), q)
    {
      RowIsJobRow(out, j, q);
    }
  }

  lemma RowIsJobRow(out: seq<int>, j: RowPool.Job, q: nat)
    requires j.Valid() && RowPool.Sequential(out, j) && q < |j.rows|
    ensures IsFlat(out, j.depth, |j.rows|) && RowOf(out, j.depth, |j.rows|, q) == j.rows[q]
  {
    var row := RowOf(out, j.depth, |j.rows|, q);
    RowFits(j.depth, |j.rows|, q);
    forall i: nat | i < j.depth
      ensures row[i] == j.rows[q][i]
    {
      assert RowPool.SameCell(out, j, q, i);
      assert row[i] == out[j.Cell(q, i)];
    }
  }

  /**
   The true neighbours of every query, or why the shapes are refused. `schedule` is how the workers happen to
   interleave; no schedule makes a difference.
   */
  method ExactTopK(base: seq<real>, dim: int, queries: seq<real>, depth: int, metric: Metric, root: real -> real,
                   workers: nat, watched: bool, schedule: RowPool.Job -> seq<RowPool.State>)
    returns (r: Result<seq<int>, ShapeError>)
    requires IsRoot(root) && workers > 0 && forall j: RowPool.Job :: j.Valid() ==> RowPool.IsSchedule(schedule(j), j)
    ensures CheckShape(|base|, dim, |queries|, depth).Some? ==>
              r == Err(CheckShape(|base|, dim, |queries|, depth).value)
    ensures r.Ok? <==>
            dim > 0 && depth > 0 && |base| % dim == 0 && |queries| % dim == 0 && depth <= |base| / dim
    ensures CheckShape(|base|, dim, |queries|, depth).None? ==>
              r.Ok? && RequestOf(metric, root, base, dim, queries, depth).IsTruth(r.value)
  {
    var bad := CheckShape(|base|, dim, |queries|, depth);
    if bad.Some? {
      return Err(bad.value);
    }
    hide RowPool.IsSchedule;
    WholeRowsAreFlat(base, dim);
    WholeRowsAreFlat(queries, dim);
    var t := Request(metric, root, base, dim, |base| / dim, queries, |queries| / dim, depth);
    var j := WorkFor(t, workers, watched);
    var run := schedule(j);
    assert run != [] by { ScheduleStarts(run, j); }
    ScheduledTruth(run, j, t);
    return Ok(run[|run| - 1].out);
  }

  lemma ScheduleStarts(run: seq<RowPool.State>, j: RowPool.Job)
    requires RowPool.IsSchedule(run, j)
    ensures run != []
  {
  }

  // ----- Recall

  /** Position `p` of the answers, laid out k to a query, is among the first k of its query's truth row. */
  ghost predicate HitAt(got: seq<int>, want: seq<int>, depth: nat, k: nat, p: nat)
    requires k > 0
  {
    p < |got| && p / k * depth + k <= |want| && got[p] in want[p / k * depth..p / k * depth + k]
  }

  /** The same within one row. */
  ghost function HitIn(got: seq<int>, truth: set<int>): int -> bool {
    j => 0 <= j < |got| && got[j] in truth
  }

  ghost function Hit(got: seq<int>, want: seq<int>, depth: nat, k: nat): int -> bool
    requires k > 0
  {
    p => p >= 0 && HitAt(got, want, depth, k, p)
  }

  /** A hit of a row is a hit of the whole. */
  lemma RowHits(got: seq<int>, want: seq<int>, depth: nat, k: nat, queries: nat, q: nat, j: nat)
    requires q < queries && 0 < k <= depth && queries * k <= |got| && queries * depth <= |want| && j < k
    ensures HitIn(Leading(got, k, k, queries, q), Elems(Leading(want, depth, k, queries, q)))(j)
        <==> Hit(got, want, depth, k)(q * k + j)
  {
    PositionInRow(k, q, j);
    RowFits(depth, queries, q);
    RowFits(k, queries, q);
    assert (q + 1) * depth == q * depth + depth && (q + 1) * k == q * k + k;
    assert Leading(got, k, k, queries, q)[j] == got[q * k + j];
  }

  /** The hits of the first rows, and then those of one more. */
  lemma HitsOfOneMoreRow(got: seq<int>, want: seq<int>, depth: nat, k: nat, queries: nat, q: nat)
    requires q < queries && 0 < k <= depth && queries * k <= |got| && queries * depth <= |want|
    ensures HowMany((q + 1) * k, Hit(got, want, depth, k))
         == HowMany(q * k, Hit(got, want, depth, k))
            + HowMany(k, HitIn(Leading(got, k, k, queries, q), Elems(Leading(want, depth, k, queries, q))))
  {
    hide HowMany, Hit, HitIn, Leading;
    assert (q + 1) * k == q * k + k;
    forall j: nat | j < k
      ensures HitIn(Leading(got, k, k, queries, q), Elems(Leading(want, depth, k, queries, q)))(j)
           == Hit(got, want, depth, k)(q * k + j)
    {
      RowHits(got, want, depth, k, queries, q, j);
    }
    HowManyInTwo(q * k, k, Hit(got, want, depth, k),
                 HitIn(Leading(got, k, k, queries, q), Elems(Leading(want, depth, k, queries, q))));
  }

  ghost predicate RowFound(got: seq<int>, want: seq<int>, depth: nat, k: nat, queries: nat, q: nat)
    requires q < queries && k <= depth && queries * k <= |got| && queries * depth <= |want|
  {
    forall id :: id in Leading(got, k, k, queries, q) ==> id in Leading(want, depth, k, queries, q)
  }

  /** Every position is a hit exactly when every row is found. */
  lemma {:induction false} FoundEverywhere(got: seq<int>, want: seq<int>, depth: nat, k: nat, queries: nat, n: nat)
    requires n <= queries && 0 < k <= depth && queries * k <= |got| && queries * depth <= |want|
    ensures HowMany(n * k, Hit(got, want, depth, k)) <= n * k
    ensures HowMany(n * k, Hit(got, want, depth, k)) == n * k <==>
            forall q :: 0 <= q < n ==> RowFound(got, want, depth, k, queries, q)
  {
    hide HowMany, Hit, RowFound, Leading;
    if n == 0 {
      HowManyNext(0, Hit(got, want, depth, k));
    } else {
      var q := n - 1;
      FoundEverywhere(got, want, depth, k, queries, q);
      HitsOfOneMoreRow(got, want, depth, k, queries, q);
      AllFound(got, want, depth, k, queries, q);
      assert n * k == q * k + k;
    }
  }

  lemma AllFound(got: seq<int>, want: seq<int>, depth: nat, k: nat, queries: nat, q: nat)
    requires q < queries && k <= depth && queries * k <= |got| && queries * depth <= |want|
    ensures var hits := HowMany(k, HitIn(Leading(got, k, k, queries, q), Elems(Leading(want, depth, k, queries, q))));
            hits <= k && (hits == k <==> RowFound(got, want, depth, k, queries, q))
  {
    hide Leading;
    var mine, truth := Leading(got, k, k, queries, q), Elems(Leading(want, depth, k, queries, q));
    HowManyIsAll(k, HitIn(mine, truth));
    if forall id :: id in mine ==> id in truth {
      forall j: nat | j < k
        ensures HitIn(mine, truth)(j)
      {
        assert mine[j] in mine;
      }
    } else {
      var id :| id in mine && id !in truth;
      var j: nat :| j < |mine| && mine[j] == id;
      assert !HitIn(mine, truth)(j);
    }
  }

  lemma DepthFits(want: seq<int>, queries: nat)
    requires queries > 0
    ensures queries * (|want| / queries) <= |want|
  {
  }

  ghost predicate Scorable(got: seq<int>, want: seq<int>, k: int, queries: int) {
    k > 0 && queries > 0 && |got| >= queries * k && |want| / queries >= k
  }

  /** The fraction of positions that are hits, which is one exactly when every row returned is among its truth. */
  ghost predicate IsRecall(recall: real, got: seq<int>, want: seq<int>, depth: nat, k: nat, queries: nat)
    requires k > 0
  {
    && k <= depth && queries * k <= |got| && queries * depth <= |want|
    && recall * (queries * k) as real == |set p: nat | p < queries * k && HitAt(got, want, depth, k, p)| as real
    && (recall == 1.0 <==> forall q :: 0 <= q < queries ==> RowFound(got, want, depth, k, queries, q))
  }

  /** Only the first k of each truth row count; a shape that cannot be scored scores nothing. */
  method Recall(got: seq<int>, want: seq<int>, k: int, queries: int) returns (recall: real)
    ensures !Scorable(got, want, k, queries) ==> recall == 0.0
    ensures Scorable(got, want, k, queries) ==> IsRecall(recall, got, want, |want| / queries, k, queries)
  {
    if k <= 0 || queries <= 0 || |got| < queries * k {
      return 0.0;
    }
    var depth := |want| / queries;
    if depth < k {
      return 0.0;
    }
    DepthFits(want, queries);
    recall := Scored(got, want, depth, k, queries);
  }

  method Scored(got: seq<int>, want: seq<int>, depth: nat, k: nat, queries: nat) returns (recall: real)
    requires 0 < k <= depth && 0 < queries && queries * k <= |got| && queries * depth <= |want|
    ensures IsRecall(recall, got, want, depth, k, queries)
  {
    hide RowFound, HowMany, HitAt;
    var found := CountAll(got, want, depth, k, queries);
    FoundEverywhere(got, want, depth, k, queries, queries);
    AtLeastOne(queries, k);
    recall := Fraction(found, queries * k);
    HitsAre(got, want, depth, k, queries * k);
  }

  lemma HitsAre(got: seq<int>, want: seq<int>, depth: nat, k: nat, n: nat)
    requires k > 0
    ensures HowMany(n, Hit(got, want, depth, k)) == |set p: nat | p < n && HitAt(got, want, depth, k, p)|
  {
    assert Where(n, Hit(got, want, depth, k)) == set p: nat | p < n && HitAt(got, want, depth, k, p);
  }

  method Fraction(part: nat, whole: nat) returns (r: real)
    requires whole > 0
    ensures r * whole as real == part as real && (r == 1.0 <==> part == whole)
  {
    r := part as real / whole as real;
    WholeFraction(part, whole);
  }

  method CountAll(got: seq<int>, want: seq<int>, depth: nat, k: nat, queries: nat) returns (found: nat)
    requires 0 < k <= depth && queries * k <= |got| && queries * depth <= |want|
    ensures found == HowMany(queries * k, Hit(got, want, depth, k))
  {
    hide HowMany, Hit, HitIn, Leading;
    found := 0;
    HowManyNext(0, Hit(got, want, depth, k));
    for q := 0 to queries
      invariant found == HowMany(q * k, Hit(got, want, depth, k))
    {
      HitsOfOneMoreRow(got, want, depth, k, queries, q);
      var hits := CountFound(Leading(got, k, k, queries, q), Leading(want, depth, k, queries, q));
      found := found + hits;
    }
  }

  /** How many of the identifiers in one row are in the other. */
  method CountFound(got: seq<int>, want: seq<int>) returns (found: nat)
    ensures found == HowMany(|got|, HitIn(got, Elems(want)))
  {
    hide HowMany;
    var truth: set<int> := {};
    for i := 0 to |want|
      invariant truth == Elems(want[..i])
    {
      ElemsUpTo(want, i);
      truth := truth + {want[i]};
    }
    assert want[..|want|] == want;
    found := 0;
    HowManyNext(0, HitIn(got, truth));
    for j := 0 to |got|
      invariant found == HowMany(j, HitIn(got, truth))
    {
      HowManyNext(j, HitIn(got, truth));
      if got[j] in truth {
        found := found + 1;
      }
    }
  }

  lemma AtLeastOne(queries: nat, k: nat)
    requires queries > 0 && k > 0
    ensures queries * k > 0
  {
  }
}
