/**
 The Rust scan held against the ground truth computed in Go: what it returns, what recall it scores and
 what its audit says. The two rank by different numbers under cosine.
 */
module Baseline {
  import opened Products
  import opened FirstK
  import opened TopList
  import opened Metrics
  import opened Rows
  import opened Options
  import opened ExactScan
  import opened VectorTruth
  import RowPool

  /** The scan was opened on the vectors the truth was computed from. */
  ghost predicate Scans(flat: Flat, t: Request) {
    && t.Valid() && flat.Built(t.root)
    && flat.metric == t.metric && flat.dim == t.dim && flat.count == t.count && flat.data == t.base
  }

  /** The first k of a truth row are the first k under the scan's scores, and only they are. */
  lemma TruthRowIsScanRow(flat: Flat, t: Request, row: seq<int>, q: nat, k: nat)
    requires Scans(flat, t) && q < t.total && t.IsTruthRow(row, q) && k <= t.depth
    ensures |row| == t.depth && IsFirst(UpTo(flat.Scores(t.root, t.Query(q)), flat.count), row[..k], k)
  {
    hide IsFirst;
    var truth := UpTo(t.Scores(t.Query(q)), t.count);
    UpToSize(t.Scores(t.Query(q)), t.count);
    assert |row| == t.depth by { FirstSize(truth, row, t.depth); }
    assert row[..Min(k, |row|)] == row[..k];
    FirstTruncates(truth, row, t.depth, k);
    SameNearest(t.metric, t.root, t.base, t.dim, t.count, t.Query(q), row[..k], k);
  }

  lemma FirstSize(score: Scores, out: seq<int>, k: nat)
    requires IsFirst(score, out, k)
    ensures |out| == Min(k, |score.Keys|)
  {
  }

  /** What the scan returns are the first k of the truth row, under every metric. */
  lemma ScanAgreesWithTruth(flat: Flat, t: Request, got: seq<int>, row: seq<int>, q: nat, k: nat)
    requires Scans(flat, t) && q < t.total && t.IsTruthRow(row, q) && k <= t.depth
    requires IsFirst(UpTo(flat.Scores(t.root, t.Query(q)), flat.count), got, k)
    ensures |row| == t.depth && got == row[..k]
  {
    hide IsFirst;
    TruthRowIsScanRow(flat, t, row, q, k);
    FirstIsUnique(UpTo(flat.Scores(t.root, t.Query(q)), flat.count), got, row[..k], k);
  }

  lemma LeadingOfRow(data: seq<int>, width: nat, k: nat, count: nat, q: nat)
    requires q < count && k <= width && IsFlat(data, width, count)
    ensures Leading(data, width, k, count, q) == RowOf(data, width, count, q)[..k]
  {
    RowFits(width, count, q);
    assert (q + 1) * width == q * width + width;
  }

  lemma ScanRowFound(flat: Flat, t: Request, got: seq<int>, want: seq<int>, k: nat, q: nat)
    requires Scans(flat, t) && q < t.total && 0 < k <= t.depth && IsFlat(got, k, t.total) && t.IsTruth(want)
    requires PaddedNearest(RowOf(got, k, t.total, q), flat.Scores(t.root, t.Query(q)), k)
    ensures RowFound(got, want, t.depth, k, t.total, q)
  {
    hide IsFirst;
    var mine, row := RowOf(got, k, t.total, q), RowOf(want, t.depth, t.total, q);
    assert mine[..Min(k, flat.count)] == mine;
    ScanAgreesWithTruth(flat, t, mine, row, q, k);
    LeadingOfRow(got, k, k, t.total, q);
    LeadingOfRow(want, t.depth, k, t.total, q);
  }

  /** What the scan scores against any truth for its queries. */
  method RecallOfScan(flat: Flat, t: Request, want: seq<int>, k: nat) returns (recall: real)
    requires Scans(flat, t) && t.IsTruth(want) && k > 0
    ensures recall == if k <= t.depth && t.total > 0 then 1.0 else 0.0
  {
    hide PaddedNearest, RowFound;
    var got := Serial(flat, t.root, t.queries, t.total, k);
    if k <= t.depth {
      forall q | 0 <= q < t.total
        ensures t.total * k <= |got| && RowFound(got, want, t.depth, k, t.total, q)
      {
        ScanRowFound(flat, t, got, want, k, q);
      }
    }
    recall := Recall(got, want, k, t.total);
    if t.total > 0 {
      DivideBack(t.total, t.depth);
      assert |want| / t.total == t.depth;
    }
  }

  /**
   Ground truth computed and scanned for: the baseline's recall is one, for every metric, every depth and
   every schedule of the workers, unless there is no query or fewer neighbours are known than asked for.
   */
  method ExactRecall(base: seq<real>, dim: int, queries: seq<real>, depth: int, k: nat, metric: Metric,
                     root: real -> real, workers: nat, watched: bool, schedule: RowPool.Job -> seq<RowPool.State>)
    returns (r: Result<real, ShapeError>)
    requires IsRoot(root) && workers > 0 && forall j: RowPool.Job :: j.Valid() ==> RowPool.IsSchedule(schedule(j), j)
    requires k > 0
    ensures r.Ok? <==>
            dim > 0 && depth > 0 && |base| % dim == 0 && |queries| % dim == 0 && depth <= |base| / dim
    ensures r.Ok? ==> r.value == if k <= depth && queries != [] then 1.0 else 0.0
  {
    hide RowPool.IsSchedule;
    var want := ExactTopK(base, dim, queries, depth, metric, root, workers, watched, schedule);
    if want.Err? {
      return Err(want.error);
    }
    WholeRowsAreFlat(base, dim);
    WholeRowsAreFlat(queries, dim);
    var t := Request(metric, root, base, dim, |base| / dim, queries, |queries| / dim, depth);
    var flat := Open(dim, |base| / dim, base, metric, root);
    var recall := RecallOfScan(flat, t, want.value, k);
    return Ok(recall);
  }

  // ----- The audit

  /** A truth row, ranked by the Go scores, is a true answer under the scan's. */
  lemma TruthIsTop(flat: Flat, t: Request, want: seq<int>, k: nat, q: nat)
    requires Scans(flat, t) && t.IsTruth(want) && k <= t.depth && q < t.total
    ensures RowIsTop(flat, t.root, t.queries, t.total, want, t.depth, k, q)
  {
    hide IsFirst, IsTop;
    var row := RowOf(want, t.depth, t.total, q);
    TruthRowIsScanRow(flat, t, row, q, k);
    FirstIsTop(flat.Scores(t.root, t.Query(q)), row[..k], k);
    LeadingOfRow(want, t.depth, k, t.total, q);
  }

  /** k different identifiers of indexed vectors. */
  ghost predicate RowIsKnown(flat: Flat, t: Request, got: seq<int>, k: nat, q: nat)
    requires Scans(flat, t) && q < t.total && t.total * k <= |got|
  {
    AreKnown(flat.Scores(t.root, t.Query(q)), Leading(got, k, k, t.total, q))
  }

  /**
   Audited against the computed truth, nothing is wrong exactly when every answer is a true one, and then
   every neighbour that was not returned ties with the worst that was.
   */
  method Audit(flat: Flat, t: Request, got: seq<int>, want: seq<int>, k: nat) returns (missed: nat, wrong: nat)
    requires Scans(flat, t) && t.IsTruth(want) && 0 < k <= t.depth && t.total * k <= |got|
    requires forall q :: 0 <= q < t.total ==> RowIsKnown(flat, t, got, k, q)
    ensures wrong == 0 <==>
            forall q :: 0 <= q < t.total ==> RowIsTop(flat, t.root, t.queries, t.total, got, k, k, q)
    ensures wrong == 0 ==>
              forall q :: 0 <= q < t.total ==>
                MissesTie(flat, t.root, t.queries, got, want, t.depth, k, t.total, q)
  {
    hide RowIsTop, MissesTie, AreKnown;
    forall q | 0 <= q < t.total
      ensures RowIsTop(flat, t.root, t.queries, t.total, want, t.depth, k, q)
    {
      TruthIsTop(flat, t, want, k, q);
    }
    forall q | 0 <= q < t.total
      ensures AreKnown(flat.Scores(t.root, RowOf(t.queries, flat.dim, t.total, q)), Leading(got, k, k, t.total, q))
    {
      assert RowIsKnown(flat, t, got, k, q);
    }
    missed, wrong := Disagreements(flat, t.root, t.queries, want, t.depth, got, k, t.total);
    VerdictIsExact(flat, t.root, t.queries, got, want, t.depth, k, t.total, t.total);
    if wrong == 0 {
      EveryMissTies(flat, t.root, t.queries, got, want, t.depth, k, t.total);
    }
  }
}
