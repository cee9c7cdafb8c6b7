/**
 The brute force baseline in Rust: a scan that abandons distances it can see will lose, and
 the audit that decides whether a recall below one is only a tie.
 */
module ExactScan {
  import opened Sets
  import opened Counting
  import opened FirstK
  import opened TopList
  import opened Metrics
  import opened Rows
  import opened Options

  /** The whole engine: the vectors, in order, in memory, and their lengths for cosine. */
  datatype Flat = Flat(dim: nat, count: nat, data: seq<real>, metric: Metric, norms: seq<real>) {
    ghost predicate Built(root: real -> real) {
      && IsRoot(root) && IsFlat(data, dim, count)
      && (metric == Cosine ==>
            |norms| == count && forall i :: 0 <= i < count ==> norms[i] == Norm(root, RowOf(data, dim, count, i)))
    }

    ghost function Scores(root: real -> real, query: seq<real>): (f: seq<real>)
      requires Built(root) && |query| == dim
      ensures |f| == count
    {
      ScanScores(metric, root, data, dim, count, query)
    }
  }

  method Open(dim: nat, count: nat, values: seq<real>, metric: Metric, root: real -> real) returns (flat: Flat)
    requires IsRoot(root) && IsFlat(values, dim, count)
    ensures flat.Built(root) && flat.dim == dim && flat.count == count && flat.data == values && flat.metric == metric
  {
    var norms: seq<real> := [];
    if metric == Cosine {
      for i := 0 to count
        invariant |norms| == i
        invariant forall j :: 0 <= j < i ==> norms[j] == Norm(root, RowOf(values, dim, count, j))
      {
        norms := norms + [Norm(root, RowOf(values, dim, count, i))];
      }
    }
    flat := Flat(dim, count, values, metric, norms);
  }

  // ----- Squared distance, abandoned as soon as it cannot win

  /** A score to beat; nothing beats infinity. */
  datatype Bound = Infinite | Finite(value: real) {
    predicate Reached(s: real) {
      Finite? && s >= value
    }
  }

  /** Blocks of eight with a check after each, then what is left over. */
  method Squared(a: seq<real>, b: seq<real>, worst: Bound) returns (r: Option<real>)
    requires |a| == |b|
    ensures r == if worst.Reached(SquaredUpTo(a, b, |a|)) then None else Some(SquaredUpTo(a, b, |a|))
  {
    var blocks := |a| / 8;
    var sum := 0.0;
    for block := 0 to blocks
      invariant sum == SquaredUpTo(a, b, 8 * block)
    {
      for i := 0 to 8
        invariant sum == SquaredUpTo(a, b, 8 * block + i)
      {
        var d := a[8 * block + i] - b[8 * block + i];
        sum := sum + d * d;
      }
      if worst.Reached(sum) {
        SquaredGrows(a, b, 8 * (block + 1), |a|);
        return None;
      }
    }
    for i := 8 * blocks to |a|
      invariant sum == SquaredUpTo(a, b, i)
    {
      var d := a[i] - b[i];
      sum := sum + d * d;
    }
    return if worst.Reached(sum) then None else Some(sum);
  }

  method Dot(a: seq<real>, b: seq<real>) returns (s: real)
    requires |a| == |b|
    ensures s == DotUpTo(a, b, |a|)
  {
    s := 0.0;
    for i := 0 to |a|
      invariant s == DotUpTo(a, b, i)
    {
      s := s + a[i] * b[i];
    }
  }

  /** What one base vector scores unless it can be abandoned against `worst`. */
  method ScoreAgainst(flat: Flat, ghost root: real -> real, query: seq<real>, i: nat, worst: Bound)
    returns (r: Option<real>)
    requires flat.Built(root) && |query| == flat.dim && i < flat.count
    ensures r.Some? ==> r.value == flat.Scores(root, query)[i]
    ensures r.None? ==> worst.Reached(flat.Scores(root, query)[i])
  {
    var row := RowOf(flat.data, flat.dim, flat.count, i);
    match flat.metric {
      case Euclidean =>
        r := Squared(query, row, worst);
      case InnerProduct =>
        var s := Dot(query, row);
        r := Some(-s);
      case Cosine =>
        var s := Dot(query, row);
        NormsAgree(root, row);
        r := Some(-s / flat.norms[i]);
    }
  }

  /** The full score, nothing abandoned. */
  method Score(flat: Flat, ghost root: real -> real, query: seq<real>, i: nat) returns (s: real)
    requires flat.Built(root) && |query| == flat.dim && i < flat.count
    ensures s == flat.Scores(root, query)[i]
  {
    var r := ScoreAgainst(flat, root, query, i, Infinite);
    s := r.value;
  }

  // ----- Nearest

  /** The number of leading entries that score at most `s`, in a list sorted by score. */
  method PartitionPoint(best: seq<Pair>, s: real) returns (at: nat)
    requires forall p, q :: 0 <= p < q < |best| ==> best[p].score <= best[q].score
    ensures Splits(best, at, s)
  {
    at := 0;
    var hi := |best|;
    while at < hi
      invariant at <= hi <= |best|
      invariant forall p :: 0 <= p < at ==> best[p].score <= s
      invariant forall p :: hi <= p < |best| ==> best[p].score > s
    {
      var mid := (at + hi) / 2;
      if best[mid].score <= s {
        at := mid + 1;
      } else {
        hi := mid;
      }
    }
  }

  method Consider(best: seq<Pair>, flat: Flat, ghost root: real -> real, query: seq<real>, k: nat, i: nat)
    returns (next: seq<Pair>)
    requires flat.Built(root) && |query| == flat.dim && i < flat.count && k > 0
    requires Keeps(best, flat.Scores(root, query), k, i)
    ensures Keeps(next, flat.Scores(root, query), k, i + 1)
  {
    ghost var f := flat.Scores(root, query);
    var worst := if |best| == k then Finite(best[k - 1].score) else Infinite;
    var score := ScoreAgainst(flat, root, query, i, worst);
    if score.None? || (|best| == k && score.value >= worst.value) {
      SkipKeeps(best, f, k, i);
      return best;
    }
    KeptSize(best, f, k, i);
    KeptSorted(best, f, k, i);
    var at := PartitionPoint(best, score.value);
    InsertKeeps(best, f, k, i, at);
    next := best[..at] + [Pair(score.value, i)] + best[at..];
    next := next[..Min(k, |next|)];
  }

  /** The first k identifiers of all vectors ordered by full score, then identifier. */
  method Nearest(flat: Flat, ghost root: real -> real, query: seq<real>, k: nat) returns (ids: seq<int>)
    requires flat.Built(root) && |query| == flat.dim && k > 0
    ensures IsFirst(UpTo(flat.Scores(root, query), flat.count), ids, k)
  {
    ghost var f := flat.Scores(root, query);
    var best: seq<Pair> := [];
    NothingKept(f, k);
    for i := 0 to flat.count
      invariant Keeps(best, f, k, i)
    {
      best := Consider(best, flat, root, query, k, i);
    }
    ids := Ids(best);
  }

  // ----- The audit

  /** The furthest known thing that was returned; nothing known leaves minus infinity. */
  function WorstOf(f: seq<real>, mine: seq<int>): Option<real> {
    if mine == [] then None else
      var w, id := WorstOf(f, mine[..|mine| - 1]), mine[|mine| - 1];
      if 0 <= id < |f| && (w.None? || f[id] > w.value) then Some(f[id]) else w
  }

  lemma {:induction false} WorstIsWorst(f: seq<real>, mine: seq<int>)
    ensures var w := WorstOf(f, mine);
            && (forall j :: 0 <= j < |mine| && 0 <= mine[j] < |f| ==> w.Some? && f[mine[j]] <= w.value)
            && (w.Some? ==> exists j :: 0 <= j < |mine| && 0 <= mine[j] < |f| && f[mine[j]] == w.value)
    decreases |mine|
  {
    if mine != [] {
      var front, last := mine[..|mine| - 1], |mine| - 1;
      WorstIsWorst(f, front);
      var before, w := WorstOf(f, front), WorstOf(f, mine);
      if w.Some? && w != before {
        assert 0 <= mine[last] < |f| && f[mine[last]] == w.value;
      } else if w.Some? {
        var j :| 0 <= j < |front| && 0 <= front[j] < |f| && f[front[j]] == before.value;
        assert mine[j] == front[j];
      }
    }
  }

  /** A neighbour that was left out without a right to be. */
  predicate Unexplained(f: seq<real>, worst: Option<real>, id: int) {
    !(0 <= id < |f|) || (worst.Some? && f[id] < worst.value)
  }

  function MissedIn(mine: seq<int>, want: seq<int>): nat {
    if want == [] then 0 else
      MissedIn(mine, want[..|want| - 1]) + if want[|want| - 1] in mine then 0 else 1
  }

  function WrongIn(f: seq<real>, mine: seq<int>, want: seq<int>): nat {
    if want == [] then 0 else
      var id := want[|want| - 1];
      WrongIn(f, mine, want[..|want| - 1]) + if id !in mine && Unexplained(f, WorstOf(f, mine), id) then 1 else 0
  }

  ghost function Misses(mine: seq<int>, want: seq<int>): int -> bool {
    j => 0 <= j < |want| && want[j] !in mine
  }

  ghost function Wrongs(f: seq<real>, mine: seq<int>, want: seq<int>): int -> bool {
    j => 0 <= j < |want| && want[j] !in mine && Unexplained(f, WorstOf(f, mine), want[j])
  }

  lemma {:induction false} CountedUpTo(f: seq<real>, mine: seq<int>, want: seq<int>, n: nat)
    requires n <= |want|
    ensures MissedIn(mine, want[..n]) == HowMany(n, Misses(mine, want))
    ensures WrongIn(f, mine, want[..n]) == HowMany(n, Wrongs(f, mine, want))
  {
    hide HowMany, WorstOf, Unexplained;
    if n == 0 {
      HowManyNext(0, Misses(mine, want));
      HowManyNext(0, Wrongs(f, mine, want));
    } else {
      CountedUpTo(f, mine, want, n - 1);
      HowManyNext(n - 1, Misses(mine, want));
      HowManyNext(n - 1, Wrongs(f, mine, want));
      assert want[..n][..n - 1] == want[..n - 1];
    }
  }

  /** The counts are of positions in the truth row; a neighbour that is wrong was missed. */
  lemma MissesAreCounted(f: seq<real>, mine: seq<int>, want: seq<int>)
    ensures MissedIn(mine, want) == |set j: nat | j < |want| && want[j] !in mine|
    ensures WrongIn(f, mine, want)
         == |set j: nat | j < |want| && want[j] !in mine && Unexplained(f, WorstOf(f, mine), want[j])|
    ensures WrongIn(f, mine, want) <= MissedIn(mine, want)
  {
    CountedUpTo(f, mine, want, |want|);
    assert want[..|want|] == want;
    var missed := set j: nat | j < |want| && want[j] !in mine;
    var wrong := set j: nat | j < |want| && want[j] !in mine && Unexplained(f, WorstOf(f, mine), want[j]);
    assert Where(|want|, Misses(mine, want)) == missed;
    assert Where(|want|, Wrongs(f, mine, want)) == wrong;
    SubsetSize(wrong, missed);
  }

  method WorstKept(flat: Flat, ghost root: real -> real, query: seq<real>, mine: seq<int>) returns (worst: Option<real>)
    requires flat.Built(root) && |query| == flat.dim
    ensures worst == WorstOf(flat.Scores(root, query), mine)
  {
    worst := None;
    for j := 0 to |mine|
      invariant worst == WorstOf(flat.Scores(root, query), mine[..j])
    {
      assert mine[..j + 1][..j] == mine[..j];
      if 0 <= mine[j] < flat.count {
        var s := Score(flat, root, query, mine[j]);
        if worst.None? || s > worst.value {
          worst := Some(s);
        }
      }
    }
    assert mine[..|mine|] == mine;
  }

  method AuditRow(flat: Flat, ghost root: real -> real, query: seq<real>, mine: seq<int>, want: seq<int>)
    returns (missed: nat, wrong: nat)
    requires flat.Built(root) && |query| == flat.dim
    ensures missed == MissedIn(mine, want) && wrong == WrongIn(flat.Scores(root, query), mine, want)
    ensures missed == |set j: nat | j < |want| && want[j] !in mine|
    ensures var f := flat.Scores(root, query);
            wrong == |set j: nat | j < |want| && want[j] !in mine && Unexplained(f, WorstOf(f, mine), want[j])|
    ensures wrong <= missed
  {
    ghost var f := flat.Scores(root, query);
    MissesAreCounted(f, mine, want);
    var worst := WorstKept(flat, root, query, mine);
    missed, wrong := 0, 0;
    for j := 0 to |want|
      invariant missed == MissedIn(mine, want[..j]) && wrong == WrongIn(f, mine, want[..j])
    {
      assert want[..j + 1][..j] == want[..j];
      var id := want[j];
      if id in mine {
        continue;
      }
      missed := missed + 1;
      var unexplained := true;
      if 0 <= id < flat.count {
        var s := Score(flat, root, query, id);
        unexplained := worst.Some? && s < worst.value;
      }
      if unexplained {
        wrong := wrong + 1;
      }
    }
    assert want[..|want|] == want;
  }

  /** k different known candidates, none of the others nearer than any of them. */
  ghost predicate IsTop(f: seq<real>, ids: seq<int>) {
    && (forall i, j :: 0 <= i < j < |ids| ==> ids[i] != ids[j])
    && (forall j :: 0 <= j < |ids| ==> 0 <= ids[j] < |f|)
    && (forall x, j :: 0 <= x < |f| && x !in ids && 0 <= j < |ids| ==> f[ids[j]] <= f[x])
  }

  ghost predicate AreKnown(f: seq<real>, ids: seq<int>) {
    && (forall i, j :: 0 <= i < j < |ids| ==> ids[i] != ids[j])
    && (forall j :: 0 <= j < |ids| ==> 0 <= ids[j] < |f|)
  }

  lemma {:induction false} NothingWrong(f: seq<real>, mine: seq<int>, want: seq<int>)
    ensures WrongIn(f, mine, want) == 0 <==>
            forall j :: 0 <= j < |want| && want[j] !in mine ==> !Unexplained(f, WorstOf(f, mine), want[j])
    decreases |want|
  {
    if want != [] {
      NothingWrong(f, mine, want[..|want| - 1]);
    }
  }

  lemma {:induction false} DistinctSize(ids: seq<int>)
    requires forall i, j :: 0 <= i < j < |ids| ==> ids[i] != ids[j]
    ensures |Elems(ids)| == |ids|
    decreases |ids|
  {
    if ids != [] {
      var front, last := ids[..|ids| - 1], ids[|ids| - 1];
      DistinctSize(front);
      assert ids == front + [last];
      assert Elems(ids) == Elems(front) + {last} && last !in front;
    }
  }

  /** If something returned is not wanted, something wanted was not returned. */
  lemma Counterpart(mine: seq<int>, want: seq<int>, m: int) returns (w: int)
    requires |mine| == |want|
    requires forall i, j :: 0 <= i < j < |mine| ==> mine[i] != mine[j]
    requires forall i, j :: 0 <= i < j < |want| ==> want[i] != want[j]
    requires m in mine && m !in want
    ensures w in want && w !in mine
  {
    DistinctSize(mine);
    DistinctSize(want);
    assert m in Elems(mine) && m !in Elems(want);
    if Elems(want) <= Elems(mine) {
      SubsetSize(Elems(want), Elems(mine));
      assert false;
    }
    w := Outside(Elems(want), Elems(mine));
  }

  lemma ReturnedAtMostWorst(f: seq<real>, mine: seq<int>, m: int)
    requires AreKnown(f, mine) && m in mine
    ensures WorstOf(f, mine).Some? && 0 <= m < |f| && f[m] <= WorstOf(f, mine).value
  {
    WorstIsWorst(f, mine);
    var j :| 0 <= j < |mine| && mine[j] == m;
    assert 0 <= mine[j] < |f|;
  }

  /**
   The audit of one row is sound and complete: given a true answer, nothing is wrong exactly
   when what was returned is a true answer too.
   */
  lemma AuditIsExact(f: seq<real>, mine: seq<int>, want: seq<int>)
    requires |mine| == |want| && IsTop(f, want) && AreKnown(f, mine)
    ensures WrongIn(f, mine, want) == 0 <==> IsTop(f, mine)
  {
    NothingWrong(f, mine, want);
    if WrongIn(f, mine, want) == 0 {
      forall x, j | 0 <= x < |f| && x !in mine && 0 <= j < |mine|
        ensures f[mine[j]] <= f[x]
      {
        NothingWrongIsTop(f, mine, want, x, j);
      }
    }
    WorstIsWorst(f, mine);
    if IsTop(f, mine) && WorstOf(f, mine).Some? {
      var j :| 0 <= j < |mine| && 0 <= mine[j] < |f| && f[mine[j]] == WorstOf(f, mine).value;
      forall i | 0 <= i < |want| && want[i] !in mine
        ensures !Unexplained(f, WorstOf(f, mine), want[i])
      {
        assert f[mine[j]] <= f[want[i]];
      }
    }
  }

  lemma NothingWrongIsTop(f: seq<real>, mine: seq<int>, want: seq<int>, x: int, j: nat)
    requires |mine| == |want| && IsTop(f, want) && AreKnown(f, mine)
    requires forall i :: 0 <= i < |want| && want[i] !in mine ==> !Unexplained(f, WorstOf(f, mine), want[i])
    requires 0 <= x < |f| && x !in mine && j < |mine|
    ensures f[mine[j]] <= f[x]
  {
    ReturnedAtMostWorst(f, mine, mine[j]);
    if x in want {
      var i :| 0 <= i < |want| && want[i] == x;
    } else if mine[j] in want {
      var i :| 0 <= i < |want| && want[i] == mine[j];
    } else {
      var w := Counterpart(mine, want, mine[j]);
      var i :| 0 <= i < |want| && want[i] == w;
    }
  }

  /** What the published note says: every neighbour not returned ties with the worst that was. */
  lemma MissedNeighboursTie(f: seq<real>, mine: seq<int>, want: seq<int>, missed: int)
    requires |mine| == |want| && IsTop(f, want) && AreKnown(f, mine)
    requires WrongIn(f, mine, want) == 0 && missed in want && missed !in mine
    ensures WorstOf(f, mine).Some? && 0 <= missed < |f| && f[missed] == WorstOf(f, mine).value
  {
    NothingWrong(f, mine, want);
    var i :| 0 <= i < |want| && want[i] == missed;
    var extra := Counterpart(want, mine, missed);
    ReturnedAtMostWorst(f, mine, extra);
    assert f[want[i]] <= f[extra];
  }

  // ----- The whole query set

  /** The row of a query: the nearest, then -1 where there were not enough vectors. */
  ghost predicate PaddedNearest(row: seq<int>, f: seq<real>, k: nat) {
    && |row| == k
    && IsFirst(UpTo(f, |f|), row[..Min(k, |f|)], k)
    && forall j :: Min(k, |f|) <= j < k ==> row[j] == -1
  }

  /** Every query in turn, k identifiers each, laid out one after another. */
  method Serial(flat: Flat, ghost root: real -> real, queries: seq<real>, count: nat, k: nat) returns (ids: seq<int>)
    requires flat.Built(root) && IsFlat(queries, flat.dim, count) && k > 0
    ensures IsFlat(ids, k, count)
    ensures forall q :: 0 <= q < count ==>
              PaddedNearest(RowOf(ids, k, count, q), flat.Scores(root, RowOf(queries, flat.dim, count, q)), k)
  {
    hide PaddedNearest, RowOf;
    ids := [];
    for q := 0 to count
      invariant IsFlat(ids, k, q)
      invariant forall p :: 0 <= p < q ==>
                  PaddedNearest(RowOf(ids, k, q, p), flat.Scores(root, RowOf(queries, flat.dim, count, p)), k)
    {
      var row := PaddedRow(flat, root, RowOf(queries, flat.dim, count, q), k);
      RowAppended(ids, k, q, row);
      ids := ids + row;
    }
  }

  method PaddedRow(flat: Flat, ghost root: real -> real, query: seq<real>, k: nat) returns (row: seq<int>)
    requires flat.Built(root) && |query| == flat.dim && k > 0
    ensures PaddedNearest(row, flat.Scores(root, query), k)
  {
    var got := Nearest(flat, root, query, k);
    UpToSize(flat.Scores(root, query), flat.count);
    row := got[..Min(|got|, k)];
    while |row| < k
      invariant |got| <= |row| <= k && row[..|got|] == got
      invariant forall j :: |got| <= j < |row| ==> row[j] == -1
    {
      row := row + [-1];
    }
  }

  /** The row of a longer list, as far as it is wanted. */
  function Leading(data: seq<int>, width: nat, k: nat, count: nat, q: nat): (row: seq<int>)
    requires q < count && k <= width && count * width <= |data|
    ensures |row| == k
  {
    RowFits(width, count, q);
    assert (q + 1) * width == q * width + width;
    data[q * width..q * width + k]
  }

  ghost function MissedBefore(got: seq<int>, truth: seq<int>, depth: nat, k: nat, count: nat, n: nat): nat
    requires n <= count && k <= depth && count * k <= |got| && count * depth <= |truth|
  {
    if n == 0 then 0 else
      MissedBefore(got, truth, depth, k, count, n - 1)
        + MissedIn(Leading(got, k, k, count, n - 1), Leading(truth, depth, k, count, n - 1))
  }

  ghost function WrongBefore(flat: Flat, root: real -> real, queries: seq<real>, got: seq<int>, truth: seq<int>,
                             depth: nat, k: nat, count: nat, n: nat): nat
    requires flat.Built(root) && IsFlat(queries, flat.dim, count)
    requires n <= count && k <= depth && count * k <= |got| && count * depth <= |truth|
  {
    if n == 0 then 0 else
      WrongBefore(flat, root, queries, got, truth, depth, k, count, n - 1)
        + WrongIn(flat.Scores(root, RowOf(queries, flat.dim, count, n - 1)),
                  Leading(got, k, k, count, n - 1), Leading(truth, depth, k, count, n - 1))
  }

  /** Position `p` of the first k of every truth row, laid out k to a query, was not returned for its query. */
  ghost predicate MissAt(got: seq<int>, truth: seq<int>, depth: nat, k: nat, p: nat)
    requires k > 0
  {
    && p / k * depth + p % k < |truth| && p / k * k + k <= |got|
    && truth[p / k * depth + p % k] !in got[p / k * k..p / k * k + k]
  }

  ghost function Miss(got: seq<int>, truth: seq<int>, depth: nat, k: nat): int -> bool
    requires k > 0
  {
    p => p >= 0 && MissAt(got, truth, depth, k, p)
  }

  lemma RowMisses(got: seq<int>, truth: seq<int>, depth: nat, k: nat, count: nat, q: nat, j: nat)
    requires q < count && 0 < k <= depth && count * k <= |got| && count * depth <= |truth| && j < k
    ensures Misses(Leading(got, k, k, count, q), Leading(truth, depth, k, count, q))(j)
        <==> Miss(got, truth, depth, k)(q * k + j)
  {
    PositionInRow(k, q, j);
    RowFits(depth, count, q);
    RowFits(k, count, q);
    assert (q + 1) * depth == q * depth + depth && (q + 1) * k == q * k + k;
    assert Leading(truth, depth, k, count, q)[j] == truth[q * depth + j];
  }

  lemma MissesOfOneMoreRow(got: seq<int>, truth: seq<int>, depth: nat, k: nat, count: nat, q: nat)
    requires q < count && 0 < k <= depth && count * k <= |got| && count * depth <= |truth|
    ensures HowMany((q + 1) * k, Miss(got, truth, depth, k))
         == HowMany(q * k, Miss(got, truth, depth, k))
            + MissedIn(Leading(got, k, k, count, q), Leading(truth, depth, k, count, q))
  {
    hide HowMany, Miss, Misses, MissedIn, Leading;
    var mine, want := Leading(got, k, k, count, q), Leading(truth, depth, k, count, q);
    assert (q + 1) * k == q * k + k;
    forall j: nat | j < k
      ensures Misses(mine, want)(j) == Miss(got, truth, depth, k)(q * k + j)
    {
      RowMisses(got, truth, depth, k, count, q, j);
    }
    HowManyInTwo(q * k, k, Miss(got, truth, depth, k), Misses(mine, want));
    CountedUpTo([], mine, want, k);
    assert want[..k] == want;
  }

  lemma {:induction false} MissedIsHowMany(got: seq<int>, truth: seq<int>, depth: nat, k: nat, count: nat, n: nat)
    requires n <= count && 0 < k <= depth && count * k <= |got| && count * depth <= |truth|
    ensures MissedBefore(got, truth, depth, k, count, n) == HowMany(n * k, Miss(got, truth, depth, k))
  {
    hide HowMany, Miss, MissedIn, Leading;
    if n == 0 {
      HowManyNext(0, Miss(got, truth, depth, k));
    } else {
      MissedIsHowMany(got, truth, depth, k, count, n - 1);
      MissesOfOneMoreRow(got, truth, depth, k, count, n - 1);
    }
  }

  /** What is published as missed is the number of positions that were. */
  lemma MissedAreCounted(got: seq<int>, truth: seq<int>, depth: nat, k: nat, count: nat)
    requires 0 < k <= depth && count * k <= |got| && count * depth <= |truth|
    ensures MissedBefore(got, truth, depth, k, count, count)
         == |set p: nat | p < count * k && MissAt(got, truth, depth, k, p)|
  {
    hide MissedBefore, MissAt;
    MissedIsHowMany(got, truth, depth, k, count, count);
    SameMisses(got, truth, depth, k, count * k);
  }

  lemma SameMisses(got: seq<int>, truth: seq<int>, depth: nat, k: nat, n: nat)
    requires k > 0
    ensures HowMany(n, Miss(got, truth, depth, k)) == |set p: nat | p < n && MissAt(got, truth, depth, k, p)|
  {
    assert Where(n, Miss(got, truth, depth, k)) == set p: nat | p < n && MissAt(got, truth, depth, k, p);
  }

  /** Nothing is wrong that was not missed. */
  lemma {:induction false} WrongAtMostMissed(flat: Flat, root: real -> real, queries: seq<real>, got: seq<int>,
                                             truth: seq<int>, depth: nat, k: nat, count: nat, n: nat)
    requires flat.Built(root) && IsFlat(queries, flat.dim, count)
    requires n <= count && k <= depth && count * k <= |got| && count * depth <= |truth|
    ensures WrongBefore(flat, root, queries, got, truth, depth, k, count, n)
         <= MissedBefore(got, truth, depth, k, count, n)
  {
    hide WrongIn, MissedIn;
    if n > 0 {
      WrongAtMostMissed(flat, root, queries, got, truth, depth, k, count, n - 1);
      MissesAreCounted(flat.Scores(root, RowOf(queries, flat.dim, count, n - 1)),
                       Leading(got, k, k, count, n - 1), Leading(truth, depth, k, count, n - 1));
    }
  }

  /** With nothing to check against, every neighbour is reported as unexplained. */
  method Disagreements(flat: Flat, ghost root: real -> real, queries: seq<real>, truth: seq<int>, depth: nat,
                       got: seq<int>, k: nat, count: nat)
    returns (missed: nat, wrong: nat)
    requires flat.Built(root) && IsFlat(queries, flat.dim, count)
    ensures k == 0 || depth < k || |got| < count * k || |truth| < count * depth ==> missed == wrong == count * k
    ensures k > 0 && depth >= k && |got| >= count * k && |truth| >= count * depth ==>
              && missed == MissedBefore(got, truth, depth, k, count, count)
              && wrong == WrongBefore(flat, root, queries, got, truth, depth, k, count, count) <= missed
              && missed == |set p: nat | p < count * k && MissAt(got, truth, depth, k, p)|
  {
    if k == 0 || depth < k || |got| < count * k || |truth| < count * depth {
      return count * k, count * k;
    }
    missed, wrong := 0, 0;
    for q := 0 to count
      invariant missed == MissedBefore(got, truth, depth, k, count, q)
      invariant wrong == WrongBefore(flat, root, queries, got, truth, depth, k, count, q)
    {
      var query := RowOf(queries, flat.dim, count, q);
      var m, w := AuditRow(flat, root, query, Leading(got, k, k, count, q), Leading(truth, depth, k, count, q));
      missed, wrong := missed + m, wrong + w;
    }
    MissedAreCounted(got, truth, depth, k, count);
    WrongAtMostMissed(flat, root, queries, got, truth, depth, k, count, count);
  }

  ghost predicate RowIsTop(flat: Flat, root: real -> real, queries: seq<real>, count: nat, list: seq<int>,
                           width: nat, k: nat, q: nat)
    requires flat.Built(root) && IsFlat(queries, flat.dim, count) && q < count && k <= width && count * width <= |list|
  {
    IsTop(flat.Scores(root, RowOf(queries, flat.dim, count, q)), Leading(list, width, k, count, q))
  }

  /**
   The verdict of the audit: against true answers, over lists of k different known identifiers
   each, no neighbour is wrong exactly when the scan's answer to every query is a true one.
   */
  lemma {:induction false} VerdictIsExact(flat: Flat, root: real -> real, queries: seq<real>, got: seq<int>,
                                          truth: seq<int>,
                                          depth: nat, k: nat, count: nat, n: nat)
    requires flat.Built(root) && IsFlat(queries, flat.dim, count)
    requires n <= count && k <= depth && count * k <= |got| && count * depth <= |truth|
    requires forall q :: 0 <= q < count ==> RowIsTop(flat, root, queries, count, truth, depth, k, q)
    requires forall q :: 0 <= q < count ==>
               AreKnown(flat.Scores(root, RowOf(queries, flat.dim, count, q)), Leading(got, k, k, count, q))
    ensures WrongBefore(flat, root, queries, got, truth, depth, k, count, n) == 0 <==>
            forall q :: 0 <= q < n ==> RowIsTop(flat, root, queries, count, got, k, k, q)
  {
    hide IsTop, WrongIn, Leading, RowOf, AreKnown;
    if n > 0 {
      VerdictIsExact(flat, root, queries, got, truth, depth, k, count, n - 1);
      var q := n - 1;
      assert RowIsTop(flat, root, queries, count, truth, depth, k, q);
      AuditIsExact(flat.Scores(root, RowOf(queries, flat.dim, count, q)), Leading(got, k, k, count, q),
                   Leading(truth, depth, k, count, q));
      assert RowIsTop(flat, root, queries, count, got, k, k, q)
        <==> IsTop(flat.Scores(root, RowOf(queries, flat.dim, count, q)), Leading(got, k, k, count, q));
    }
  }

  lemma {:induction false} NothingWrongAnywhere(flat: Flat, root: real -> real, queries: seq<real>, got: seq<int>,
                                                truth: seq<int>, depth: nat, k: nat, count: nat, n: nat, q: nat)
    requires flat.Built(root) && IsFlat(queries, flat.dim, count)
    requires q < n <= count && k <= depth && count * k <= |got| && count * depth <= |truth|
    requires WrongBefore(flat, root, queries, got, truth, depth, k, count, n) == 0
    ensures WrongIn(flat.Scores(root, RowOf(queries, flat.dim, count, q)),
                    Leading(got, k, k, count, q), Leading(truth, depth, k, count, q)) == 0
  {
    if q < n - 1 {
      NothingWrongAnywhere(flat, root, queries, got, truth, depth, k, count, n - 1, q);
    }
  }

  /** Of one query: every true neighbour that was not returned scores exactly what the worst returned one does. */
  ghost predicate MissesTie(flat: Flat, root: real -> real, queries: seq<real>, got: seq<int>, truth: seq<int>,
                            depth: nat, k: nat, count: nat, q: nat)
    requires flat.Built(root) && IsFlat(queries, flat.dim, count)
    requires q < count && k <= depth && count * k <= |got| && count * depth <= |truth|
  {
    var f := flat.Scores(root, RowOf(queries, flat.dim, count, q));
    var mine, want := Leading(got, k, k, count, q), Leading(truth, depth, k, count, q);
    forall id :: id in want && id !in mine ==> 0 <= id < |f| && WorstOf(f, mine) == Some(f[id])
  }

  /** The published note, over the whole query set: when nothing is wrong, every miss is a tie. */
  lemma EveryMissTies(flat: Flat, root: real -> real, queries: seq<real>, got: seq<int>, truth: seq<int>,
                      depth: nat, k: nat, count: nat)
    requires flat.Built(root) && IsFlat(queries, flat.dim, count)
    requires k <= depth && count * k <= |got| && count * depth <= |truth|
    requires forall q :: 0 <= q < count ==> RowIsTop(flat, root, queries, count, truth, depth, k, q)
    requires forall q :: 0 <= q < count ==>
               AreKnown(flat.Scores(root, RowOf(queries, flat.dim, count, q)), Leading(got, k, k, count, q))
    requires WrongBefore(flat, root, queries, got, truth, depth, k, count, count) == 0
    ensures forall q :: 0 <= q < count ==> MissesTie(flat, root, queries, got, truth, depth, k, count, q)
  {
    hide IsTop, WrongIn, Leading, RowOf, AreKnown, WrongBefore;
    forall q | 0 <= q < count
      ensures MissesTie(flat, root, queries, got, truth, depth, k, count, q)
    {
      var f := flat.Scores(root, RowOf(queries, flat.dim, count, q));
      var mine, want := Leading(got, k, k, count, q), Leading(truth, depth, k, count, q);
      NothingWrongAnywhere(flat, root, queries, got, truth, depth, k, count, count, q);
      assert RowIsTop(flat, root, queries, count, truth, depth, k, q);
      forall id | id in want && id !in mine
        ensures 0 <= id < |f| && WorstOf(f, mine) == Some(f[id])
      {
        MissedNeighboursTie(f, mine, want, id);
      }
    }
  }

  /** The scan's own answers pass: its first k are a true answer. */
  lemma FirstIsTop(f: seq<real>, ids: seq<int>, k: nat)
    requires IsFirst(UpTo(f, |f|), ids, k)
    ensures IsTop(f, ids)
  {
    var score := UpTo(f, |f|);
    forall i, j | 0 <= i < j < |ids|
      ensures ids[i] != ids[j]
    {
      assert Before(score, ids[i], ids[j]);
    }
    forall x, j | 0 <= x < |f| && x !in ids && 0 <= j < |ids|
      ensures f[ids[j]] <= f[x]
    {
      assert Before(score, ids[j], x);
    }
  }

  /** What the scan's answer says of the vectors themselves: k of them, nearest first, ties to the lower position. */
  lemma NearestMeans(flat: Flat, root: real -> real, query: seq<real>, ids: seq<int>, k: nat)
    requires flat.Built(root) && |query| == flat.dim
    ensures var f := flat.Scores(root, query);
            && (forall i :: 0 <= i < flat.count ==>
                  f[i] == ScanScore(flat.metric, root, query, RowOf(flat.data, flat.dim, flat.count, i)))
            && (IsFirst(UpTo(f, flat.count), ids, k) <==>
                  && |ids| == (if k <= flat.count then k else flat.count)
                  && (forall i :: 0 <= i < |ids| ==> 0 <= ids[i] < flat.count)
                  && (forall i, j :: 0 <= i < j < |ids| ==>
                        f[ids[i]] < f[ids[j]] || (f[ids[i]] == f[ids[j]] && ids[i] < ids[j]))
                  && (forall x, i :: 0 <= x < flat.count && x !in ids && 0 <= i < |ids| ==>
                        f[ids[i]] < f[x] || (f[ids[i]] == f[x] && ids[i] < x)))
  {
    hide IsFirst;
    FirstMeans(flat.Scores(root, query), ids, k);
  }
}
