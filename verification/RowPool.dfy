/**
 Workers that take queries from a channel filled and closed before they start, write rows of
 one shared flat slice cell by cell, and report progress under a lock. The steps of different
 workers interleave in any order.
 */
module RowPool {
  import opened Options
  import opened Products
  import opened Totals

  datatype Worker = Idle | Writing(query: nat, at: nat) | Reporting(query: nat) | Exited

  /**
   `takenBy` remembers which worker received a query and `writers` which workers wrote a cell; the
   program keeps neither. `progress` lists the values the progress callback was given.
   */
  datatype State = State(chan: seq<nat>, workers: seq<Worker>, out: seq<int>, done: nat, progress: seq<nat>,
                         takenBy: seq<Option<nat>>, writers: seq<seq<nat>>)

  /**
   What the scan returns for each query, `depth` identifiers, whichever worker runs it; and whether there is
   a progress callback. Without one nothing is counted.
   */
  datatype Job = Job(rows: seq<seq<int>>, depth: nat, workers: nat, watched: bool) {
    ghost predicate Valid() {
      depth > 0 && workers > 0 && forall q :: 0 <= q < |rows| ==> |rows[q]| == depth
    }

    function Cell(q: nat, i: nat): nat {
      q * depth + i
    }

    /** Receiving a query, writing its row and, with a callback, reporting it. */
    function StepsPerQuery(): nat {
      depth + if watched then 2 else 1
    }
  }

  function Start(j: Job): State {
    State(seq(|j.rows|, q => q), seq(j.workers, _ => Idle), seq(|j.rows| * j.depth, _ => 0), 0, [],
          seq(|j.rows|, _ => None), seq(|j.rows| * j.depth, _ => []))
  }

  /** A worker leaves only when the closed channel is empty. */
  function Receive(s: State, w: nat): State
    requires w < |s.workers|
  {
    if s.chan == [] then s.(workers := s.workers[w := Exited]) else
      var q := s.chan[0];
      State(s.chan[1..], s.workers[w := Writing(q, 0)], s.out, s.done, s.progress,
            if q < |s.takenBy| then s.takenBy[q := Some(w)] else s.takenBy, s.writers)
  }

  function WriteCell(s: State, j: Job, w: nat): State
    requires w < |s.workers| && s.workers[w].Writing?
    requires var x := s.workers[w];
             x.query < |j.rows| && x.at < |j.rows[x.query]| && j.Cell(x.query, x.at) < |s.out| == |s.writers|
  {
    var Writing(q, at) := s.workers[w];
    var c := j.Cell(q, at);
    s.(out := s.out[c := j.rows[q][at]], writers := s.writers[c := s.writers[c] + [w]],
       workers := s.workers[w := if at + 1 < |j.rows[q]| then Writing(q, at + 1) else Written(q, j)])
  }

  function Written(q: nat, j: Job): Worker {
    if j.watched then Reporting(q) else Idle
  }

  function Report(s: State, w: nat): State
    requires w < |s.workers|
  {
    s.(done := s.done + 1, progress := s.progress + [s.done + 1], workers := s.workers[w := Idle])
  }

  ghost predicate StepOf(s: State, t: State, j: Job, w: nat) {
    w < |s.workers| &&
    match s.workers[w]
    case Idle => t == Receive(s, w)
    case Writing(q, at) =>
      q < |j.rows| && at < |j.rows[q]| && j.Cell(q, at) < |s.out| == |s.writers| && t == WriteCell(s, j, w)
    case Reporting(_) => t == Report(s, w)
    case Exited => false
  }

  ghost predicate Step(s: State, t: State, j: Job) {
    exists w: nat :: StepOf(s, t, j, w)
  }

  ghost predicate Run(run: seq<State>, j: Job) {
    && run != [] && run[0] == Start(j)
    && forall i :: 0 < i < |run| ==> Step(run[i - 1], run[i], j)
  }

  ghost predicate Finished(s: State) {
    forall w :: 0 <= w < |s.workers| ==> s.workers[w].Exited?
  }

  // ----- The invariant

  function Received(s: State, j: Job): int {
    |j.rows| - |s.chan|
  }

  function Busy(): Worker -> int {
    (x: Worker) => if x.Writing? || x.Reporting? then 1 else 0
  }

  ghost predicate Sizes(s: State, j: Job) {
    && |s.workers| == j.workers && |s.out| == |s.writers| == |j.rows| * j.depth && |s.takenBy| == |j.rows|
    && |s.chan| <= |j.rows| && forall i :: 0 <= i < |s.chan| ==> s.chan[i] == Received(s, j) + i
  }

  /** What a worker holds was received by that worker and by nobody else. */
  ghost predicate WorkerOk(s: State, j: Job, w: nat) {
    w < |s.workers| ==>
      match s.workers[w]
      case Idle => true
      case Writing(q, at) => q < |s.takenBy| && s.takenBy[q] == Some(w) && at < j.depth
      case Reporting(q) => j.watched && q < |s.takenBy| && s.takenBy[q] == Some(w)
      case Exited => s.chan == []
  }

  ghost predicate OwnerOk(s: State, j: Job, q: nat) {
    q < |s.takenBy| ==>
      && (s.takenBy[q].Some? <==> q < Received(s, j))
      && (s.takenBy[q].Some? ==> s.takenBy[q].value < |s.workers|)
  }

  /** How far row `q` is written: not at all, up to its worker's position, or in full. */
  ghost function Level(s: State, j: Job, q: nat): nat {
    if q >= |s.takenBy| || s.takenBy[q].None? then 0 else
      var w := s.takenBy[q].value;
      if w < |s.workers| && s.workers[w].Writing? && s.workers[w].query == q then s.workers[w].at else j.depth
  }

  /** A cell below the level holds its value and was written once, by the worker with the query. */
  ghost predicate CellOk(s: State, j: Job, q: nat, i: nat) {
    q < |j.rows| == |s.takenBy| && i < j.depth == |j.rows[q]| && j.Cell(q, i) < |s.out| == |s.writers| ==>
      if i < Level(s, j, q) then
        s.takenBy[q].Some? && s.out[j.Cell(q, i)] == j.rows[q][i] && s.writers[j.Cell(q, i)] == [s.takenBy[q].value]
      else s.writers[j.Cell(q, i)] == []
  }

  ghost predicate Counted(s: State, j: Job) {
    && (if j.watched then s.done + Total(s.workers, Busy()) == Received(s, j) else s.done == 0)
    && |s.progress| == s.done && forall i :: 0 <= i < s.done ==> s.progress[i] == i + 1
  }

  ghost predicate Inv(s: State, j: Job) {
    && Sizes(s, j) && Counted(s, j)
    && (forall w: nat :: WorkerOk(s, j, w))
    && (forall q: nat :: OwnerOk(s, j, q))
    && (forall q: nat, i: nat :: CellOk(s, j, q, i))
  }

  // ----- Cells

  lemma CellInside(j: Job, q: nat, i: nat)
    requires q < |j.rows| && i < j.depth
    ensures j.Cell(q, i) < |j.rows| * j.depth
  {
    RowsApart(j.depth, q, |j.rows|);
  }

  /** Two rows never share a cell. */
  lemma CellsApart(j: Job, q: nat, i: nat, p: nat, k: nat)
    requires i < j.depth && k < j.depth && (q, i) != (p, k)
    ensures j.Cell(q, i) != j.Cell(p, k)
  {
    if q < p {
      RowsApart(j.depth, q, p);
    } else if p < q {
      RowsApart(j.depth, p, q);
    }
  }

  lemma RowsApart(depth: nat, q: nat, p: nat)
    requires q < p
    ensures q * depth + depth <= p * depth
  {
    TimesMonotone(depth, q + 1, p);
    assert (q + 1) * depth == q * depth + depth;
  }

  // ----- Each step keeps the invariant

  lemma StartInv(j: Job)
    requires j.Valid()
    ensures Inv(Start(j), j)
  {
    TotalOfSame(Start(j).workers, Busy(), 0);
  }

  lemma ExitKeeps(s: State, j: Job, w: nat)
    requires j.Valid() && Inv(s, j) && w < |s.workers| && s.workers[w].Idle? && s.chan == []
    ensures Inv(Receive(s, w), j)
  {
    var t := Receive(s, w);
    TotalAfterStep(s.workers, Busy(), w, Exited);
    forall v: nat
      ensures WorkerOk(t, j, v)
    {
      assert WorkerOk(s, j, v);
    }
    forall q: nat
      ensures OwnerOk(t, j, q)
    {
      assert OwnerOk(s, j, q);
    }
    forall q: nat, i: nat
      ensures CellOk(t, j, q, i)
    {
      assert CellOk(s, j, q, i);
    }
  }

  lemma ReceiveKeeps(s: State, j: Job, w: nat)
    requires j.Valid() && Inv(s, j) && w < |s.workers| && s.workers[w].Idle? && s.chan != []
    ensures Inv(Receive(s, w), j)
  {
    var t := Receive(s, w);
    var q0 := s.chan[0];
    TotalAfterStep(s.workers, Busy(), w, Writing(q0, 0));
    assert OwnerOk(s, j, q0);
    forall v: nat
      ensures WorkerOk(t, j, v)
    {
      assert WorkerOk(s, j, v);
    }
    forall q: nat
      ensures OwnerOk(t, j, q)
    {
      assert OwnerOk(s, j, q);
    }
    forall q: nat, i: nat
      ensures CellOk(t, j, q, i)
    {
      assert CellOk(s, j, q, i);
    }
  }

  lemma WriteInside(s: State, j: Job, w: nat)
    requires j.Valid() && Inv(s, j) && w < |s.workers| && s.workers[w].Writing?
    ensures var x := s.workers[w];
            x.query < |j.rows| && x.at < |j.rows[x.query]| && j.Cell(x.query, x.at) < |s.out| == |s.writers|
  {
    assert WorkerOk(s, j, w);
    CellInside(j, s.workers[w].query, s.workers[w].at);
  }

  lemma WriteKeepsCell(s: State, j: Job, w: nat, q: nat, i: nat)
    requires j.Valid() && Inv(s, j) && w < |s.workers| && s.workers[w].Writing?
    requires var x := s.workers[w];
             x.query < |j.rows| && x.at < |j.rows[x.query]| && j.Cell(x.query, x.at) < |s.out| == |s.writers|
    ensures CellOk(WriteCell(s, j, w), j, q, i)
  {
    assert WorkerOk(s, j, w) && CellOk(s, j, q, i) && OwnerOk(s, j, q);
    var Writing(p, at) := s.workers[w];
    if i < j.depth && (q, i) != (p, at) {
      CellsApart(j, q, i, p, at);
    }
  }

  lemma WriteKeeps(s: State, j: Job, w: nat)
    requires j.Valid() && Inv(s, j) && w < |s.workers| && s.workers[w].Writing?
    requires var x := s.workers[w];
             x.query < |j.rows| && x.at < |j.rows[x.query]| && j.Cell(x.query, x.at) < |s.out| == |s.writers|
    ensures Inv(WriteCell(s, j, w), j)
  {
    var t := WriteCell(s, j, w);
    TotalAfterStep(s.workers, Busy(), w, t.workers[w]);
    assert WorkerOk(s, j, w);
    forall v: nat
      ensures WorkerOk(t, j, v)
    {
      assert WorkerOk(s, j, v);
    }
    forall q: nat
      ensures OwnerOk(t, j, q)
    {
      assert OwnerOk(s, j, q);
    }
    forall q: nat, i: nat
      ensures CellOk(t, j, q, i)
    {
      WriteKeepsCell(s, j, w, q, i);
    }
  }

  lemma ReportKeeps(s: State, j: Job, w: nat)
    requires j.Valid() && Inv(s, j) && w < |s.workers| && s.workers[w].Reporting?
    ensures Inv(Report(s, w), j)
  {
    var t := Report(s, w);
    assert WorkerOk(s, j, w);
    TotalAfterStep(s.workers, Busy(), w, Idle);
    forall v: nat
      ensures WorkerOk(t, j, v)
    {
      assert WorkerOk(s, j, v);
    }
    forall q: nat
      ensures OwnerOk(t, j, q)
    {
      assert OwnerOk(s, j, q);
    }
    forall q: nat, i: nat
      ensures CellOk(t, j, q, i)
    {
      assert CellOk(s, j, q, i);
    }
  }

  lemma StepKeeps(s: State, t: State, j: Job)
    requires j.Valid() && Inv(s, j) && Step(s, t, j)
    ensures Inv(t, j)
  {
    hide Inv;
    var w: nat :| StepOf(s, t, j, w);
    match s.workers[w]
    case Idle =>
      if s.chan == [] {
        ExitKeeps(s, j, w);
      } else {
        ReceiveKeeps(s, j, w);
      }
    case Writing(_, _) => WriteKeeps(s, j, w);
    case Reporting(_) => ReportKeeps(s, j, w);
  }

  lemma {:induction false} RunKeeps(run: seq<State>, j: Job, i: nat)
    requires j.Valid() && Run(run, j) && i < |run|
    ensures Inv(run[i], j)
  {
    if i == 0 {
      StartInv(j);
    } else {
      RunKeeps(run, j, i - 1);
      StepKeeps(run[i - 1], run[i], j);
    }
  }

  // ----- What a finished run has done

  /** The rows one after another, as the sequential program would lay them out. */
  ghost predicate Sequential(out: seq<int>, j: Job) {
    |out| == |j.rows| * j.depth && forall q: nat, i: nat :: SameCell(out, j, q, i)
  }

  ghost predicate SameCell(out: seq<int>, j: Job, q: nat, i: nat) {
    q < |j.rows| && i < |j.rows[q]| ==> j.Cell(q, i) < |out| && out[j.Cell(q, i)] == j.rows[q][i]
  }

  /** Each row was written once, in full, by the one worker that received its query. */
  ghost predicate WrittenByOwner(s: State, j: Job, q: nat, i: nat) {
    q < |j.rows| && i < j.depth ==>
      && q < |s.takenBy| && s.takenBy[q].Some?
      && j.Cell(q, i) < |s.writers| && s.writers[j.Cell(q, i)] == [s.takenBy[q].value]
  }

  lemma FinishedCell(s: State, j: Job, q: nat, i: nat)
    requires j.Valid() && Inv(s, j) && Finished(s) && q < |j.rows| && i < j.depth
    ensures SameCell(s.out, j, q, i) && WrittenByOwner(s, j, q, i)
  {
    assert WorkerOk(s, j, 0) && OwnerOk(s, j, q) && CellOk(s, j, q, i);
    CellInside(j, q, i);
  }

  /** Under every schedule the output is the sequential one and progress, if watched, counts 1 to the last query. */
  lemma EveryScheduleIsSequential(run: seq<State>, j: Job)
    requires j.Valid() && Run(run, j) && Finished(run[|run| - 1])
    ensures var s := run[|run| - 1];
            && Sequential(s.out, j)
            && (forall q: nat, i: nat :: WrittenByOwner(s, j, q, i))
            && s.done == (if j.watched then |j.rows| else 0) && s.progress == seq(s.done, i => i + 1)
  {
    var s := run[|run| - 1];
    RunKeeps(run, j, |run| - 1);
    forall q: nat, i: nat
      ensures SameCell(s.out, j, q, i) && WrittenByOwner(s, j, q, i)
    {
      if q < |j.rows| && i < j.depth {
        FinishedCell(s, j, q, i);
      }
    }
    assert WorkerOk(s, j, 0);
    TotalOfSame(s.workers, Busy(), 0);
  }

  // ----- Every run ends

  function Weight(j: Job): Worker -> int {
    (x: Worker) =>
      match x
      case Idle => 1
      case Writing(_, at) => j.StepsPerQuery() - at
      case Reporting(_) => 2
      case Exited => 0
  }

  function Work(s: State, j: Job): int {
    |s.chan| * j.StepsPerQuery() + Total(s.workers, Weight(j))
  }

  lemma OneFewer(n: nat, d: nat)
    requires n > 0
    ensures n * d == (n - 1) * d + d
  {
  }

  lemma StepUsesWork(s: State, t: State, j: Job)
    requires j.Valid() && Inv(s, j) && Step(s, t, j)
    ensures Work(t, j) == Work(s, j) - 1
  {
    var w: nat :| StepOf(s, t, j, w);
    assert WorkerOk(s, j, w);
    TotalAfterStep(s.workers, Weight(j), w, t.workers[w]);
    if s.workers[w].Idle? && s.chan != [] {
      OneFewer(|s.chan|, j.StepsPerQuery());
    }
  }

  lemma {:induction false} WorkAfter(run: seq<State>, j: Job, i: nat)
    requires j.Valid() && Run(run, j) && i < |run|
    ensures Work(run[i], j) == |j.rows| * j.StepsPerQuery() + j.workers - i
  {
    if i == 0 {
      TotalOfSame(Start(j).workers, Weight(j), 1);
    } else {
      WorkAfter(run, j, i - 1);
      RunKeeps(run, j, i - 1);
      StepUsesWork(run[i - 1], run[i], j);
    }
  }

  /** No schedule stalls: in every reachable state a worker that has not exited can move. */
  lemma AlwaysAbleToMove(s: State, j: Job)
    requires j.Valid() && Inv(s, j) && !Finished(s)
    ensures exists t :: Step(s, t, j)
  {
    var w: nat :| w < |s.workers| && !s.workers[w].Exited?;
    if s.workers[w].Writing? {
      WriteInside(s, j, w);
    }
    var t :=
      if s.workers[w].Idle? then Receive(s, w)
      else if s.workers[w].Writing? then WriteCell(s, j, w)
      else Report(s, w);
    assert StepOf(s, t, j, w);
    assert Step(s, t, j);
  }

  lemma {:induction false} WeightNotNegative(ws: seq<Worker>, j: Job)
    requires forall w :: 0 <= w < |ws| && ws[w].Writing? ==> ws[w].at < j.depth
    ensures Total(ws, Weight(j)) >= 0
    ensures Total(ws, Weight(j)) == 0 <==> forall w :: 0 <= w < |ws| ==> ws[w].Exited?
    decreases |ws|
  {
    if ws != [] {
      WeightNotNegative(ws[..|ws| - 1], j);
    }
  }

  /** Every run ends, after the same number of steps: so many per query, and one per worker to leave. */
  lemma RunsEndOnTime(run: seq<State>, j: Job)
    requires j.Valid() && Run(run, j)
    ensures |run| - 1 <= |j.rows| * j.StepsPerQuery() + j.workers
    ensures Finished(run[|run| - 1]) <==> |run| - 1 == |j.rows| * j.StepsPerQuery() + j.workers
  {
    var s := run[|run| - 1];
    WorkAfter(run, j, |run| - 1);
    RunKeeps(run, j, |run| - 1);
    assert WorkerOk(s, j, 0);
    forall w: nat | w < |s.workers| && s.workers[w].Writing?
      ensures s.workers[w].at < j.depth
    {
      assert WorkerOk(s, j, w);
    }
    WeightNotNegative(s.workers, j);
    assert |s.chan| * j.StepsPerQuery() >= 0;
  }

  /** How the workers' steps interleaved, from the first to the last. */
  ghost predicate IsSchedule(run: seq<State>, j: Job) {
    Run(run, j) && Finished(run[|run| - 1])
  }

  lemma {:induction false} CanBeFinished(run: seq<State>, j: Job) returns (full: seq<State>)
    requires j.Valid() && Run(run, j)
    ensures IsSchedule(full, j)
    decreases |j.rows| * j.StepsPerQuery() + j.workers - |run|
  {
    var s := run[|run| - 1];
    full := run;
    if !Finished(s) {
      RunKeeps(run, j, |run| - 1);
      AlwaysAbleToMove(s, j);
      var t :| Step(s, t, j);
      var more := run + [t];
      forall i | 0 < i < |more|
        ensures Step(more[i - 1], more[i], j)
      {
        assert i < |run| ==> Step(run[i - 1], run[i], j);
      }
      RunsEndOnTime(run, j);
      RunsEndOnTime(more, j);
      full := CanBeFinished(more, j);
    }
  }

  /** There always is a schedule, so what is said of every schedule is said of something. */
  lemma ScheduleExists(j: Job)
    requires j.Valid()
    ensures exists run :: IsSchedule(run, j)
  {
    var run := CanBeFinished([Start(j)], j);
  }
}
