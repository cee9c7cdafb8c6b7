/**
 Workers that take indexes off a shared atomic cursor, as the concurrent passes of both
 harnesses do. A state changes by one worker taking one step, in any order; what is proved
 holds in every state of every run.
 */
module CursorPool {
  import opened Totals

  /** A timing is represented by the index whose call it times. */
  datatype Worker =
    | Looping(mine: seq<nat>)
    | Calling(index: nat, mine: seq<nat>)
    | Leaving(mine: seq<nat>)
    | Gone

  /** `calls` lists the indexes called so far and `times` the timings handed in. */
  datatype State = State(cursor: nat, workers: seq<Worker>, calls: seq<nat>, times: seq<nat>)

  function Start(workers: nat): State {
    State(0, seq(workers, _ => Looping([])), [], [])
  }

  /** Takes the cursor's value and bumps it in one step; past the end the worker is done. */
  function Take(s: State, w: nat, count: nat): State
    requires w < |s.workers| && s.workers[w].Looping?
  {
    var mine := s.workers[w].mine;
    s.(cursor := s.cursor + 1,
       workers := s.workers[w := if s.cursor >= count then Leaving(mine) else Calling(s.cursor, mine)])
  }

  function Call(s: State, w: nat): State
    requires w < |s.workers| && s.workers[w].Calling?
  {
    var Calling(i, mine) := s.workers[w];
    s.(calls := s.calls + [i], workers := s.workers[w := Looping(mine + [i])])
  }

  function HandIn(s: State, w: nat): State
    requires w < |s.workers| && s.workers[w].Leaving?
  {
    s.(times := s.times + s.workers[w].mine, workers := s.workers[w := Gone])
  }

  ghost predicate Step(s: State, t: State, count: nat) {
    exists w: nat :: StepOf(s, t, w, count)
  }

  ghost predicate StepOf(s: State, t: State, w: nat, count: nat) {
    w < |s.workers| &&
    match s.workers[w]
    case Looping(_) => t == Take(s, w, count)
    case Calling(_, _) => t == Call(s, w)
    case Leaving(_) => t == HandIn(s, w)
    case Gone => false
  }

  ghost predicate Run(run: seq<State>, workers: nat, count: nat) {
    && run != [] && run[0] == Start(workers)
    && forall i :: 0 < i < |run| ==> Step(run[i - 1], run[i], count)
  }

  ghost predicate Finished(s: State) {
    forall w :: 0 <= w < |s.workers| ==> s.workers[w].Gone?
  }

  // ----- The invariant

  function InHand(): Worker -> multiset<nat> {
    (x: Worker) => if x.Calling? then multiset{x.index} else multiset{}
  }

  function Unreported(): Worker -> multiset<nat> {
    (x: Worker) => if x.Gone? then multiset{} else multiset(x.mine)
  }

  function HasLeft(): Worker -> int {
    (x: Worker) => if x.Leaving? || x.Gone? then 1 else 0
  }

  /** The indexes below `n`, once each. */
  function Below(n: nat): multiset<nat> {
    if n == 0 then multiset{} else Below(n - 1) + multiset{n - 1}
  }

  function Taken(s: State, count: nat): nat {
    if s.cursor < count then s.cursor else count
  }

  /**
   Every index taken is in one worker's hands or called, never both and never twice; every
   call's timing is with its worker or handed in; the cursor overshoots once per worker.
   */
  ghost predicate Inv(s: State, workers: nat, count: nat) {
    && |s.workers| == workers
    && multiset(s.calls) + Gathered(s.workers, InHand()) == Below(Taken(s, count))
    && multiset(s.times) + Gathered(s.workers, Unreported()) == multiset(s.calls)
    && Total(s.workers, HasLeft()) == s.cursor - Taken(s, count)
  }

  lemma StartInv(workers: nat, count: nat)
    ensures Inv(Start(workers), workers, count)
  {
    var ws := Start(workers).workers;
    NothingGathered(ws, InHand());
    NothingGathered(ws, Unreported());
    TotalOfSame(ws, HasLeft(), 0);
  }

  lemma TakeKeeps(s: State, w: nat, workers: nat, count: nat)
    requires Inv(s, workers, count) && w < |s.workers| && s.workers[w].Looping?
    ensures Inv(Take(s, w, count), workers, count)
  {
    hide Gathered, Total, Below;
    var t := Take(s, w, count);
    var x := t.workers[w];
    GatheredAfterStep(s.workers, InHand(), w, x);
    GatheredAfterStep(s.workers, Unreported(), w, x);
    TotalAfterStep(s.workers, HasLeft(), w, x);
    CancelSame(Gathered(t.workers, Unreported()), Gathered(s.workers, Unreported()), multiset(x.mine));
    if s.cursor < count {
      CancelSame(Gathered(t.workers, InHand()), Gathered(s.workers, InHand()) + multiset{s.cursor}, multiset{});
      OneMoreBelow(s.cursor);
    } else {
      CancelSame(Gathered(t.workers, InHand()), Gathered(s.workers, InHand()), multiset{});
    }
  }

  lemma OneMoreBelow(n: nat)
    ensures Below(n + 1) == Below(n) + multiset{n}
  {
  }

  lemma CallKeeps(s: State, w: nat, workers: nat, count: nat)
    requires Inv(s, workers, count) && w < |s.workers| && s.workers[w].Calling?
    ensures Inv(Call(s, w), workers, count)
  {
    hide Gathered, Total, Below;
    var t := Call(s, w);
    var Calling(i, mine) := s.workers[w];
    GatheredAfterStep(s.workers, InHand(), w, t.workers[w]);
    GatheredAfterStep(s.workers, Unreported(), w, t.workers[w]);
    TotalAfterStep(s.workers, HasLeft(), w, t.workers[w]);
    assert Gathered(t.workers, InHand()) + multiset{i} == Gathered(s.workers, InHand());
    assert multiset(t.calls) == multiset(s.calls) + multiset{i};
    assert multiset(mine + [i]) == multiset(mine) + multiset{i};
    CancelSame(Gathered(t.workers, Unreported()), Gathered(s.workers, Unreported()) + multiset{i}, multiset(mine));
  }

  lemma HandInKeeps(s: State, w: nat, workers: nat, count: nat)
    requires Inv(s, workers, count) && w < |s.workers| && s.workers[w].Leaving?
    ensures Inv(HandIn(s, w), workers, count)
  {
    hide Gathered, Total, Below;
    var t := HandIn(s, w);
    GatheredAfterStep(s.workers, InHand(), w, Gone);
    GatheredAfterStep(s.workers, Unreported(), w, Gone);
    TotalAfterStep(s.workers, HasLeft(), w, Gone);
    CancelSame(Gathered(t.workers, InHand()), Gathered(s.workers, InHand()), multiset{});
    assert Gathered(t.workers, Unreported()) + multiset(s.workers[w].mine) == Gathered(s.workers, Unreported());
  }

  lemma StepKeeps(s: State, t: State, workers: nat, count: nat)
    requires Inv(s, workers, count) && Step(s, t, count)
    ensures Inv(t, workers, count)
  {
    hide Inv;
    var w: nat :| StepOf(s, t, w, count);
    match s.workers[w]
    case Looping(_) => TakeKeeps(s, w, workers, count);
    case Calling(_, _) => CallKeeps(s, w, workers, count);
    case Leaving(_) => HandInKeeps(s, w, workers, count);
  }

  lemma {:induction false} RunKeeps(run: seq<State>, workers: nat, count: nat, i: nat)
    requires Run(run, workers, count) && i < |run|
    ensures Inv(run[i], workers, count)
  {
    if i == 0 {
      StartInv(workers, count);
    } else {
      RunKeeps(run, workers, count, i - 1);
      StepKeeps(run[i - 1], run[i], workers, count);
    }
  }

  // ----- What a finished run has done

  lemma {:induction false} BelowOnce(n: nat, i: nat)
    ensures Below(n)[i] == if i < n then 1 else 0
    ensures |Below(n)| == n
  {
    if n > 0 {
      BelowOnce(n - 1, i);
    }
  }

  /** However the workers interleave, each index is called once and each call is timed once. */
  lemma EveryIndexExactlyOnce(run: seq<State>, workers: nat, count: nat)
    requires Run(run, workers, count) && workers > 0 && Finished(run[|run| - 1])
    ensures var s := run[|run| - 1];
            && s.cursor == count + workers
            && (forall i: nat :: multiset(s.calls)[i] == if i < count then 1 else 0)
            && multiset(s.times) == multiset(s.calls) && |s.times| == count
  {
    var s := run[|run| - 1];
    RunKeeps(run, workers, count, |run| - 1);
    NothingGathered(s.workers, InHand());
    NothingGathered(s.workers, Unreported());
    TotalOfSame(s.workers, HasLeft(), 1);
    assert Taken(s, count) == count;
    forall i: nat
      ensures multiset(s.calls)[i] == if i < count then 1 else 0
    {
      BelowOnce(count, i);
    }
    BelowOnce(count, 0);
    assert |s.times| == |multiset(s.times)|;
  }

  /** Nothing outside the range is ever called and nothing is ever called twice, finished or not. */
  lemma NeverTwice(run: seq<State>, workers: nat, count: nat, k: nat, i: nat)
    requires Run(run, workers, count) && k < |run|
    ensures multiset(run[k].calls)[i] <= if i < count then 1 else 0
  {
    RunKeeps(run, workers, count, k);
    BelowOnce(Taken(run[k], count), i);
  }

  // ----- Every run ends

  function Weight(): Worker -> int {
    (x: Worker) => match x case Looping(_) => 2 case Calling(_, _) => 3 case Leaving(_) => 1 case Gone => 0
  }

  function Work(s: State, count: nat): int {
    2 * (count - Taken(s, count)) + Total(s.workers, Weight())
  }

  lemma StepUsesWork(s: State, t: State, count: nat)
    requires Step(s, t, count)
    ensures Work(t, count) == Work(s, count) - 1
  {
    var w: nat :| StepOf(s, t, w, count);
    TotalAfterStep(s.workers, Weight(), w, t.workers[w]);
  }

  lemma {:induction false} WorkAfter(run: seq<State>, workers: nat, count: nat, i: nat)
    requires Run(run, workers, count) && i < |run|
    ensures Work(run[i], count) == 2 * count + 2 * workers - i
  {
    if i == 0 {
      TotalOfSame(Start(workers).workers, Weight(), 2);
    } else {
      WorkAfter(run, workers, count, i - 1);
      StepUsesWork(run[i - 1], run[i], count);
    }
  }

  lemma {:induction false} WeightNotNegative(ws: seq<Worker>)
    ensures Total(ws, Weight()) >= 0
    ensures Total(ws, Weight()) == 0 <==> forall w :: 0 <= w < |ws| ==> ws[w].Gone?
    decreases |ws|
  {
    if ws != [] {
      WeightNotNegative(ws[..|ws| - 1]);
    }
  }

  /** No schedule stalls before the end: a worker that is not gone can always move. */
  lemma AlwaysAbleToMove(s: State, count: nat)
    requires !Finished(s)
    ensures exists t :: Step(s, t, count)
  {
    var w :| 0 <= w < |s.workers| && !s.workers[w].Gone?;
    var t :=
      if s.workers[w].Looping? then Take(s, w, count)
      else if s.workers[w].Calling? then Call(s, w)
      else HandIn(s, w);
    assert StepOf(s, t, w, count);
    assert Step(s, t, count);
  }

  /** And every schedule is finished after the same number of steps. */
  lemma RunsEndOnTime(run: seq<State>, workers: nat, count: nat)
    requires Run(run, workers, count) && workers > 0
    ensures |run| - 1 <= 2 * count + 2 * workers
    ensures Finished(run[|run| - 1]) <==> |run| - 1 == 2 * count + 2 * workers
  {
    var last := |run| - 1;
    var s := run[last];
    WorkAfter(run, workers, count, last);
    WeightNotNegative(s.workers);
    RunKeeps(run, workers, count, last);
    if Finished(s) {
      TotalOfSame(s.workers, HasLeft(), 1);
    }
  }

  /** How the workers' steps interleaved, from the first to the last. */
  ghost predicate IsSchedule(run: seq<State>, workers: nat, count: nat) {
    Run(run, workers, count) && Finished(run[|run| - 1])
  }

  lemma {:induction false} CanBeFinished(run: seq<State>, workers: nat, count: nat) returns (full: seq<State>)
    requires workers > 0 && Run(run, workers, count)
    ensures IsSchedule(full, workers, count)
    decreases 2 * count + 2 * workers - |run|
  {
    var s := run[|run| - 1];
    full := run;
    if !Finished(s) {
      AlwaysAbleToMove(s, count);
      var t :| Step(s, t, count);
      var more := run + [t];
      forall i | 0 < i < |more|
        ensures Step(more[i - 1], more[i], count)
      {
        assert i < |run| ==> Step(run[i - 1], run[i], count);
      }
      RunsEndOnTime(run, workers, count);
      RunsEndOnTime(more, workers, count);
      full := CanBeFinished(more, workers, count);
    }
  }

  /** There always is a schedule, so what is said of every schedule is said of something. */
  lemma ScheduleExists(workers: nat, count: nat)
    requires workers > 0
    ensures exists run :: IsSchedule(run, workers, count)
  {
    var run := CanBeFinished([Start(workers)], workers, count);
  }
}
