/**
 A visited set cleared by bumping a 32-bit counter instead of walking it.

 `State` is the counter and the stamps as a value, with the two operations exactly as the
 classes perform them, wrap-around included. `RunsLikeASet` is the reason traversals may
 share one: from any reachable state, any sequence of resets and marks, however long and
 however often the counter wraps, answers as a plain set would.
 */
module Stamping {
  const WRAP := 0x1_0000_0000

  datatype State = State(seen: seq<int>, now: int) {
    ghost predicate Valid() {
      0 <= now < WRAP && forall i :: 0 <= i < |seen| ==> 0 <= seen[i] <= now
    }

    /** The nodes stamped since the last reset. */
    function Marked(): set<int> {
      set i | 0 <= i < |seen| && seen[i] == now
    }

    function Reset(): State {
      var next := (now + 1) % WRAP;
      if next == 0 then State(seq(|seen|, _ => 0), 1) else State(seen, next)
    }

    function Mark(i: int): State
      requires 0 <= i < |seen|
    {
      State(seen[i := now], now)
    }

    function IsNew(i: int): bool
      requires 0 <= i < |seen|
    {
      seen[i] != now
    }
  }

  function Fresh(nodes: nat): State {
    State(seq(nodes, _ => 0), 0)
  }

  datatype Command = Clear | Visit(node: int)

  ghost predicate InRange(commands: seq<Command>, nodes: nat) {
    forall c :: c in commands ==> c.Clear? || 0 <= c.node < nodes
  }

  /** What each visit answers: was the node new? */
  function Answers(s: State, commands: seq<Command>): seq<bool>
    requires InRange(commands, |s.seen|)
    decreases |commands|
  {
    if commands == [] then [] else
      assert commands[0] in commands;
      match commands[0]
      case Clear => Answers(s.Reset(), commands[1..])
      case Visit(i) => [s.IsNew(i)] + Answers(s.Mark(i), commands[1..])
  }

  /** The same commands given to a plain set. */
  function SetAnswers(marked: set<int>, commands: seq<Command>): seq<bool>
    decreases |commands|
  {
    if commands == [] then [] else
      match commands[0]
      case Clear => SetAnswers({}, commands[1..])
      case Visit(i) => [i !in marked] + SetAnswers(marked + {i}, commands[1..])
  }

  /** No old stamp can look current after a reset, even across the wrap. */
  lemma ResetEmpties(s: State)
    requires s.Valid()
    ensures s.Reset().Valid() && s.Reset().Marked() == {} && |s.Reset().seen| == |s.seen|
  {
    if s.now + 1 < WRAP {
      assert (s.now + 1) % WRAP == s.now + 1;
    }
  }

  lemma MarkAdds(s: State, i: int)
    requires s.Valid() && 0 <= i < |s.seen|
    ensures s.Mark(i).Valid() && s.Mark(i).Marked() == s.Marked() + {i} && |s.Mark(i).seen| == |s.seen|
    ensures s.IsNew(i) <==> i !in s.Marked()
  {
  }

  lemma {:induction false} RunsLikeASet(s: State, commands: seq<Command>)
    requires s.Valid() && InRange(commands, |s.seen|)
    ensures Answers(s, commands) == SetAnswers(s.Marked(), commands)
    decreases |commands|
  {
    if commands != [] {
      assert commands[0] in commands;
      match commands[0]
      case Clear =>
        ResetEmpties(s);
        RunsLikeASet(s.Reset(), commands[1..]);
      case Visit(i) =>
        MarkAdds(s, i);
        RunsLikeASet(s.Mark(i), commands[1..]);
    }
  }

  /** What came before a reset is forgotten: two users of one stamp array never interfere. */
  lemma EarlierUseIsForgotten(s: State, t: State, commands: seq<Command>)
    requires s.Valid() && t.Valid() && |s.seen| == |t.seen| && InRange(commands, |s.seen|)
    ensures Answers(s.Reset(), commands) == Answers(t.Reset(), commands)
  {
    ResetEmpties(s);
    ResetEmpties(t);
    RunsLikeASet(s.Reset(), commands);
    RunsLikeASet(t.Reset(), commands);
  }

  /** Visited since the set was last cleared, or there at first and never cleared. */
  ghost predicate Seen(marked: set<int>, commands: seq<Command>, i: int) {
    || (i in marked && Clear !in commands)
    || exists p :: 0 <= p < |commands| && commands[p] == Visit(i) && Clear !in commands[p..]
  }

  lemma SeenLater(marked: set<int>, commands: seq<Command>, i: int)
    requires commands != []
    ensures Seen(marked, commands, i) <==>
            if commands[0].Clear? then Seen({}, commands[1..], i)
            else Seen(marked + {commands[0].node}, commands[1..], i)
  {
    var rest := commands[1..];
    assert commands == [commands[0]] + rest;
    forall p | 0 <= p < |rest|
      ensures commands[p + 1..] == rest[p..] && rest[p] == commands[p + 1]
    {
    }
    if Clear !in rest {
      assert commands[0..] == commands;
    }
    if p: nat :| p < |commands| && commands[p] == Visit(i) && Clear !in commands[p..] {
      if p == 0 {
        assert commands[0..] == commands;
      } else {
        assert rest[p - 1] == Visit(i) && rest[p - 1..] == commands[p..];
      }
    }
    if q: nat :| q < |rest| && rest[q] == Visit(i) && Clear !in rest[q..] {
      assert commands[q + 1] == Visit(i) && commands[q + 1..] == rest[q..];
    }
  }

  lemma FirstAnswer(marked: set<int>, commands: seq<Command>)
    requires commands != []
    ensures SetAnswers(marked, commands) ==
            match commands[0]
            case Clear => SetAnswers({}, commands[1..])
            case Visit(j) => [j !in marked] + SetAnswers(marked + {j}, commands[1..])
  {
  }

  lemma NoAnswers(marked: set<int>)
    ensures SetAnswers(marked, []) == []
  {
  }

  /** The set's answers: one for each visit, and it says whether the node was not seen before. */
  lemma {:induction false} SetAnswersMean(marked: set<int>, commands: seq<Command>, i: int)
    ensures SetAnswers(marked, []) == []
    ensures SetAnswers(marked, commands + [Clear]) == SetAnswers(marked, commands)
    ensures SetAnswers(marked, commands + [Visit(i)]) == SetAnswers(marked, commands) + [!Seen(marked, commands, i)]
    decreases |commands|
  {
    if commands == [] {
      assert commands + [Clear] == [Clear] && commands + [Visit(i)] == [Visit(i)];
      assert [Clear][1..] == [] && [Visit(i)][1..] == [];
    } else {
      hide Seen, SetAnswers;
      var rest := commands[1..];
      assert (commands + [Clear])[1..] == rest + [Clear] && (commands + [Visit(i)])[1..] == rest + [Visit(i)];
      SeenLater(marked, commands, i);
      FirstAnswer(marked, commands);
      FirstAnswer(marked, commands + [Clear]);
      FirstAnswer(marked, commands + [Visit(i)]);
      NoAnswers(marked);
      match commands[0]
      case Clear => SetAnswersMean({}, rest, i);
      case Visit(j) => SetAnswersMean(marked + {j}, rest, i);
    }
  }

  /** So a stamp array with nothing marked says of every visit whether it is the first since the last reset. */
  lemma StampsTellFirstVisits(s: State, commands: seq<Command>, i: int)
    requires s.Valid() && s.Marked() == {} && InRange(commands, |s.seen|) && 0 <= i < |s.seen|
    ensures InRange(commands + [Visit(i)], |s.seen|)
    ensures Answers(s, commands + [Visit(i)])
         == Answers(s, commands)
            + [!exists p :: 0 <= p < |commands| && commands[p] == Visit(i) && Clear !in commands[p..]]
  {
    RunsLikeASet(s, commands);
    RunsLikeASet(s, commands + [Visit(i)]);
    SetAnswersMean({}, commands, i);
  }

  /** The stamps the Go reference shares between its traversals. */
  class Stamps {
    const seen: array<int>
    var now: int

    ghost function View(): State
      reads this, seen
    {
      State(seen[..], now)
    }

    ghost predicate Valid()
      reads this, seen
    {
      View().Valid()
    }

    ghost function Marked(): set<int>
      reads this, seen
    {
      View().Marked()
    }

    constructor (nodes: nat)
      ensures View() == Fresh(nodes) && Valid() && fresh(seen) && seen.Length == nodes
    {
      seen := new int[nodes](_ => 0);
      now := 0;
    }

    method Reset()
      requires Valid()
      modifies this`now, seen
      ensures View() == old(View()).Reset()
      ensures Valid() && Marked() == {}
    {
      ghost var before := View();
      now := (now + 1) % WRAP;
      if now == 0 {
        for i := 0 to seen.Length
          invariant forall k :: 0 <= k < i ==> seen[k] == 0
          invariant now == 0
        {
          seen[i] := 0;
        }
        now := 1;
      }
      ResetEmpties(before);
      assert View() == before.Reset();
    }

    method Mark(i: int) returns (isNew: bool)
      requires Valid() && 0 <= i < seen.Length
      modifies seen
      ensures View() == old(View()).Mark(i) && isNew == old(View()).IsNew(i)
      ensures Valid() && Marked() == old(Marked()) + {i} && isNew == (i !in old(Marked()))
    {
      MarkAdds(View(), i);
      ghost var before := View();
      if seen[i] == now {
        assert View() == before.Mark(i);
        return false;
      }
      seen[i] := now;
      assert View() == before.Mark(i);
      return true;
    }
  }
}
