/**
 Picking the nodes a run asks about: Fisher and Yates over the dense indexes, driven by
 splitmix64 from a fixed start and run only as far as the sample needs.
 */
module Sampling {
  import opened Library
  import opened FirstK

  const GAMMA: bv64 := 0x9e37_79b9_7f4a_7c15

  function Mix(state: bv64): bv64 {
    var a := (state ^ (state >> 30)) * 0xbf58_476d_1ce4_e5b9;
    var b := (a ^ (a >> 27)) * 0x94d0_49bb_1331_11eb;
    b ^ (b >> 31)
  }

  /** The generator's state when draw number `i` is made, counting from zero. */
  function StateAt(i: nat): bv64 {
    if i == 0 then GAMMA + GAMMA else StateAt(i - 1) + GAMMA
  }

  /** Draw `i` picks among the positions from `i` on. */
  function Pick(n: nat, i: nat): (j: nat)
    requires i < n
    ensures i <= j < n
  {
    i + (Mix(StateAt(i)) as nat) % (n - i)
  }

  function Swapped(s: seq<int>, i: nat, j: nat): (t: seq<int>)
    requires i < |s| && j < |s|
    ensures |t| == |s|
  {
    s[i := s[j]][j := s[i]]
  }

  function Shuffled(n: nat, draws: nat): (order: seq<int>)
    requires draws <= n
    ensures |order| == n
  {
    if draws == 0 then seq(n, i => i) else Swapped(Shuffled(n, draws - 1), draws - 1, Pick(n, draws - 1))
  }

  /** Whatever is drawn, the order stays a rearrangement of all the positions. */
  ghost predicate IsRearrangement(order: seq<int>, n: nat) {
    && |order| == n && (forall i :: 0 <= i < n ==> 0 <= order[i] < n)
    && forall i, j :: 0 <= i < j < n ==> order[i] != order[j]
  }

  lemma SwapRearranges(order: seq<int>, n: nat, i: nat, j: nat)
    requires IsRearrangement(order, n) && i < n && j < n
    ensures IsRearrangement(Swapped(order, i, j), n)
  {
  }

  lemma {:induction false} ShuffledRearranges(n: nat, draws: nat)
    requires draws <= n
    ensures IsRearrangement(Shuffled(n, draws), n)
  {
    hide Pick;
    if draws > 0 {
      ShuffledRearranges(n, draws - 1);
      SwapRearranges(Shuffled(n, draws - 1), n, draws - 1, Pick(n, draws - 1));
    }
  }

  /** Later draws never touch what earlier ones settled. */
  lemma {:induction false} ShuffledSettles(n: nat, few: nat, many: nat)
    requires few <= many <= n
    ensures Shuffled(n, many)[..few] == Shuffled(n, few)[..few]
    decreases many
  {
    hide Pick;
    if few < many {
      ShuffledSettles(n, few, many - 1);
      var before, after := Shuffled(n, many - 1), Shuffled(n, many);
      assert after[..few] == before[..few];
    }
  }

  /** The sample: the identifiers at the positions drawn first. */
  function Sample(ids: seq<int>, n: nat): (seeds: seq<int>)
    requires n <= |ids|
    ensures |seeds| == n
  {
    ShuffledRearranges(|ids|, n);
    seq(n, i requires 0 <= i < n => ids[Shuffled(|ids|, n)[i]])
  }

  method Seeds(ids: seq<int>, wanted: nat) returns (out: seq<int>)
    ensures out == Sample(ids, Min(wanted, |ids|))
  {
    hide Mix, Pick;
    var n := if wanted > |ids| then |ids| else wanted;
    var order := new int[|ids|](i => i);
    var state := GAMMA;
    for i := 0 to n
      invariant order[..] == Shuffled(|ids|, i)
      invariant i == 0 ==> state == GAMMA
      invariant i > 0 ==> state == StateAt(i - 1)
    {
      state := state + GAMMA;
      var j := PickFrom(state, |ids|, i);
      ghost var before := order[..];
      order[i], order[j] := order[j], order[i];
      assert order[..] == Swapped(before, i, j);
    }
    ShuffledRearranges(|ids|, n);
    out := [];
    for i := 0 to n
      invariant |out| == i && forall k :: 0 <= k < i ==> out[k] == ids[order[..][k]]
    {
      assert order[i] == order[..][i];
      out := out + [ids[order[i]]];
    }
  }

  method PickFrom(state: bv64, n: nat, i: nat) returns (j: nat)
    requires i < n && state == StateAt(i)
    ensures j == Pick(n, i)
  {
    var z := Mix(state);
    j := i + (z as nat) % (n - i);
  }

  /** Seeds are different nodes of the graph. */
  lemma SeedsAreDistinctNodes(ids: seq<int>, n: nat)
    requires Increasing(ids) && n <= |ids|
    ensures forall i :: 0 <= i < n ==> Sample(ids, n)[i] in ids
    ensures forall i, j :: 0 <= i < j < n ==> Sample(ids, n)[i] != Sample(ids, n)[j]
  {
    hide Shuffled;
    ShuffledRearranges(|ids|, n);
    var order := Shuffled(|ids|, n);
    forall i, j | 0 <= i < j < n
      ensures Sample(ids, n)[i] != Sample(ids, n)[j]
    {
      assert order[i] != order[j];
    }
  }

  /** A run with fewer seeds is asked about the first of the nodes a run with more is. */
  lemma FewerSeedsAreAPrefix(ids: seq<int>, few: nat, many: nat)
    requires few <= many <= |ids|
    ensures Sample(ids, few) == Sample(ids, many)[..few]
  {
    hide Shuffled;
    ShuffledSettles(|ids|, few, many);
    ShuffledRearranges(|ids|, few);
    ShuffledRearranges(|ids|, many);
    forall i | 0 <= i < few
      ensures Sample(ids, few)[i] == Sample(ids, many)[i]
    {
      assert Shuffled(|ids|, many)[..few][i] == Shuffled(|ids|, few)[..few][i];
    }
  }

  // ----- What is drawn

  /** The generator is splitmix64: these are its first outputs from a state of zero. */
  lemma MixIsSplitmix64()
    ensures Mix(GAMMA) == 0xe220_a839_7b1d_cdaf
    ensures Mix(GAMMA + GAMMA) == 0x6e78_9e6a_a1b9_65f4
    ensures Mix(GAMMA + GAMMA + GAMMA) == 0x06c4_5d18_8009_454f
  {
  }

  /** Its start is one output in, and it moves on by one output a draw. */
  lemma StatesMoveOn(i: nat)
    ensures StateAt(0) == 0x9e37_79b9_7f4a_7c15 + 0x9e37_79b9_7f4a_7c15
    ensures StateAt(i + 1) == StateAt(i) + 0x9e37_79b9_7f4a_7c15
  {
  }

  /** Draw `i` takes the output's remainder among the positions that are left. */
  lemma PickIsRemainder(n: nat, i: nat)
    requires i < n
    ensures Pick(n, i) - i == (Mix(StateAt(i)) as nat) % (n - i)
  {
  }

  /** Of what is left, draw `i` takes the element it picked and leaves all the others. */
  lemma DrawTakes(n: nat, i: nat)
    requires i < n
    ensures var left, after := Shuffled(n, i)[i..], Shuffled(n, i + 1)[i + 1..];
            && Shuffled(n, i + 1)[i] == left[Pick(n, i) - i]
            && multiset(after) == multiset(left) - multiset{left[Pick(n, i) - i]}
  {
    hide Pick, Swapped;
    SwapTakes(Shuffled(n, i), i, Pick(n, i));
  }

  lemma SwapTakes(before: seq<int>, i: nat, j: nat)
    requires i <= j < |before|
    ensures var left, after := before[i..], Swapped(before, i, j);
            && after[i] == left[j - i]
            && multiset(after[i + 1..]) == multiset(left) - multiset{left[j - i]}
  {
    var left, rest := before[i..], Swapped(before, i, j)[i + 1..];
    if i == j {
      assert left == [left[0]] + rest;
    } else {
      var between, behind := before[i + 1..j], before[j + 1..];
      assert left == [before[i]] + between + [before[j]] + behind;
      assert rest == between + [before[i]] + behind;
      OneTaken(before[i], between, before[j], behind);
    }
  }

  lemma OneTaken(a: int, between: seq<int>, b: int, behind: seq<int>)
    ensures multiset(between + [a] + behind) == multiset([a] + between + [b] + behind) - multiset{b}
  {
  }

  /** What there is to draw from at first: every position, in order. */
  lemma AllIsLeft(n: nat)
    ensures Shuffled(n, 0) == seq(n, i => i)
  {
  }

  /** The sample is what the draws took, one after another. */
  lemma SampleIsWhatWasDrawn(ids: seq<int>, n: nat, i: nat)
    requires i < n <= |ids|
    ensures 0 <= Shuffled(|ids|, i + 1)[i] < |ids| && Sample(ids, n)[i] == ids[Shuffled(|ids|, i + 1)[i]]
  {
    hide Shuffled, Pick, Mix;
    ShuffledRearranges(|ids|, i + 1);
    ShuffledRearranges(|ids|, n);
    ShuffledSettles(|ids|, i + 1, n);
    assert Shuffled(|ids|, n)[..i + 1][i] == Shuffled(|ids|, i + 1)[..i + 1][i];
  }
}
