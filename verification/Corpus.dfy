/**
 Reading a file of lines on several threads. The file is cut at arbitrary byte offsets; a
 range starts at the first line that begins at or after its start and runs past its end to
 finish the line it is in.
 */
module Corpus {
  import opened Products

  const NEWLINE := 10

  // ----- What the lines of a file are

  function FirstNewline(file: seq<int>): (n: nat)
    ensures n <= |file| && forall i :: 0 <= i < n ==> file[i] != NEWLINE
    ensures n < |file| ==> file[n] == NEWLINE
  {
    if file == [] then 0
    else if file[0] == NEWLINE then 0
    else 1 + FirstNewline(file[1..])
  }

  /** The pieces between newlines, the last one included even when it is empty. */
  function Split(file: seq<int>): (lines: seq<seq<int>>)
    ensures lines != []
    decreases |file|
  {
    var n := FirstNewline(file);
    if n == |file| then [file] else [file[..n]] + Split(file[n + 1..])
  }

  function Join(lines: seq<seq<int>>): seq<int> {
    if lines == [] then []
    else if |lines| == 1 then lines[0]
    else lines[0] + [NEWLINE] + Join(lines[1..])
  }

  function NonEmpty(lines: seq<seq<int>>): seq<seq<int>> {
    if lines == [] then []
    else Kept(lines[0]) + NonEmpty(lines[1..])
  }

  /** Every line that is not empty is kept, as often as it is there, and no other. */
  lemma {:induction false} NonEmptyKeeps(lines: seq<seq<int>>, l: seq<int>)
    ensures multiset(NonEmpty(lines))[l] == if l == [] then 0 else multiset(lines)[l]
  {
    if lines != [] {
      NonEmptyKeeps(lines[1..], l);
      assert lines == [lines[0]] + lines[1..];
    }
  }

  /** And in order. */
  lemma {:induction false} NonEmptyInOrder(a: seq<seq<int>>, b: seq<seq<int>>)
    ensures NonEmpty(a + b) == NonEmpty(a) + NonEmpty(b)
  {
    if a == [] {
      assert a + b == b;
    } else {
      hide NonEmpty, Kept;
      NonEmptyInOrder(a[1..], b);
      assert (a + b)[1..] == a[1..] + b;
      NonEmptyFirst(a);
      NonEmptyFirst(a + b);
      InThree(Kept(a[0]), NonEmpty(a[1..]), NonEmpty(b));
    }
  }

  lemma InThree<T>(a: seq<T>, b: seq<T>, c: seq<T>)
    ensures a + (b + c) == (a + b) + c
  {
  }

  lemma NonEmptyFirst(lines: seq<seq<int>>)
    requires lines != []
    ensures NonEmpty(lines) == Kept(lines[0]) + NonEmpty(lines[1..])
  {
  }

  lemma NonEmptyOfOne(l: seq<int>)
    ensures NonEmpty([l]) == if l == [] then [] else [l]
  {
    assert [l][1..] == [];
  }

  /** `Split` is the one way to write the file as lines joined by newlines. */
  lemma {:induction false} SplitJoins(file: seq<int>)
    ensures Join(Split(file)) == file
    ensures forall i :: 0 <= i < |Split(file)| ==> 10 !in Split(file)[i]
    decreases |file|
  {
    var n := FirstNewline(file);
    if n < |file| {
      SplitJoins(file[n + 1..]);
      assert Split(file)[1..] == Split(file[n + 1..]);
      assert file == file[..n] + [NEWLINE] + file[n + 1..];
      forall i | 0 <= i < |Split(file)|
        ensures NEWLINE !in Split(file)[i]
      {
        if i > 0 {
          assert Split(file)[i] == Split(file[n + 1..])[i - 1];
        }
      }
    }
  }

  // ----- Reading from a position

  /** Just past the first newline at or after `at`, or the end of the file. */
  function Next(file: seq<int>, at: nat): (next: nat)
    requires at <= |file|
    ensures at <= next <= |file| && (at < |file| ==> at < next)
    decreases |file| - at
  {
    if at == |file| then at else if file[at] == NEWLINE then at + 1 else Next(file, at + 1)
  }

  function Strip(line: seq<int>): seq<int> {
    if line != [] && line[|line| - 1] == NEWLINE then line[..|line| - 1] else line
  }

  function Kept(text: seq<int>): seq<seq<int>> {
    if text == [] then [] else [text]
  }

  /** The non-empty lines read from `at` on, until a line would begin at or past `to`. */
  function LinesFrom(file: seq<int>, at: nat, to: nat): seq<seq<int>>
    decreases if at < |file| then |file| - at else 0
  {
    if at >= to || at >= |file| then [] else
      Kept(Strip(file[at..Next(file, at)])) + LinesFrom(file, Next(file, at), to)
  }

  /** Where a range begins reading: one byte early, then past the line it lands in. */
  function Begin(file: seq<int>, from: nat): nat {
    if from == 0 then 0 else if from - 1 <= |file| then Next(file, from - 1) else from - 1
  }

  method ReadUntil(file: seq<int>, at: nat) returns (line: seq<int>)
    ensures line == if at <= |file| then file[at..Next(file, at)] else []
  {
    line := [];
    var i := at;
    while i < |file|
      invariant at <= |file| ==> at <= i <= |file| && line == file[at..i] && Next(file, at) == Next(file, i)
      invariant at > |file| ==> i == at && line == []
    {
      line := line + [file[i]];
      i := i + 1;
      if file[i - 1] == NEWLINE {
        return;
      }
    }
  }

  lemma ReadOn(file: seq<int>, at: nat, to: nat, line: seq<int>, docs: seq<seq<int>>)
    requires at < to && line == if at <= |file| then file[at..Next(file, at)] else []
    ensures line == [] ==> LinesFrom(file, at, to) == []
    ensures line != [] ==>
              docs + LinesFrom(file, at, to) == (docs + Kept(Strip(line))) + LinesFrom(file, at + |line|, to)
  {
  }

  /** Reads one range; every document is handed on and none stops it early. */
  method ReadRange(file: seq<int>, from: nat, to: nat) returns (docs: seq<seq<int>>)
    ensures docs == LinesFrom(file, Begin(file, from), to)
    ensures from <= to <= |file| ==>
              && Begin(file, from) <= Begin(file, to) <= |file|
              && docs == NonEmpty(Split(file[Begin(file, from)..Begin(file, to)]))
  {
    hide Next, LinesFrom;
    docs := [];
    var at := if from > 0 then from - 1 else from;
    if from > 0 {
      var skipped := ReadUntil(file, at);
      at := at + |skipped|;
    }
    ghost var all := LinesFrom(file, Begin(file, from), to);
    assert docs + LinesFrom(file, at, to) == all;
    while at < to
      invariant docs + LinesFrom(file, at, to) == all
    {
      var line := ReadUntil(file, at);
      ReadOn(file, at, to, line, docs);
      if |line| == 0 {
        break;
      }
      at := at + |line|;
      var text := if line[|line| - 1] == NEWLINE then line[..|line| - 1] else line;
      if |text| == 0 {
        continue;
      }
      docs := docs + [text];
    }
    NothingPastTheEnd(file, at, to);
    if from <= to <= |file| {
      RangeReadsItsLines(file, from, to);
    }
  }

  lemma NothingPastTheEnd(file: seq<int>, at: nat, to: nat)
    ensures at >= to || at >= |file| ==> LinesFrom(file, at, to) == []
  {
  }

  // ----- Every cut is between two lines

  ghost predicate IsStart(file: seq<int>, at: nat) {
    at <= |file| && (at == 0 || at == |file| || file[at - 1] == NEWLINE)
  }

  lemma {:induction false} NextIsFirstStart(file: seq<int>, at: nat)
    requires at < |file|
    ensures IsStart(file, Next(file, at))
    ensures forall p :: at < p <= |file| && IsStart(file, p) ==> Next(file, at) <= p
    decreases |file| - at
  {
    if file[at] != NEWLINE && at + 1 < |file| {
      NextIsFirstStart(file, at + 1);
    }
  }

  lemma BeginIsFirstStart(file: seq<int>, from: nat)
    requires from <= |file|
    ensures IsStart(file, Begin(file, from)) && from <= Begin(file, from)
    ensures forall p :: from <= p && IsStart(file, p) ==> Begin(file, from) <= p
  {
    if from > 0 {
      NextIsFirstStart(file, from - 1);
    }
  }

  lemma {:induction false} StopsWhereNextBegins(file: seq<int>, at: nat, mid: nat, to: nat)
    requires IsStart(file, at) && mid <= to && mid <= |file| && at <= Begin(file, mid)
    ensures LinesFrom(file, at, mid) + LinesFrom(file, Begin(file, mid), to) == LinesFrom(file, at, to)
    decreases |file| - at
  {
    BeginIsFirstStart(file, mid);
    if at < mid {
      NextIsFirstStart(file, at);
      StopsWhereNextBegins(file, Next(file, at), mid, to);
    } else {
      assert Begin(file, mid) == at;
    }
  }

  /** Two neighbouring ranges read what one range over both would. */
  lemma RangesMeet(file: seq<int>, from: nat, mid: nat, to: nat)
    requires from <= mid <= to && mid <= |file|
    ensures LinesFrom(file, Begin(file, from), mid) + LinesFrom(file, Begin(file, mid), to)
         == LinesFrom(file, Begin(file, from), to)
  {
    BeginIsFirstStart(file, from);
    BeginIsFirstStart(file, mid);
    StopsWhereNextBegins(file, Begin(file, from), mid, to);
  }

  lemma {:induction false} NextIsPastNewline(file: seq<int>, at: nat)
    requires at <= |file|
    ensures var n := FirstNewline(file[at..]); Next(file, at) == if n == |file| - at then |file| else at + n + 1
    decreases |file| - at
  {
    if at < |file| {
      assert file[at..][1..] == file[at + 1..];
      if file[at] != NEWLINE {
        NextIsPastNewline(file, at + 1);
      }
    }
  }

  /** No newline is left: one last line, without one of its own. */
  lemma LastLine(file: seq<int>, at: nat)
    requires at < |file| && FirstNewline(file[at..]) == |file| - at
    ensures LinesFrom(file, at, |file|) == NonEmpty(Split(file[at..]))
  {
    hide FirstNewline, Next;
    var rest := file[at..];
    NextIsPastNewline(file, at);
    assert file[at..Next(file, at)] == rest;
    assert Strip(rest) == rest;
    assert Split(rest) == [rest] && Split(rest)[1..] == [];
  }

  /** A line that ends in a newline, read from the file and split off. */
  lemma AnotherLine(file: seq<int>, at: nat, next: nat)
    requires at < |file| && FirstNewline(file[at..]) < |file| - at && next == at + FirstNewline(file[at..]) + 1
    ensures LinesFrom(file, at, |file|) == Kept(file[at..next - 1]) + LinesFrom(file, next, |file|)
    ensures Split(file[at..]) == [file[at..next - 1]] + Split(file[next..])
  {
    hide FirstNewline, Next;
    var rest := file[at..];
    NextIsPastNewline(file, at);
    assert file[at..next] == file[at..next - 1] + [NEWLINE];
    assert Strip(file[at..next]) == file[at..next - 1];
    assert rest[..next - 1 - at] == file[at..next - 1] && rest[next - at..] == file[next..];
  }

  /** Read as one range, the file gives its non-empty lines. */
  lemma {:induction false} WholeFileLines(file: seq<int>, at: nat)
    requires at <= |file|
    ensures LinesFrom(file, at, |file|) == NonEmpty(Split(file[at..]))
    decreases |file| - at
  {
    hide FirstNewline, LinesFrom;
    var n := FirstNewline(file[at..]);
    if at == |file| {
      NothingPastTheEnd(file, at, |file|);
      assert Split(file[at..]) == [[]];
    } else if n == |file| - at {
      LastLine(file, at);
    } else {
      var next := at + n + 1;
      AnotherLine(file, at, next);
      WholeFileLines(file, next);
      assert Split(file[at..])[1..] == Split(file[next..]);
    }
  }

  lemma SplitOnce(file: seq<int>, n: nat)
    requires n == FirstNewline(file) < |file|
    ensures NonEmpty(Split(file)) == Kept(file[..n]) + NonEmpty(Split(file[n + 1..]))
  {
    assert Split(file)[1..] == Split(file[n + 1..]);
  }

  lemma NothingToSplit()
    ensures NonEmpty(Split([])) == []
  {
    assert Split([])[1..] == [];
  }

  /** Text that ends where a line does can be split on its own. */
  lemma {:induction false} SplitsApart(text: seq<int>, rest: seq<int>)
    requires text == [] || rest == [] || text[|text| - 1] == NEWLINE
    ensures NonEmpty(Split(text + rest)) == NonEmpty(Split(text)) + NonEmpty(Split(rest))
    decreases |text|
  {
    hide Split, NonEmpty, FirstNewline, Kept;
    NothingToSplit();
    if text == [] {
      assert text + rest == rest;
    } else if rest == [] {
      assert text + rest == text;
    } else {
      var n := FirstNewline(text);
      FirstNewlineOfBoth(text, rest);
      assert (text + rest)[n + 1..] == text[n + 1..] + rest && (text + rest)[..n] == text[..n];
      SplitOnce(text, n);
      SplitOnce(text + rest, n);
      SplitsApart(text[n + 1..], rest);
    }
  }

  lemma {:induction false} FirstNewlineOfBoth(text: seq<int>, rest: seq<int>)
    requires text != [] && text[|text| - 1] == NEWLINE
    ensures FirstNewline(text) < |text| && FirstNewline(text + rest) == FirstNewline(text)
    decreases |text|
  {
    if text[0] != NEWLINE {
      FirstNewlineOfBoth(text[1..], rest);
      assert (text + rest)[1..] == text[1..] + rest;
    }
  }

  /** A range reads its own lines: those of the text from where it begins to where the next one does. */
  lemma RangeReadsItsLines(file: seq<int>, from: nat, to: nat)
    requires from <= to <= |file|
    ensures Begin(file, from) <= Begin(file, to) <= |file|
    ensures LinesFrom(file, Begin(file, from), to) == NonEmpty(Split(file[Begin(file, from)..Begin(file, to)]))
  {
    hide LinesFrom, Split, NonEmpty;
    var a, b := Begin(file, from), Begin(file, to);
    BeginIsFirstStart(file, from);
    BeginIsFirstStart(file, to);
    RangesMeet(file, from, to, |file|);
    WholeFileLines(file, a);
    WholeFileLines(file, b);
    assert file[a..] == file[a..b] + file[b..];
    SplitsApart(file[a..b], file[b..]);
    var mine, text := LinesFrom(file, a, to), NonEmpty(Split(file[a..b]));
    var rest := NonEmpty(Split(file[b..]));
    assert mine + rest == text + rest;
    SameFront(mine, text, rest);
  }

  lemma SameFront<T>(a: seq<T>, b: seq<T>, rest: seq<T>)
    requires a + rest == b + rest
    ensures a == b
  {
    assert |a| == |b|;
    assert a == (a + rest)[..|a|] && b == (b + rest)[..|b|];
  }

  // ----- Shards

  /** The cut before shard `i` of `count`, wherever the arithmetic puts it. */
  function Cut(length: nat, i: nat, count: nat): nat
    requires count > 0
  {
    length * i / count
  }

  lemma CutsAscend(length: nat, i: nat, count: nat)
    requires 0 < count && i < count
    ensures Cut(length, 0, count) == 0 && Cut(length, count, count) == length
    ensures Cut(length, i, count) <= Cut(length, i + 1, count) <= length
  {
    LastCut(length, count);
    CutsInOrder(length, i, i + 1, count);
    CutsInOrder(length, i + 1, count, count);
  }

  lemma LastCut(length: nat, count: nat)
    requires count > 0
    ensures Cut(length, 0, count) == 0 && Cut(length, count, count) == length
  {
    DivideBack(count, length);
  }

  lemma CutsInOrder(length: nat, i: nat, j: nat, count: nat)
    requires i <= j && count > 0
    ensures Cut(length, i, count) <= Cut(length, j, count)
  {
    TimesMonotone(length, i, j);
    QuotientAscends(length * i, length * j, count);
  }

  /** Shards are as equal as whole bytes allow. */
  lemma ShardsAreEven(length: nat, i: nat, count: nat)
    requires 0 < count && i < count
    ensures length / count <= Cut(length, i + 1, count) - Cut(length, i, count) <= length / count + 1
  {
    hide Cut;
    var q, r := length / count, length % count;
    assert length == count * q + r;
    NextCut(q, r, i, count);
  }

  lemma NextCut(q: nat, r: nat, i: nat, count: nat)
    requires r < count
    ensures q <= Cut(count * q + r, i + 1, count) - Cut(count * q + r, i, count) <= q + 1
  {
    hide Cut;
    CutOf(q, r, i, count);
    CutOf(q, r, i + 1, count);
    OneMoreTimes(q, i);
    OneMoreTimes(r, i);
    QuotientsOneApart(r * i, r, count);
  }

  lemma OneMoreTimes(a: nat, i: nat)
    ensures a * (i + 1) == a * i + a
  {
  }

  lemma QuotientsOneApart(a: nat, r: nat, count: nat)
    requires r < count
    ensures a / count <= (a + r) / count <= a / count + 1
  {
    QuotientAscends(a, a + r, count);
    QuotientAscends(a + r, a + count, count);
    OneMore(a, count);
  }

  lemma CutOf(q: nat, r: nat, i: nat, count: nat)
    requires count > 0
    ensures Cut(count * q + r, i, count) == q * i + (r * i) / count
  {
    assert (count * q + r) * i == count * (q * i) + r * i;
    WholePlus(q * i, r * i, count);
  }

  lemma WholePlus(a: nat, b: nat, count: nat)
    requires count > 0
    ensures (count * a + b) / count == a + b / count
  {
    var c := (count * a + b) / count;
    assert count * a + b == count * c + (count * a + b) % count;
    assert b == count * (b / count) + b % count;
    assert count * (a + b / count) == count * a + count * (b / count);
    TimesMonotone(count, c + 1, a + b / count);
    TimesMonotone(count, a + b / count + 1, c);
  }

  lemma OneMore(a: nat, count: nat)
    requires count > 0
    ensures (a + count) / count == a / count + 1
  {
    WholePlus(1, a, count);
  }

  method Shards(length: nat, wanted: nat) returns (ranges: seq<(nat, nat)>)
    ensures |ranges| == if wanted == 0 then 1 else wanted
    ensures forall i :: 0 <= i < |ranges| ==> ranges[i] == (Cut(length, i, |ranges|), Cut(length, i + 1, |ranges|))
  {
    hide Cut;
    var count := if wanted == 0 then 1 else wanted;
    ranges := [];
    for i := 0 to count
      invariant |ranges| == i
      invariant forall j :: 0 <= j < i ==> ranges[j] == (Cut(length, j, count), Cut(length, j + 1, count))
    {
      ranges := ranges + [(Cut(length, i, count), Cut(length, i + 1, count))];
    }
  }

  /** The first `n` shards, one after another. */
  ghost function FirstShards(file: seq<int>, n: nat, count: nat): seq<seq<int>>
    requires 0 < count && n <= count
  {
    if n == 0 then [] else
      FirstShards(file, n - 1, count)
        + LinesFrom(file, Begin(file, Cut(|file|, n - 1, count)), Cut(|file|, n, count))
  }

  lemma {:induction false} ShardsReadOn(file: seq<int>, n: nat, count: nat)
    requires 0 < count && n <= count
    ensures FirstShards(file, n, count) == LinesFrom(file, 0, Cut(|file|, n, count))
  {
    hide LinesFrom, Cut;
    CutsAscend(|file|, 0, count);
    NothingPastTheEnd(file, 0, 0);
    if n > 0 {
      ShardsReadOn(file, n - 1, count);
      CutsAscend(|file|, n - 1, count);
      RangesMeet(file, 0, Cut(|file|, n - 1, count), Cut(|file|, n, count));
    }
  }

  /** The shards together are the corpus, in order, nothing twice and nothing missed. */
  lemma ShardsAreTheCorpus(file: seq<int>, count: nat)
    requires count > 0
    ensures FirstShards(file, count, count) == NonEmpty(Split(file))
  {
    ShardsReadOn(file, count, count);
    CutsAscend(|file|, 0, count);
    WholeFileLines(file, 0);
    assert file[0..] == file;
  }

  /** Every range read on its own and the results put one after another. */
  method ReadShards(file: seq<int>, wanted: nat) returns (docs: seq<seq<int>>)
    ensures docs == NonEmpty(Split(file))
    ensures forall l: seq<int> :: multiset(docs)[l] == if l == [] then 0 else multiset(Split(file))[l]
  {
    hide LinesFrom;
    forall l: seq<int>
      ensures multiset(NonEmpty(Split(file)))[l] == if l == [] then 0 else multiset(Split(file))[l]
    {
      NonEmptyKeeps(Split(file), l);
    }
    var ranges := Shards(|file|, wanted);
    docs := [];
    for i := 0 to |ranges|
      invariant docs == FirstShards(file, i, |ranges|)
    {
      var part := ReadRange(file, ranges[i].0, ranges[i].1);
      docs := docs + part;
    }
    ShardsAreTheCorpus(file, |ranges|);
  }
}
