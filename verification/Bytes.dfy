/** Little endian words, and Go's fixed width integers where a file stores them. */
module Bytes {
  import opened Products
  import opened Rows

  function Pow256(n: nat): nat {
    if n == 0 then 1 else 256 * Pow256(n - 1)
  }

  /** The low `width` bytes of `v`, lowest first. */
  function LittleEndian(v: nat, width: nat): (bytes: seq<int>)
    ensures |bytes| == width
  {
    if width == 0 then [] else [v % 256] + LittleEndian(v / 256, width - 1)
  }

  function Value(bytes: seq<int>): int {
    if bytes == [] then 0 else bytes[0] + 256 * Value(bytes[1..])
  }

  lemma {:induction false} ValueOfLittleEndian(v: nat, width: nat)
    requires v < Pow256(width)
    ensures Value(LittleEndian(v, width)) == v
  {
    if width > 0 {
      ValueOfLittleEndian(v / 256, width - 1);
      assert LittleEndian(v, width)[1..] == LittleEndian(v / 256, width - 1);
    }
  }

  lemma DivideTwice(v: nat, p: nat)
    requires p > 0
    ensures v / 256 / p == v / (256 * p)
  {
    var q := v / 256 / p;
    var w := v / 256;
    assert w == p * q + w % p && v == 256 * w + v % 256;
    var rest := 256 * (w % p) + v % 256;
    assert v == (256 * p) * q + rest && 0 <= rest < 256 * p;
    QuotientIs(v, 256 * p, q, rest);
  }

  lemma QuotientIs(v: nat, d: nat, q: nat, rest: nat)
    requires d > 0 && v == d * q + rest && rest < d
    ensures v / d == q
  {
    var c := v / d;
    assert v == d * c + v % d;
    TimesMonotone(d, c + 1, q);
    TimesMonotone(d, q + 1, c);
  }

  lemma {:induction false} PowNotZero(n: nat)
    ensures Pow256(n) > 0
  {
    if n > 0 {
      PowNotZero(n - 1);
    }
  }

  /** Byte `i` is the digit of the 256s that many places up: the lowest comes first. */
  lemma {:induction false} LittleEndianAt(v: nat, width: nat, i: nat)
    requires i < width
    ensures Pow256(i) > 0 && LittleEndian(v, width)[i] == v / Pow256(i) % 256
  {
    PowNotZero(i);
    if i > 0 {
      LittleEndianAt(v / 256, width - 1, i - 1);
      PowNotZero(i - 1);
      DivideTwice(v, Pow256(i - 1));
    }
  }

  lemma PowersOf256()
    ensures Pow256(4) == 0x1_0000_0000 && Pow256(8) == 0x1_0000_0000_0000_0000
  {
    assert Pow256(1) == 256 * Pow256(0);
    assert Pow256(2) == 256 * Pow256(1);
    assert Pow256(3) == 256 * Pow256(2);
    assert Pow256(4) == 256 * Pow256(3);
    assert Pow256(5) == 256 * Pow256(4);
    assert Pow256(6) == 256 * Pow256(5);
    assert Pow256(7) == 256 * Pow256(6);
    assert Pow256(8) == 256 * Pow256(7);
  }

  const TWO64 := 0x1_0000_0000_0000_0000
  const TWO63 := 0x8000_0000_0000_0000

  function Uint64(v: int): nat {
    v % TWO64
  }

  function Int64(v: int): int {
    var w := v % TWO64;
    if w < TWO63 then w else w - TWO64
  }

  function Uint32(v: int): nat {
    v % 0x1_0000_0000
  }

  function Int32(v: int): int {
    var w := v % 0x1_0000_0000;
    if w < 0x8000_0000 then w else w - 0x1_0000_0000
  }

  // ----- Words one after another

  ghost function Words(vals: seq<int>, width: nat): seq<int>
    requires forall i :: 0 <= i < |vals| ==> vals[i] >= 0
  {
    if vals == [] then [] else Words(vals[..|vals| - 1], width) + LittleEndian(vals[|vals| - 1], width)
  }

  lemma {:induction false} WordsAreRows(vals: seq<int>, width: nat)
    requires forall i :: 0 <= i < |vals| ==> vals[i] >= 0
    ensures IsFlat(Words(vals, width), width, |vals|)
    ensures forall i :: 0 <= i < |vals| ==> RowOf(Words(vals, width), width, |vals|, i) == LittleEndian(vals[i], width)
    decreases |vals|
  {
    if vals != [] {
      var front, last := vals[..|vals| - 1], vals[|vals| - 1];
      WordsAreRows(front, width);
      RowAppended(Words(front, width), width, |front|, LittleEndian(last, width));
    }
  }

  /** Word `i` lies where the words before it end. */
  lemma WordAt(vals: seq<int>, width: nat, i: nat)
    requires i < |vals| && forall j :: 0 <= j < |vals| ==> vals[j] >= 0
    ensures |Words(vals, width)| == |vals| * width && 0 <= i * width <= i * width + width <= |vals| * width
    ensures Words(vals, width)[i * width..i * width + width] == LittleEndian(vals[i], width)
  {
    WordsAreRows(vals, width);
    RowFits(width, |vals|, i);
    assert (i + 1) * width == i * width + width;
    assert RowOf(Words(vals, width), width, |vals|, i) == LittleEndian(vals[i], width);
  }

  method WriteWords(vals: seq<int>, width: nat) returns (bytes: seq<int>)
    requires forall i :: 0 <= i < |vals| ==> vals[i] >= 0
    ensures bytes == Words(vals, width)
  {
    bytes := [];
    for i := 0 to |vals|
      invariant bytes == Words(vals[..i], width)
    {
      assert vals[..i + 1][..i] == vals[..i];
      bytes := bytes + LittleEndian(vals[i], width);
    }
    assert vals[..|vals|] == vals;
  }

  ghost predicate AreBytes(file: seq<int>) {
    forall i :: 0 <= i < |file| ==> 0 <= file[i] < 256
  }

  lemma {:induction false} LittleEndianBytes(v: nat, width: nat)
    ensures AreBytes(LittleEndian(v, width))
  {
    if width > 0 {
      LittleEndianBytes(v / 256, width - 1);
    }
  }

  lemma {:induction false} WordsBytes(vals: seq<int>, width: nat)
    requires forall i :: 0 <= i < |vals| ==> vals[i] >= 0
    ensures AreBytes(Words(vals, width))
    decreases |vals|
  {
    if vals != [] {
      WordsBytes(vals[..|vals| - 1], width);
      LittleEndianBytes(vals[|vals| - 1], width);
    }
  }

  lemma {:induction false} ValueInRange(bytes: seq<int>)
    requires AreBytes(bytes)
    ensures 0 <= Value(bytes) < Pow256(|bytes|)
  {
    if bytes != [] {
      ValueInRange(bytes[1..]);
    }
  }

  /** The values of `count` words. */
  ghost predicate DecodesTo(vals: seq<int>, raw: seq<int>, width: nat, count: nat)
    requires IsFlat(raw, width, count)
  {
    |vals| == count && forall i :: 0 <= i < count ==> vals[i] == Value(RowOf(raw, width, count, i))
  }

  method ReadWords(raw: seq<int>, width: nat, count: nat) returns (vals: seq<int>)
    requires IsFlat(raw, width, count)
    ensures DecodesTo(vals, raw, width, count)
  {
    vals := [];
    for i := 0 to count
      invariant |vals| == i && forall j :: 0 <= j < i ==> vals[j] == Value(RowOf(raw, width, count, j))
    {
      vals := vals + [Value(RowOf(raw, width, count, i))];
    }
  }

  /** Words that fit their width come back as they were written. */
  lemma WordsRoundTrip(vals: seq<int>, width: nat, read: seq<int>)
    requires forall i :: 0 <= i < |vals| ==> 0 <= vals[i] < Pow256(width)
    requires IsFlat(Words(vals, width), width, |vals|) && DecodesTo(read, Words(vals, width), width, |vals|)
    ensures read == vals
  {
    WordsAreRows(vals, width);
    forall i | 0 <= i < |vals|
      ensures read[i] == vals[i]
    {
      ValueOfLittleEndian(vals[i], width);
    }
  }
}
