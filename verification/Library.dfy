/**
 The library routines the engines lean on, given bodies only so that their contracts are
 proved: an ascending sort, and the search for the first position not below a key.
 */
module Library {
  import opened Sets
  import opened Bytes

  ghost predicate Ascending(s: seq<int>) {
    forall i, j :: 0 <= i < j < |s| ==> s[i] <= s[j]
  }

  ghost predicate Increasing(s: seq<int>) {
    forall i, j :: 0 <= i < j < |s| ==> s[i] < s[j]
  }

  method LowerBound(s: seq<int>, key: int) returns (at: nat)
    requires Ascending(s)
    ensures at <= |s|
    ensures forall i :: 0 <= i < at ==> s[i] < key
    ensures forall i :: at <= i < |s| ==> key <= s[i]
  {
    at := 0;
    var hi := |s|;
    while at < hi
      invariant at <= hi <= |s|
      invariant forall i :: 0 <= i < at ==> s[i] < key
      invariant forall i :: hi <= i < |s| ==> key <= s[i]
    {
      var mid := (at + hi) / 2;
      if s[mid] < key {
        at := mid + 1;
      } else {
        hi := mid;
      }
    }
  }

  method Sort(s: seq<int>) returns (r: seq<int>)
    ensures Ascending(r) && multiset(r) == multiset(s)
  {
    r := [];
    for i := 0 to |s|
      invariant Ascending(r) && multiset(r) == multiset(s[..i])
    {
      var at := LowerBound(r, s[i]);
      ghost var was := r;
      r := r[..at] + [s[i]] + r[at..];
      assert was == was[..at] + was[at..];
      assert s[..i + 1] == s[..i] + [s[i]];
    }
    assert s[..|s|] == s;
  }

  lemma SameElements(s: seq<int>, t: seq<int>)
    requires multiset(s) == multiset(t)
    ensures Elems(s) == Elems(t)
  {
    forall x
      ensures x in s <==> x in t
    {
      assert x in s <==> x in multiset(s);
      assert x in t <==> x in multiset(t);
    }
  }

  /** Sorting identifiers that are all different puts them strictly in order. */
  lemma SortedDistinct(s: seq<int>, sorted: seq<int>)
    requires |Elems(s)| == |s| && Ascending(sorted) && multiset(s) == multiset(sorted)
    ensures Increasing(sorted) && Elems(sorted) == Elems(s)
  {
    SameElements(s, sorted);
    assert |sorted| == |multiset(sorted)| == |multiset(s)| == |s|;
    forall i, j | 0 <= i < j < |sorted|
      ensures sorted[i] != sorted[j]
    {
      if sorted[i] == sorted[j] {
        var rest := sorted[..i] + sorted[i + 1..];
        assert rest[j - 1] == sorted[j];
        assert Elems(rest) == Elems(sorted) by {
          forall x | x in sorted
            ensures x in rest
          {
            var p :| 0 <= p < |sorted| && sorted[p] == x;
            assert rest[if p < i then p else if p == i then j - 1 else p - 1] == x;
          }
        }
        ElemsAtMost(rest);
        assert false;
      }
    }
  }

  lemma {:induction false} ElemsAtMost<T>(s: seq<T>)
    ensures |Elems(s)| <= |s|
  {
    if s != [] {
      var front, last := s[..|s| - 1], s[|s| - 1];
      ElemsAtMost(front);
      assert s == front + [last];
      assert Elems(s) == Elems(front) + {last};
    }
  }

  lemma IncreasingFront(a: seq<int>) returns (front: seq<int>, last: int)
    requires Increasing(a) && a != []
    ensures a == front + [last] && Increasing(front) && Elems(front) == Elems(a) - {last}
    ensures last in Elems(a) && forall v :: v in Elems(a) ==> v <= last
  {
    front, last := a[..|a| - 1], a[|a| - 1];
  }

  lemma {:induction false} IncreasingUnique(a: seq<int>, b: seq<int>)
    requires Increasing(a) && Increasing(b) && Elems(a) == Elems(b)
    ensures a == b
    decreases |a|
  {
    ElemsEmpty(a);
    ElemsEmpty(b);
    if a != [] {
      var front, last := IncreasingFront(a);
      var other, final := IncreasingFront(b);
      assert last <= final && final <= last;
      IncreasingUnique(front, other);
    }
  }

  lemma IncreasingSize(ids: seq<int>)
    requires Increasing(ids)
    ensures |Elems(ids)| == |ids|
    decreases |ids|
  {
    if ids != [] {
      var front, last := IncreasingFront(ids);
      IncreasingSize(front);
    } else {
      ElemsEmpty(ids);
    }
  }

  lemma WholeFraction(a: int, b: int)
    requires b > 0
    ensures a as real / b as real == 1.0 <==> a == b
  {
    if a as real / b as real == 1.0 {
      assert a as real == (a as real / b as real) * b as real;
    }
  }

  // ----- Maps from identifiers, as Go keeps them

  /** The set of identifiers, which a map without values stands for. */
  method CollectIds(list: seq<int>) returns (seen: set<int>)
    ensures seen == Elems(list)
  {
    seen := {};
    for i := 0 to |list|
      invariant seen == Elems(list[..i])
    {
      ElemsUpTo(list, i);
      seen := seen + {list[i]};
    }
    assert list[..|list|] == list;
  }

  /** Ranging over a map gives its keys in any order. */
  method ListInAnyOrder(members: set<int>) returns (list: seq<int>)
    ensures Elems(list) == members && |list| == |members|
  {
    list := [];
    var rest := members;
    while rest != {}
      invariant rest <= members && Elems(list) == members - rest && |members - rest| == |list|
      decreases rest
    {
      ghost var some := Element(rest);
      var id :| id in rest;
      ElemsAppend(list, [id]);
      assert Elems([id]) == {id};
      assert members - (rest - {id}) == (members - rest) + {id};
      list := list + [id];
      rest := rest - {id};
    }
    assert members - {} == members;
  }

  /** The position of every identifier, in 32 bits. */
  method IndexMap(ids: seq<int>) returns (index: map<int, int>)
    requires Increasing(ids) && |ids| <= 0x8000_0000
    ensures index.Keys == Elems(ids)
    ensures forall i :: 0 <= i < |ids| ==> ids[i] in index && index[ids[i]] == i
  {
    index := map[];
    for i := 0 to |ids|
      invariant index.Keys == Elems(ids[..i])
      invariant forall j :: 0 <= j < i ==> ids[j] in index && index[ids[j]] == j
    {
      assert Int32(i) == i;
      assert ids[..i + 1] == ids[..i] + [ids[i]];
      index := index[ids[i] := Int32(i)];
    }
    assert ids[..|ids|] == ids;
  }
}
