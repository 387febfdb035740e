/** The in-place integer sort the median filter applies to its nine samples (`Array.Sort`),
    and the sorted order as a function, so that "the 5th smallest sample" has one meaning
    whichever correct sort produced it. */
module Sorting {

  predicate Sorted(s: seq<int>) {
    forall i, j :: 0 <= i < j < |s| ==> s[i] <= s[j]
  }

  /** `x` placed before the first element of `s` that is not smaller. */
  function Insert(x: int, s: seq<int>): seq<int> {
    if |s| == 0 || x <= s[0] then [x] + s else [s[0]] + Insert(x, s[1..])
  }

  /** `s` in ascending order. */
  function SortSeq(s: seq<int>): seq<int> {
    if |s| == 0 then [] else Insert(s[0], SortSeq(s[1..]))
  }

  /** Inserting keeps every element and adds `x`. */
  lemma {:induction false} InsertElements(x: int, s: seq<int>)
    ensures multiset(Insert(x, s)) == multiset(s) + multiset{x}
    ensures |Insert(x, s)| == |s| + 1
  {
    if |s| > 0 && x > s[0] {
      InsertElements(x, s[1..]);
      assert s == [s[0]] + s[1..];
    }
  }

  /** Every element of `Insert(x, s)` is `x` or an element of `s`. */
  lemma InsertedFrom(x: int, s: seq<int>, k: int)
    requires 0 <= k < |Insert(x, s)|
    ensures Insert(x, s)[k] == x || Insert(x, s)[k] in s
  {
    InsertElements(x, s);
    var t := Insert(x, s);
    assert t[k] in multiset(t);
  }

  /** Inserting into a sorted sequence keeps it sorted. */
  lemma {:induction false} InsertSorted(x: int, s: seq<int>)
    requires Sorted(s)
    ensures Sorted(Insert(x, s))
  {
    if |s| > 0 && x > s[0] {
      var tail := s[1..];
      InsertSorted(x, tail);
      var t := Insert(x, tail);
      assert Insert(x, s) == [s[0]] + t;
      forall k | 0 <= k < |t|
        ensures s[0] <= t[k]
      {
        InsertedFrom(x, tail, k);
      }
    }
  }

  /** The functional sort orders its input and keeps every element. */
  lemma {:induction false} SortSeqSpec(s: seq<int>)
    ensures Sorted(SortSeq(s))
    ensures multiset(SortSeq(s)) == multiset(s)
    ensures |SortSeq(s)| == |s|
  {
    if |s| > 0 {
      SortSeqSpec(s[1..]);
      InsertSorted(s[0], SortSeq(s[1..]));
      InsertElements(s[0], SortSeq(s[1..]));
      assert s == [s[0]] + s[1..];
    }
  }

  /** Two sorted sequences holding the same elements are the same sequence: every correct
      sort of the samples gives the same array. */
  lemma {:induction false} SortedUnique(s: seq<int>, t: seq<int>)
    requires Sorted(s) && Sorted(t)
    requires multiset(s) == multiset(t)
    ensures s == t
  {
    assert |t| == |multiset(t)| == |s|;
    if |s| > 0 {
      HeadIsLeast(s, t[0]);
      HeadIsLeast(t, s[0]);
      assert s[0] == t[0];
      assert s == [s[0]] + s[1..];
      assert t == [t[0]] + t[1..];
      assert multiset(s) == multiset{s[0]} + multiset(s[1..]);
      assert multiset(t) == multiset{t[0]} + multiset(t[1..]);
      assert multiset(s[1..]) == multiset(s) - multiset{s[0]} == multiset(t[1..]);
      SortedUnique(s[1..], t[1..]);
    }
  }

  /** No element of a sorted sequence is below its head. */
  lemma HeadIsLeast(s: seq<int>, v: int)
    requires Sorted(s) && v in multiset(s)
    ensures |s| > 0 && s[0] <= v
  {
    var i :| 0 <= i < |s| && s[i] == v;
  }

  /** Placing `key` between the entries of a sorted `p` that are not above it and those that
      are keeps the sequence sorted. */
  lemma PlaceSorted(p: seq<int>, j: int, key: int)
    requires Sorted(p) && 0 <= j <= |p|
    requires j == 0 || p[j - 1] <= key
    requires forall l :: j <= l < |p| ==> key < p[l]
    ensures Sorted(p[..j] + [key] + p[j..])
  {
    var q := p[..j] + [key] + p[j..];
    forall k, l | 0 <= k < l < |q|
      ensures q[k] <= q[l]
    {
      if l < j {
        assert q[k] == p[k] && q[l] == p[l];
      } else if l == j {
        assert q[k] == p[k] && p[k] <= p[j - 1];
      } else if k < j {
        assert q[k] == p[k] && q[l] == p[l - 1];
      } else if k == j {
        assert q[l] == p[l - 1];
      } else {
        assert q[k] == p[k - 1] && q[l] == p[l - 1];
      }
    }
  }

  /** Sorts `a` in place by insertion: the effect of `Array.Sort` on an `int[]`. */
  method SortInPlace(a: array<int>)
    modifies a
    ensures a[..] == SortSeq(old(a[..]))
  {
    var i := 0;
    while i < a.Length
      invariant 0 <= i <= a.Length
      invariant Sorted(a[..i])
      invariant multiset(a[..]) == old(multiset(a[..]))
    {
      SinkLast(a, i);
      i := i + 1;
    }
    assert a[..a.Length] == a[..];
    SortSeqSpec(old(a[..]));
    SortedUnique(a[..], SortSeq(old(a[..])));
  }

  /** One insertion step: shifts the entries of the sorted prefix that exceed `a[i]` one place
      right and drops `a[i]` into the gap. */
  method SinkLast(a: array<int>, i: int)
    requires 0 <= i < a.Length && Sorted(a[..i])
    modifies a
    ensures Sorted(a[..i + 1])
    ensures multiset(a[..]) == old(multiset(a[..]))
  {
    ghost var s0 := a[..];
    var key := a[i];
    var j := i;
    while j > 0 && a[j - 1] > key
      invariant 0 <= j <= i
      invariant forall k :: 0 <= k < j ==> a[k] == s0[k]
      invariant forall k :: j < k <= i ==> a[k] == s0[k - 1]
      invariant forall k :: i < k < a.Length ==> a[k] == s0[k]
      invariant forall k :: j <= k < i ==> key < s0[k]
    {
      a[j] := a[j - 1];
      j := j - 1;
    }
    a[j] := key;
    ShiftedIsPlaced(s0, a[..], i, j);
  }

  /** The array SinkLast leaves, described cell by cell, is the sorted prefix with `s0[i]`
      placed at `j`, and holds the same elements as before. */
  lemma ShiftedIsPlaced(s0: seq<int>, s1: seq<int>, i: int, j: int)
    requires |s1| == |s0| && 0 <= j <= i < |s0| && Sorted(s0[..i])
    requires forall k :: 0 <= k < j ==> s1[k] == s0[k]
    requires s1[j] == s0[i]
    requires forall k :: j < k <= i ==> s1[k] == s0[k - 1]
    requires forall k :: i < k < |s0| ==> s1[k] == s0[k]
    requires j == 0 || s0[j - 1] <= s0[i]
    requires forall k :: j <= k < i ==> s0[i] < s0[k]
    ensures Sorted(s1[..i + 1])
    ensures multiset(s1) == multiset(s0)
  {
    var p, key := s0[..i], s0[i];
    ShiftedPrefix(s0, s1, i, j);
    PlaceSorted(p, j, key);
    assert s1 == s1[..i + 1] + s0[i + 1..];
    assert s0 == p + [key] + s0[i + 1..];
    PlacedElements(p, j, key, s0[i + 1..]);
  }

  lemma ShiftedPrefix(s0: seq<int>, s1: seq<int>, i: int, j: int)
    requires |s1| == |s0| && 0 <= j <= i < |s0|
    requires forall k :: 0 <= k < j ==> s1[k] == s0[k]
    requires s1[j] == s0[i]
    requires forall k :: j < k <= i ==> s1[k] == s0[k - 1]
    ensures s1[..i + 1] == s0[..i][..j] + [s0[i]] + s0[..i][j..]
  {
    var p := s0[..i];
    var q := p[..j] + [s0[i]] + p[j..];
    forall k | 0 <= k <= i
      ensures s1[k] == q[k]
    {
      if k < j {
        assert q[k] == p[k];
      } else if j < k {
        assert q[k] == p[k - 1];
      }
    }
  }

  /** Placing `key` anywhere among the elements of `p` gives the same elements. */
  lemma PlacedElements(p: seq<int>, j: int, key: int, rest: seq<int>)
    requires 0 <= j <= |p|
    ensures multiset(p[..j] + [key] + p[j..] + rest) == multiset(p + [key] + rest)
  {
    assert p == p[..j] + p[j..];
  }
}
