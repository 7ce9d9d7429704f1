/** Facts about integer sequences that the sorting algorithms share: the
    exchange of two positions, sortedness of a half-open index range, and
    "rearranged inside a range, untouched outside it". */
module Ranges {

  /** `s` with the elements at positions `i` and `j` exchanged. */
  function Swapped(s: seq<int>, i: int, j: int): (r: seq<int>)
    requires 0 <= i < |s| && 0 <= j < |s|
    ensures |r| == |s| && r[i] == s[j] && r[j] == s[i]
    ensures forall k :: 0 <= k < |s| && k != i && k != j ==> r[k] == s[k]
    ensures i == j ==> r == s
  {
    s[i := s[j]][j := s[i]]
  }

  /** An exchange keeps the values: only their positions change. */
  lemma SwappedPermutes(s: seq<int>, i: int, j: int)
    requires 0 <= i < |s| && 0 <= j < |s|
    ensures multiset(Swapped(s, i, j)) == multiset(s)
  {
  }

  /** Every pair of positions in [lo, hi) is in non-decreasing order. */
  ghost predicate SortedIn(s: seq<int>, lo: int, hi: int)
    requires 0 <= lo <= hi <= |s|
  {
    forall p, q :: lo <= p < q < hi ==> s[p] <= s[q]
  }

  ghost predicate Sorted(s: seq<int>)
  {
    SortedIn(s, 0, |s|)
  }

  /** `a` and `b` have the same length and agree at every index outside [lo, hi). */
  ghost predicate SameOutside(a: seq<int>, b: seq<int>, lo: int, hi: int)
  {
    |a| == |b| && forall k :: 0 <= k < |a| && !(lo <= k < hi) ==> a[k] == b[k]
  }

  /** `a` is `b` with the elements of [lo, hi) rearranged and nothing else
      changed: the two agree outside the range and hold the same values. */
  ghost predicate PermutedIn(a: seq<int>, b: seq<int>, lo: int, hi: int)
  {
    0 <= lo <= hi <= |a| && SameOutside(a, b, lo, hi) && multiset(a) == multiset(b)
  }

  /** Number of elements of `s` that are at most `x`. */
  function CountAtMost(s: seq<int>, x: int): (c: nat)
    ensures c <= |s|
    ensures c == |s| <==> forall k :: 0 <= k < |s| ==> s[k] <= x
  {
    if s == [] then 0
    else CountAtMost(s[..|s| - 1], x) + (if s[|s| - 1] <= x then 1 else 0)
  }

  lemma PermutedInRefl(a: seq<int>, lo: int, hi: int)
    requires 0 <= lo <= hi <= |a|
    ensures PermutedIn(a, a, lo, hi)
  {
  }

  /** The range itself holds the same values before and after. */
  lemma PermutedInSlice(a: seq<int>, b: seq<int>, lo: int, hi: int)
    requires PermutedIn(a, b, lo, hi)
    ensures multiset(a[lo..hi]) == multiset(b[lo..hi])
  {
    assert a == a[..lo] + a[lo..hi] + a[hi..];
    assert b == b[..lo] + b[lo..hi] + b[hi..];
    assert a[..lo] == b[..lo];
    assert a[hi..] == b[hi..];
    assert multiset(a) == multiset(a[..lo]) + multiset(a[lo..hi]) + multiset(a[hi..]);
    assert multiset(b) == multiset(b[..lo]) + multiset(b[lo..hi]) + multiset(b[hi..]);
    assert multiset(a[lo..hi]) == multiset(a) - multiset(a[..lo]) - multiset(a[hi..]);
    assert multiset(b[lo..hi]) == multiset(b) - multiset(b[..lo]) - multiset(b[hi..]);
  }

  lemma PermutedInTrans(a: seq<int>, b: seq<int>, c: seq<int>, lo: int, hi: int)
    requires PermutedIn(a, b, lo, hi) && PermutedIn(b, c, lo, hi)
    ensures PermutedIn(a, c, lo, hi)
  {
  }

  /** A rearrangement of a range is a rearrangement of any range around it. */
  lemma PermutedInWiden(a: seq<int>, b: seq<int>, lo: int, hi: int, lo2: int, hi2: int)
    requires PermutedIn(a, b, lo, hi)
    requires 0 <= lo2 <= lo && hi <= hi2 <= |a|
    ensures PermutedIn(a, b, lo2, hi2)
  {
  }

  /** Exchanging two positions inside [lo, hi) rearranges [lo, hi). */
  lemma SwapPermutedIn(a: seq<int>, lo: int, hi: int, i: int, j: int)
    requires 0 <= lo <= i < hi <= |a| && lo <= j < hi
    ensures PermutedIn(Swapped(a, i, j), a, lo, hi)
  {
  }

  /** An upper bound on every element of a range survives rearranging it. */
  lemma PermutedKeepsUpper(a: seq<int>, b: seq<int>, lo: int, hi: int, x: int)
    requires PermutedIn(a, b, lo, hi)
    requires forall k :: lo <= k < hi ==> b[k] <= x
    ensures forall k :: lo <= k < hi ==> a[k] <= x
  {
    PermutedInSlice(a, b, lo, hi);
    forall k | lo <= k < hi
      ensures a[k] <= x
    {
      assert a[k] == a[lo..hi][k - lo];
      assert a[k] in multiset(b[lo..hi]);
      var k' :| 0 <= k' < hi - lo && b[lo..hi][k'] == a[k];
      assert b[lo + k'] == a[k];
    }
  }

  /** A strict lower bound on every element of a range survives rearranging it. */
  lemma PermutedKeepsLower(a: seq<int>, b: seq<int>, lo: int, hi: int, x: int)
    requires PermutedIn(a, b, lo, hi)
    requires forall k :: lo <= k < hi ==> b[k] > x
    ensures forall k :: lo <= k < hi ==> a[k] > x
  {
    PermutedInSlice(a, b, lo, hi);
    forall k | lo <= k < hi
      ensures a[k] > x
    {
      assert a[k] == a[lo..hi][k - lo];
      assert a[k] in multiset(b[lo..hi]);
      var k' :| 0 <= k' < hi - lo && b[lo..hi][k'] == a[k];
      assert b[lo + k'] == a[k];
    }
  }

  /** A sorted sequence is determined by its multiset of elements: two sorted
      rearrangements of the same values are equal. */
  lemma {:induction false} SortedUnique(a: seq<int>, b: seq<int>)
    requires Sorted(a) && Sorted(b) && multiset(a) == multiset(b)
    ensures a == b
  {
    if a != [] {
      assert |b| == |multiset(b)| == |multiset(a)| == |a|;
      assert a[0] in multiset(b);
      var i :| 0 <= i < |b| && b[i] == a[0];
      assert b[0] in multiset(a);
      var j :| 0 <= j < |a| && a[j] == b[0];
      assert a[0] == b[0];
      assert a == [a[0]] + a[1..];
      assert b == [b[0]] + b[1..];
      assert multiset(a[1..]) == multiset(a) - multiset{a[0]};
      assert multiset(b[1..]) == multiset(b) - multiset{b[0]};
      assert multiset(a[1..]) == multiset(b[1..]);
      SortedUnique(a[1..], b[1..]);
    }
  }
}
