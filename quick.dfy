/** Quicksort with a randomly chosen pivot: partition the range, then sort
    the parts on either side of the pivot recursively. */
module QuickSort {
  import opened Ranges
  import opened MVectors

  /** Sorts the elements at positions [start, end] in place and leaves every
      other position alone.  A range with `start >= end` (empty or a single
      element) is left as it is, whatever its bounds; otherwise both ends must
      be valid indices.  `rand()` is an arbitrary draw in [0, RandMax]. */
  method QuickRecursive(m: MVector, start: int, end: int)
    requires start < end ==> 0 <= start && end < |m.v|
    modifies m
    ensures start < end ==> PermutedIn(m.v, old(m.v), start, end + 1) && SortedIn(m.v, start, end + 1)
    ensures start >= end ==> m.v == old(m.v)
    decreases end - start
  {
    if start < end {
      var r :| 0 <= r <= RandMax;
      var index := m.RandomPartition(start, end, r);
      ghost var v1 := m.v;
      QuickRecursive(m, start, index - 1);
      ghost var v2 := m.v;
      QuickRecursive(m, index + 1, end);
      // a recursive call on fewer than two elements changes nothing
      if start >= index - 1 {
        PermutedInRefl(v2, start, index);
      }
      if index + 1 >= end {
        PermutedInRefl(m.v, index + 1, end + 1);
      }
      SortedAroundPivot(old(m.v), v1, v2, m.v, start, index, end + 1);
    }
  }

  /** Sorting the two sides of a partitioned range separately sorts the
      whole range, and the three rearrangements compose to one. */
  lemma SortedAroundPivot(v0: seq<int>, v1: seq<int>, v2: seq<int>, v3: seq<int>, lo: int, p: int, hi: int)
    requires 0 <= lo <= p < hi <= |v0|
    requires PermutedIn(v1, v0, lo, hi)
    requires forall k :: lo <= k < p ==> v1[k] <= v1[p]
    requires forall k :: p < k < hi ==> v1[k] > v1[p]
    requires PermutedIn(v2, v1, lo, p) && SortedIn(v2, lo, p)
    requires PermutedIn(v3, v2, p + 1, hi) && SortedIn(v3, p + 1, hi)
    ensures PermutedIn(v3, v0, lo, hi) && SortedIn(v3, lo, hi)
  {
    PermutedKeepsUpper(v2, v1, lo, p, v1[p]);
    PermutedKeepsLower(v3, v2, p + 1, hi, v1[p]);
    JoinAroundPivot(v3, lo, p, hi);
    PermutedInWiden(v2, v1, lo, p, lo, hi);
    PermutedInWiden(v3, v2, p + 1, hi, lo, hi);
    PermutedInTrans(v3, v2, v1, lo, hi);
    PermutedInTrans(v3, v1, v0, lo, hi);
  }

  /** Two sorted parts on either side of a pivot, the left one no greater
      and the right one greater than it, make a sorted range. */
  lemma JoinAroundPivot(s: seq<int>, lo: int, p: int, hi: int)
    requires 0 <= lo <= p < hi <= |s|
    requires SortedIn(s, lo, p) && SortedIn(s, p + 1, hi)
    requires forall k :: lo <= k < p ==> s[k] <= s[p]
    requires forall k :: p < k < hi ==> s[k] > s[p]
    ensures SortedIn(s, lo, hi)
  {
  }

  /** Sorts the whole vector: the range [0, size - 1], which for an empty
      vector is (0, -1) and does nothing. */
  method Quick(m: MVector)
    modifies m
    ensures Sorted(m.v)
    ensures multiset(m.v) == multiset(old(m.v))
    ensures Sorted(old(m.v)) ==> m.v == old(m.v)
    ensures |old(m.v)| <= 1 ==> m.v == old(m.v)
  {
    QuickRecursive(m, 0, m.Size() - 1);
    if |m.v| <= 1 {
      assert m.v == old(m.v);
    }
    if Sorted(old(m.v)) {
      SortedUnique(m.v, old(m.v));
    }
  }
}
