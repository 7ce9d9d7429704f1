/** Heap sort as the comments of the heap procedures describe it: a node is a
    leaf only when it has no child inside the heap, and sifting down exchanges
    a node with its larger child whenever that child is greater.  Proved to
    sort, which the literal procedures do not. */
module HeapSortCorrected {
  import opened Ranges
  import opened MVectors

  /** Every parent in [lo, n) is at least each of its children inside [0, n). */
  ghost predicate HeapIn(s: seq<int>, lo: int, n: int)
    requires n <= |s|
  {
    (forall p :: lo <= p && 0 <= p && 2 * p + 1 < n ==> s[p] >= s[2 * p + 1]) &&
    (forall p :: lo <= p && 0 <= p && 2 * p + 2 < n ==> s[p] >= s[2 * p + 2])
  }

  /** HeapIn with the edges from node `i` to its children left unchecked. */
  ghost predicate HeapExceptAt(s: seq<int>, lo: int, i: int, n: int)
    requires n <= |s|
  {
    (forall p :: lo <= p && 0 <= p && p != i && 2 * p + 1 < n ==> s[p] >= s[2 * p + 1]) &&
    (forall p :: lo <= p && 0 <= p && p != i && 2 * p + 2 < n ==> s[p] >= s[2 * p + 2])
  }

  /** The parent of `i`, when it is in [lo, n), is at least the children of `i`. */
  ghost predicate ParentCoversChildren(s: seq<int>, lo: int, i: int, n: int)
    requires 0 <= i && n <= |s|
  {
    forall p :: lo <= p && 0 <= p && (2 * p + 1 == i || 2 * p + 2 == i) ==>
      (2 * i + 1 < n ==> s[p] >= s[2 * i + 1]) && (2 * i + 2 < n ==> s[p] >= s[2 * i + 2])
  }

  /** The child of `i` that a sift would move up: the right one only when it
      exists and is greater than the left one. */
  function LargerChild(s: seq<int>, i: nat, n: int): (c: nat)
    requires 2 * i + 1 < n <= |s|
    ensures c == 2 * i + 1 || c == 2 * i + 2
    ensures c < n && s[c] >= s[2 * i + 1] && (2 * i + 2 < n ==> s[c] >= s[2 * i + 2])
  {
    if 2 * i + 2 < n && s[2 * i + 2] > s[2 * i + 1] then 2 * i + 2 else 2 * i + 1
  }

  /** Sift down from `i` over the first `n` positions. */
  function Sift(s: seq<int>, i: nat, n: int): (r: seq<int>)
    requires n <= |s|
    ensures |r| == |s|
    decreases n - i
  {
    if 2 * i + 1 >= n then s
    else
      var c := LargerChild(s, i, n);
      if s[i] < s[c] then Sift(Swapped(s, i, c), c, n) else s
  }

  /** Sifting down from `i` only rearranges positions [i, n). */
  lemma {:induction false} SiftPermutes(s: seq<int>, i: nat, n: int)
    requires i < n <= |s|
    ensures PermutedIn(Sift(s, i, n), s, i, n)
    decreases n - i
  {
    if 2 * i + 1 < n && s[i] < s[LargerChild(s, i, n)] {
      var c := LargerChild(s, i, n);
      var t := Swapped(s, i, c);
      SiftPermutes(t, c, n);
      SwapPermutedIn(s, i, n, i, c);
      PermutedInWiden(Sift(t, c, n), t, c, n, i, n);
      PermutedInTrans(Sift(t, c, n), t, s, i, n);
    } else {
      PermutedInRefl(s, i, n);
    }
  }

  /** Sifting down repairs the single faulty node `i` of a heap over [lo, n). */
  lemma {:induction false} SiftRepairs(s: seq<int>, lo: int, i: nat, n: int)
    requires 0 <= lo <= i < n <= |s|
    requires HeapExceptAt(s, lo, i, n) && ParentCoversChildren(s, lo, i, n)
    ensures HeapIn(Sift(s, i, n), lo, n)
    decreases n - i
  {
    if 2 * i + 1 < n && s[i] < s[LargerChild(s, i, n)] {
      var c := LargerChild(s, i, n);
      SwapMovesFault(s, lo, i, n);
      SiftRepairs(Swapped(s, i, c), lo, c, n);
    } else if 2 * i + 1 < n {
      // the node already covers its children, so nothing is faulty
      assert s[i] >= s[2 * i + 1] && (2 * i + 2 < n ==> s[i] >= s[2 * i + 2]);
    }
  }

  /** Exchanging a faulty node with its larger child, when that child is
      greater, moves the fault down to the child's position. */
  lemma SwapMovesFault(s: seq<int>, lo: int, i: nat, n: int)
    requires 0 <= lo <= i && 2 * i + 1 < n <= |s|
    requires HeapExceptAt(s, lo, i, n) && ParentCoversChildren(s, lo, i, n)
    requires s[i] < s[LargerChild(s, i, n)]
    ensures var c := LargerChild(s, i, n);
      HeapExceptAt(Swapped(s, i, c), lo, c, n) && ParentCoversChildren(Swapped(s, i, c), lo, c, n)
  {
    var c := LargerChild(s, i, n);
    var t := Swapped(s, i, c);
    forall p | lo <= p && 0 <= p && p != c && 2 * p + 1 < n
      ensures t[p] >= t[2 * p + 1]
    {
      if p != i && 2 * p + 1 != i {
        assert t[p] == s[p] && t[2 * p + 1] == s[2 * p + 1];
      }
    }
    forall p | lo <= p && 0 <= p && p != c && 2 * p + 2 < n
      ensures t[p] >= t[2 * p + 2]
    {
      if p != i && 2 * p + 2 != i {
        assert t[p] == s[p] && t[2 * p + 2] == s[2 * p + 2];
      }
    }
    assert ParentCoversChildren(t, lo, c, n);
  }

  /** The root of a heap over [0, n) is at least every element of it. */
  lemma {:induction false} RootIsMax(s: seq<int>, n: int, k: int)
    requires n <= |s| && HeapIn(s, 0, n) && 0 <= k < n
    ensures s[0] >= s[k]
    decreases k
  {
    if k > 0 {
      var p := (k - 1) / 2;
      RootIsMax(s, n, p);
      assert 2 * p + 1 == k || 2 * p + 2 == k;
    }
  }

  /** Sift down from nodes i, i - 1, ..., 0 in turn. */
  function Build(s: seq<int>, i: int, n: int): (r: seq<int>)
    requires n <= |s|
    ensures |r| == |s|
    decreases i
  {
    if i < 0 then s else Build(Sift(s, i, n), i - 1, n)
  }

  /** Building from node `i` down, over a range already a heap above `i`,
      gives a heap over [0, n) with the same values. */
  lemma {:induction false} BuildMakesHeap(s: seq<int>, i: int, n: int)
    requires 0 <= n <= |s| && HeapIn(s, i + 1, n)
    ensures HeapIn(Build(s, i, n), 0, n)
    ensures PermutedIn(Build(s, i, n), s, 0, n)
    decreases i
  {
    if i < 0 {
      PermutedInRefl(s, 0, n);
    } else {
      var s1 := Sift(s, i, n);
      if i < n {
        SiftRepairs(s, i, i, n);
        SiftPermutes(s, i, n);
        PermutedInWiden(s1, s, i, n, 0, n);
      } else {
        PermutedInRefl(s, 0, n);
      }
      BuildMakesHeap(s1, i - 1, n);
      PermutedInTrans(Build(s, i, n), s1, s, 0, n);
    }
  }

  /** The extraction steps for i, i - 1, ..., 0: move the root to position
      `i`, then sift down from the root over [0, i). */
  function Extract(s: seq<int>, i: int): (r: seq<int>)
    requires i < |s|
    ensures |r| == |s|
    decreases i
  {
    if i < 0 then s else Extract(Sift(Swapped(s, i, 0), 0, i), i - 1)
  }

  /** Moving the root of a heap over [0, i] to position `i` and sifting
      down from the root leaves a heap over [0, i) with the same values. */
  lemma ExtractKeepsHeap(s: seq<int>, i: int)
    requires 0 <= i < |s| && HeapIn(s, 0, i + 1)
    ensures var r := Sift(Swapped(s, i, 0), 0, i);
      HeapIn(r, 0, i) && PermutedIn(r, s, 0, i + 1) && r[i] == s[0]
  {
    var t := Swapped(s, i, 0);
    var r := Sift(t, 0, i);
    if 0 < i {
      assert HeapExceptAt(t, 0, 0, i);
      SiftRepairs(t, 0, 0, i);
      SiftPermutes(t, 0, i);
    } else {
      PermutedInRefl(t, 0, i);
    }
    SwapPermutedIn(s, 0, i + 1, i, 0);
    PermutedInWiden(r, t, 0, i, 0, i + 1);
    PermutedInTrans(r, t, s, 0, i + 1);
  }

  /** One extraction step from a heap over [0, i] whose elements are at most
      the sorted suffix from i + 1: the heap shrinks to [0, i) and the sorted
      suffix grows to start at `i`. */
  lemma ExtractStep(s: seq<int>, i: int)
    requires 0 <= i < |s| && HeapIn(s, 0, i + 1) && SortedIn(s, i + 1, |s|)
    requires forall p, q :: 0 <= p <= i < q < |s| ==> s[p] <= s[q]
    ensures var r := Sift(Swapped(s, i, 0), 0, i);
      HeapIn(r, 0, i) && SortedIn(r, i, |s|) &&
      (forall p, q :: 0 <= p < i <= q < |s| ==> r[p] <= r[q]) &&
      PermutedIn(r, s, 0, i + 1)
  {
    var r := Sift(Swapped(s, i, 0), 0, i);
    forall k | 0 <= k <= i
      ensures s[k] <= s[0]
    {
      RootIsMax(s, i + 1, k);
    }
    ExtractKeepsHeap(s, i);
    PermutedKeepsUpper(r, s, 0, i + 1, s[0]);
  }

  /** The extraction steps sort a heap whose elements are at most the sorted
      suffix after it. */
  lemma {:induction false} ExtractSorts(s: seq<int>, i: int)
    requires -1 <= i < |s| && HeapIn(s, 0, i + 1) && SortedIn(s, i + 1, |s|)
    requires forall p, q :: 0 <= p <= i < q < |s| ==> s[p] <= s[q]
    ensures Sorted(Extract(s, i))
    ensures PermutedIn(Extract(s, i), s, 0, i + 1)
    decreases i
  {
    if i < 0 {
      PermutedInRefl(s, 0, 0);
    } else {
      var r := Sift(Swapped(s, i, 0), 0, i);
      ExtractStep(s, i);
      ExtractSorts(r, i - 1);
      PermutedInWiden(Extract(s, i), r, 0, i, 0, i + 1);
      PermutedInTrans(Extract(s, i), r, s, 0, i + 1);
    }
  }

  /** Corrected heap sort: build over all n positions, then extract. */
  function HeapSorted(s: seq<int>): (r: seq<int>)
  {
    Extract(Build(s, |s|, |s|), |s| - 1)
  }

  /** The corrected heap sort returns its input in non-decreasing order. */
  lemma HeapSortedSorts(s: seq<int>)
    ensures Sorted(HeapSorted(s))
    ensures multiset(HeapSorted(s)) == multiset(s)
  {
    BuildMakesHeap(s, |s|, |s|);
    ExtractSorts(Build(s, |s|, |s|), |s| - 1);
  }

  /** An input already in order comes out unchanged. */
  lemma HeapSortedKeepsSorted(s: seq<int>)
    requires Sorted(s)
    ensures HeapSorted(s) == s
  {
    HeapSortedSorts(s);
    SortedUnique(HeapSorted(s), s);
  }

  /** heap_from_root with the corrected leaf test and child choice. */
  method SiftDown(m: MVector, i: int, n: int)
    requires 0 <= i && n <= |m.v|
    modifies m
    ensures m.v == Sift(old(m.v), i, n)
    decreases n - i
  {
    if 2 * i + 1 < n {
      var c := 2 * i + 1;
      if 2 * i + 2 < n && m.Get(2 * i + 2) > m.Get(2 * i + 1) {
        c := 2 * i + 2;
      }
      if m.Get(i) < m.Get(c) {
        m.Swap(i, c);
        SiftDown(m, c, n);
      }
    }
  }

  /** heap with the corrected sift: leaves the vector sorted. */
  method Heap(m: MVector)
    modifies m
    ensures m.v == HeapSorted(old(m.v))
    ensures Sorted(m.v)
    ensures multiset(m.v) == multiset(old(m.v))
  {
    var i := m.Size();
    while i >= 0
      invariant -1 <= i <= |old(m.v)| && |m.v| == |old(m.v)|
      invariant Build(m.v, i, |m.v|) == Build(old(m.v), |old(m.v)|, |old(m.v)|)
    {
      SiftDown(m, i, m.Size());
      i := i - 1;
    }
    i := m.Size() - 1;
    while i >= 0
      invariant -1 <= i < |m.v| && |m.v| == |old(m.v)|
      invariant Extract(m.v, i) == HeapSorted(old(m.v))
    {
      m.Swap(i, 0);
      SiftDown(m, 0, i);
      i := i - 1;
    }
    HeapSortedSorts(old(m.v));
  }
}
