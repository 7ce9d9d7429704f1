/** Heap sort over the implicit binary tree stored in the vector (children of
    node i at 2i + 1 and 2i + 2), written exactly as the source has it: the
    leaf test treats a node without a right child as a leaf, and a child is
    exchanged with its parent only when it is strictly greater than both the
    parent and its sibling.  The functions give the value each procedure
    leaves in the vector; the methods are the in-place procedures, proved to
    produce those values. */
module HeapSort {
  import opened Ranges
  import opened MVectors

  /** The vector after sifting down from node `i` over the first `n`
      positions: try the left child, then, on the vector that leaves, the
      right child. */
  function SiftDown(s: seq<int>, i: nat, n: int): (r: seq<int>)
    requires n <= |s|
    ensures |r| == |s|
    decreases n - i, 2
  {
    if MVector.IsLeaf(i, n) then s else SiftRight(SiftLeft(s, i, n), i, n)
  }

  /** The left-child step at a node with two children: when the left child
      exceeds the parent and the right child, exchange it with the parent
      and sift down from it. */
  function SiftLeft(s: seq<int>, i: nat, n: int): (r: seq<int>)
    requires n <= |s| && !MVector.IsLeaf(i, n)
    ensures |r| == |s|
    decreases n - i, 1
  {
    var left, right := 2 * i + 1, 2 * i + 2;
    if s[i] < s[left] && s[left] > s[right] then SiftDown(Swapped(s, i, left), left, n) else s
  }

  /** The right-child step, the mirror image of SiftLeft. */
  function SiftRight(s: seq<int>, i: nat, n: int): (r: seq<int>)
    requires n <= |s| && !MVector.IsLeaf(i, n)
    ensures |r| == |s|
    decreases n - i, 1
  {
    var left, right := 2 * i + 1, 2 * i + 2;
    if s[i] < s[right] && s[right] > s[left] then SiftDown(Swapped(s, i, right), right, n) else s
  }

  /** Sifting down from `i` only rearranges positions [i, n). */
  lemma {:induction false} SiftDownPermutes(s: seq<int>, i: nat, n: int)
    requires n <= |s| && i < n
    ensures PermutedIn(SiftDown(s, i, n), s, i, n)
    decreases n - i, 2
  {
    if !MVector.IsLeaf(i, n) {
      SiftStepPermutes(s, i, n);
      SiftStepPermutes(SiftLeft(s, i, n), i, n);
      PermutedInTrans(SiftDown(s, i, n), SiftLeft(s, i, n), s, i, n);
    }
  }

  /** Each child step only rearranges positions [i, n). */
  lemma {:induction false} SiftStepPermutes(s: seq<int>, i: nat, n: int)
    requires n <= |s| && !MVector.IsLeaf(i, n)
    ensures PermutedIn(SiftLeft(s, i, n), s, i, n)
    ensures PermutedIn(SiftRight(s, i, n), s, i, n)
    decreases n - i, 1
  {
    var left, right := 2 * i + 1, 2 * i + 2;
    PermutedInRefl(s, i, n);
    if s[i] < s[left] && s[left] > s[right] {
      SwapPermutedIn(s, i, n, i, left);
      SiftDownPermutes(Swapped(s, i, left), left, n);
      PermutedInWiden(SiftLeft(s, i, n), Swapped(s, i, left), left, n, i, n);
    }
    if s[i] < s[right] && s[right] > s[left] {
      SwapPermutedIn(s, i, n, i, right);
      SiftDownPermutes(Swapped(s, i, right), right, n);
      PermutedInWiden(SiftRight(s, i, n), Swapped(s, i, right), right, n, i, n);
    }
  }

  /** Two equal children never move, whether or not they exceed the parent:
      neither is strictly greater than its sibling. */
  lemma EqualChildrenStay(s: seq<int>, i: nat, n: int)
    requires n <= |s| && !MVector.IsLeaf(i, n) && s[2 * i + 1] == s[2 * i + 2]
    ensures SiftDown(s, i, n) == s
  {
  }

  /** The vector after sifting down from nodes i, i - 1, ..., 0 in turn. */
  function BuildHeap(s: seq<int>, i: int, n: int): (r: seq<int>)
    requires n <= |s|
    ensures |r| == |s|
    decreases i
  {
    if i < 0 then s else BuildHeap(SiftDown(s, i, n), i - 1, n)
  }

  /** Building only rearranges the first `n` positions. */
  lemma {:induction false} BuildHeapPermutes(s: seq<int>, i: int, n: int)
    requires 0 <= n <= |s|
    ensures PermutedIn(BuildHeap(s, i, n), s, 0, n)
    decreases i
  {
    if i >= 0 {
      var s1 := SiftDown(s, i, n);
      if i < n {
        SiftDownPermutes(s, i, n);
        PermutedInWiden(s1, s, i, n, 0, n);
      } else {
        PermutedInRefl(s, 0, n);
      }
      BuildHeapPermutes(s1, i - 1, n);
      PermutedInTrans(BuildHeap(s, i, n), s1, s, 0, n);
    }
  }

  /** The vector after the extraction steps for i, i - 1, ..., 0: move the
      root to position i, then sift down from the root over [0, i). */
  function ExtractAll(s: seq<int>, i: int): (r: seq<int>)
    requires i < |s|
    ensures |r| == |s|
    decreases i
  {
    if i < 0 then s else ExtractAll(SiftDown(Swapped(s, i, 0), 0, i), i - 1)
  }

  /** Extraction only rearranges the first i + 1 positions. */
  lemma {:induction false} ExtractAllPermutes(s: seq<int>, i: int)
    requires -1 <= i < |s|
    ensures PermutedIn(ExtractAll(s, i), s, 0, i + 1)
    decreases i
  {
    if i >= 0 {
      var t := Swapped(s, i, 0);
      var s1 := SiftDown(t, 0, i);
      SwapPermutedIn(s, 0, i + 1, i, 0);
      if 0 < i {
        SiftDownPermutes(t, 0, i);
      } else {
        PermutedInRefl(t, 0, i);
      }
      PermutedInWiden(s1, t, 0, i, 0, i + 1);
      PermutedInTrans(s1, t, s, 0, i + 1);
      ExtractAllPermutes(s1, i - 1);
      PermutedInWiden(ExtractAll(s, i), s1, 0, i, 0, i + 1);
      PermutedInTrans(ExtractAll(s, i), s1, s, 0, i + 1);
    }
  }

  /** What `heap` leaves in the vector: build over all n positions (starting
      at node n), then extract for i = n - 1 down to 0. */
  function HeapResult(s: seq<int>): (r: seq<int>)
  {
    ExtractAll(BuildHeap(s, |s|, |s|), |s| - 1)
  }

  /** `heap` returns a rearrangement of its input. */
  lemma HeapResultPermutes(s: seq<int>)
    ensures multiset(HeapResult(s)) == multiset(s)
  {
    BuildHeapPermutes(s, |s|, |s|);
    ExtractAllPermutes(BuildHeap(s, |s|, |s|), |s| - 1);
  }

  /** What `heap1` leaves in the vector from pass `j` on: each pass rebuilds
      the heap over the first n - j positions from node n - j - 1 down and
      then moves the root to position n - j - 1. */
  function Heap1From(s: seq<int>, j: nat): (r: seq<int>)
    ensures |r| == |s|
    decreases |s| - j
  {
    if j >= |s| then s
    else Heap1From(Swapped(BuildHeap(s, |s| - (j + 1), |s| - j), |s| - (j + 1), 0), j + 1)
  }

  /** The passes of `heap1` rearrange the vector. */
  lemma {:induction false} Heap1FromPermutes(s: seq<int>, j: nat)
    ensures multiset(Heap1From(s, j)) == multiset(s)
    decreases |s| - j
  {
    if j < |s| {
      var n := |s| - j;
      var built := BuildHeap(s, n - 1, n);
      var t := Swapped(built, n - 1, 0);
      assert Heap1From(s, j) == Heap1From(t, j + 1);
      calc {
        multiset(Heap1From(t, j + 1));
        { Heap1FromPermutes(t, j + 1); }
        multiset(t);
        { SwappedPermutes(built, n - 1, 0); }
        multiset(built);
        { BuildHeapPermutes(s, n - 1, n); }
        multiset(s);
      }
    }
  }

  /** heap_from_root: sift down from node `i` over the first `n` positions.
      The two child tests of the source are the methods LeftChildStep and
      RightChildStep, run one after the other on a node that is no leaf. */
  method HeapFromRoot(m: MVector, i: int, n: int)
    requires 0 <= i && n <= |m.v|
    modifies m
    ensures m.v == SiftDown(old(m.v), i, n)
    ensures i < n ==> PermutedIn(m.v, old(m.v), i, n)
    ensures i >= n ==> m.v == old(m.v)
    decreases n - i, 1
  {
    if i < n {
      SiftDownPermutes(m.v, i, n);
    }
    if !MVector.IsLeaf(i, n) {
      LeftChildStep(m, i, n);
      RightChildStep(m, i, n);
    }
  }

  /** The left-child test of heap_from_root. */
  method LeftChildStep(m: MVector, i: int, n: int)
    requires 0 <= i && n <= |m.v| && !MVector.IsLeaf(i, n)
    modifies m
    ensures m.v == SiftLeft(old(m.v), i, n)
    decreases n - i, 0
  {
    if m.Get(i) < m.Get(2 * i + 1) && m.Get(2 * i + 1) > m.Get(2 * i + 2) {
      m.Swap(i, 2 * i + 1);
      HeapFromRoot(m, 2 * i + 1, n);
    }
  }

  /** The right-child test of heap_from_root, on the vector the left-child
      test leaves. */
  method RightChildStep(m: MVector, i: int, n: int)
    requires 0 <= i && n <= |m.v| && !MVector.IsLeaf(i, n)
    modifies m
    ensures m.v == SiftRight(old(m.v), i, n)
    decreases n - i, 0
  {
    if m.Get(i) < m.Get(2 * i + 2) && m.Get(2 * i + 2) > m.Get(2 * i + 1) {
      m.Swap(i, 2 * i + 2);
      HeapFromRoot(m, 2 * i + 2, n);
    }
  }

  /** heap: build the heap from node n down to 0, then repeatedly move the
      root to position i (i = n - 1, ..., 0) and sift down over [0, i). */
  method Heap(m: MVector)
    modifies m
    ensures m.v == HeapResult(old(m.v))
    ensures multiset(m.v) == multiset(old(m.v))
  {
    ghost var built := BuildHeap(old(m.v), |old(m.v)|, |old(m.v)|);
    var i := m.Size();
    while i >= 0
      invariant -1 <= i <= |old(m.v)| && |m.v| == |old(m.v)|
      invariant BuildHeap(m.v, i, |m.v|) == built
    {
      HeapFromRoot(m, i, m.Size());
      i := i - 1;
    }
    i := m.Size() - 1;
    while i >= 0
      invariant -1 <= i < |m.v| && |m.v| == |old(m.v)|
      invariant ExtractAll(m.v, i) == HeapResult(old(m.v))
    {
      m.Swap(i, 0);
      HeapFromRoot(m, 0, i);
      i := i - 1;
    }
    HeapResultPermutes(old(m.v));
  }

  /** heap1: for each pass j, rebuild the heap over the first n - j
      positions from scratch and move its root to position n - j - 1. */
  method Heap1(m: MVector)
    modifies m
    ensures m.v == Heap1From(old(m.v), 0)
    ensures multiset(m.v) == multiset(old(m.v))
  {
    for j := 0 to m.Size()
      invariant |m.v| == |old(m.v)|
      invariant Heap1From(m.v, j) == Heap1From(old(m.v), 0)
    {
      ghost var pass := m.v;
      var i := m.Size() - (j + 1);
      while i >= 0
        invariant -1 <= i < |m.v| && |m.v| == |old(m.v)|
        invariant BuildHeap(m.v, i, |m.v| - j) == BuildHeap(pass, |m.v| - (j + 1), |m.v| - j)
      {
        HeapFromRoot(m, i, m.Size() - j);
        i := i - 1;
      }
      m.Swap(m.Size() - (j + 1), 0);
    }
    Heap1FromPermutes(old(m.v), 0);
  }
}
