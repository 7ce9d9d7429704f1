/** Worked inputs for the two heap sorts.  Because a node without a right
    child counts as a leaf and a child moves up only when it is strictly
    greater than its sibling, the heap sorts of this program do not sort every
    input: [1, 2] and [1, 5, 5] come out in decreasing order. */
module HeapExamples {
  import opened Ranges
  import opened MVectors
  import opened HeapSort
  import HeapSortCorrected

  /** [4, 10, 3, 5, 1] is sorted by `heap`: building gives [10, 5, 3, 4, 1]
      and the extraction steps then order it. */
  lemma HeapSortsFiveElements()
    ensures HeapResult([4, 10, 3, 5, 1]) == [1, 3, 4, 5, 10]
  {
  }

  /** [1, 2] comes out of `heap` as [2, 1]: the root has no right child, so
      it is a leaf and the heap is never built. */
  lemma HeapReversesPair()
    ensures HeapResult([1, 2]) == [2, 1]
    ensures !Sorted(HeapResult([1, 2]))
  {
  }

  /** [1, 5, 5] comes out of `heap` as [5, 5, 1]: neither equal child is
      strictly greater than its sibling, so the root 1 stays on top. */
  lemma HeapKeepsSmallRootWithEqualChildren()
    ensures HeapResult([1, 5, 5]) == [5, 5, 1]
    ensures !Sorted(HeapResult([1, 5, 5]))
  {
    EqualChildrenStay([1, 5, 5], 0, 3);
    assert BuildHeap([1, 5, 5], 3, 3) == [1, 5, 5];
    assert ExtractAll([1, 5, 5], 2) == ExtractAll([5, 5, 1], 1);
    assert ExtractAll([5, 5, 1], 1) == ExtractAll([5, 5, 1], 0) == [5, 5, 1];
  }

  /** `heap1` sorts [4, 10, 3, 5, 1] as well: its first pass builds
      [10, 5, 3, 4, 1] and moves 10 to the end. */
  lemma Heap1SortsFiveElements()
    ensures Heap1From([4, 10, 3, 5, 1], 0) == [1, 3, 4, 5, 10]
  {
    assert SiftDown([10, 4, 3, 5, 1], 1, 5) == [10, 5, 3, 4, 1];
    assert BuildHeap([4, 10, 3, 5, 1], 4, 5) == [10, 5, 3, 4, 1];
    assert Swapped([10, 5, 3, 4, 1], 4, 0) == [1, 5, 3, 4, 10];
    Heap1FiveElementsLater();
  }

  /** The later passes of `heap1` on [4, 10, 3, 5, 1]. */
  lemma Heap1FiveElementsLater()
    ensures Heap1From([1, 5, 3, 4, 10], 1) == [1, 3, 4, 5, 10]
  {
    assert BuildHeap([1, 5, 3, 4, 10], 3, 4) == [5, 1, 3, 4, 10];
    assert Swapped([5, 1, 3, 4, 10], 3, 0) == [4, 1, 3, 5, 10];
    assert BuildHeap([4, 1, 3, 5, 10], 2, 3) == [4, 1, 3, 5, 10];
    assert Swapped([4, 1, 3, 5, 10], 2, 0) == [3, 1, 4, 5, 10];
    assert BuildHeap([3, 1, 4, 5, 10], 1, 2) == [3, 1, 4, 5, 10];
    assert Swapped([3, 1, 4, 5, 10], 1, 0) == [1, 3, 4, 5, 10];
  }

  /** `heap1` gives the same two unsorted results. */
  lemma Heap1ReversesPair()
    ensures Heap1From([1, 2], 0) == [2, 1]
    ensures !Sorted(Heap1From([1, 2], 0))
  {
  }

  lemma Heap1KeepsSmallRootWithEqualChildren()
    ensures Heap1From([1, 5, 5], 0) == [5, 5, 1]
    ensures !Sorted(Heap1From([1, 5, 5], 0))
  {
    EqualChildrenStay([1, 5, 5], 0, 3);
    assert BuildHeap([1, 5, 5], 2, 3) == [1, 5, 5];
    assert Swapped([1, 5, 5], 2, 0) == [5, 5, 1];
    assert Heap1From([1, 5, 5], 0) == Heap1From([5, 5, 1], 1);
    assert BuildHeap([5, 5, 1], 1, 2) == [5, 5, 1];
    assert Heap1From([5, 5, 1], 1) == Heap1From([5, 5, 1], 2);
    assert BuildHeap([5, 5, 1], 0, 1) == [5, 5, 1];
    assert Heap1From([5, 5, 1], 2) == Heap1From([5, 5, 1], 3) == [5, 5, 1];
  }

  /** With the corrected leaf test and child choice, both inputs come out
      sorted. */
  lemma CorrectedHeapSortsCounterexamples()
    ensures HeapSortCorrected.HeapSorted([1, 2]) == [1, 2]
    ensures HeapSortCorrected.HeapSorted([1, 5, 5]) == [1, 5, 5]
  {
    HeapSortCorrected.HeapSortedKeepsSorted([1, 2]);
    HeapSortCorrected.HeapSortedKeepsSorted([1, 5, 5]);
  }

  /** The in-place procedures give the same results on vectors holding
      [1, 2] and [1, 5, 5]. */
  method InPlaceCounterexamples() returns (pair: seq<int>, triple: seq<int>)
    ensures pair == [2, 1] && triple == [5, 5, 1]
  {
    var m := new MVector.FromList([1, 2]);
    Heap(m);
    HeapReversesPair();
    pair := m.v;
    var m1 := new MVector.FromList([1, 5, 5]);
    Heap1(m1);
    Heap1KeepsSmallRootWithEqualChildren();
    triple := m1.v;
  }
}
