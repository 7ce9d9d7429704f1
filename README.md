# Sorting algorithms on an in-place numeric vector

A model of the sorting core of `main.cpp`: the `MVector` class (a vector of
numbers that owns its storage and is rearranged in place) with its primitives
`swap`, `partition`, `random_partition` and `is_leaf`, and the three sorting
families built on them: bubble sort (`bubble`, `bubble2`), quicksort with a
random pivot (`quick_recursive`, `quick`) and heap sort (`heap_from_root`,
`heap`, `heap1`).

The vector is a Dafny class `MVectors.MVector` whose field `v: seq<int>` is the
sequence the C++ class keeps in its `std::vector<double>`. Every procedure that
changes the vector in the source is a method with `modifies` on that object,
and loops stay loops with their invariants. Shared facts live in `Ranges`:
the exchange of two positions, sortedness of an index range, and
`PermutedIn(a, b, lo, hi)`, which says that `a` is `b` with only positions
`[lo, hi)` rearranged.

What is proved:

- `partition(lo, hi)` returns the pivot's final position `p`. Every element
  before it is at most the pivot, every element after it up to `hi` is greater,
  nothing outside `[lo, hi]` moves, and `p - lo` is the number of elements at
  most the pivot. The comment above `partition` speaks of three sections
  (less, equal, greater). The code makes two: elements equal to the pivot go
  to its left, and the model follows the code.
- `random_partition` needs `lo < hi`, because the source takes `rand() % (hi - lo)`.
  The pivot comes from `[lo, hi - 1]`.
- `bubble`, `bubble2`, `quick_recursive` and `quick` sort and permute their
  range in place. Nothing outside the range moves, and an already sorted input
  is left unchanged.
- `heap_from_root` only rearranges positions `[i, n)`. `heap` and `heap1`
  return a rearrangement of their input. They do not always sort it, and
  concrete inputs show this (see "Findings").

The heap procedures are modelled literally. `is_leaf` tests its two children
with `or`, so a node with only a left child counts as a leaf. A child moves up
only when it is strictly greater than both its parent and its sibling. Each
heap procedure has a functional counterpart in `HeapSort` (`SiftDown`,
`BuildHeap`, `ExtractAll`, `HeapResult`, `Heap1From`), and each method is
proved to leave exactly that value in the vector. `HeapSortCorrected` is heap
sort as the comments describe it, and it is proved to sort.

`rand()` becomes a parameter `r` of `RandomPartition`. `QuickRecursive`
draws it with `:|` from `[0, RandMax]`, where `RandMax` is glibc's
`RAND_MAX` (2147483647). So the quicksort results hold for every sequence of
draws.

## Model

| member | source | states |
|---|---|---|
| `MVectors.MVector.constructor` | main.cpp:14 | the default vector is empty |
| `MVectors.MVector.OfSize` | main.cpp:15 | `MVector(n)` holds n zeros |
| `MVectors.MVector.Filled` | main.cpp:16 | `MVector(n, x)` holds n copies of x |
| `MVectors.MVector.FromList` | main.cpp:17 | the list constructor holds the list's elements in order |
| `MVectors.MVector.Set` | main.cpp:21-30 | writing through the index operator changes exactly that element |
| `Ranges.Swapped` | main.cpp:51-57 | the exchanged positions hold each other's old values, every other position is unchanged, and exchanging a position with itself changes nothing |
| `Ranges.SwappedPermutes` | main.cpp:51-57 | an exchange keeps the multiset of values |
| `MVectors.MVector.Swap` | main.cpp:51-57 | the vector becomes `Swapped(old, i, j)` |
| `MVectors.MVector.Partition` | main.cpp:88-113 | returns p in [lo, hi] holding the old `v[hi]`; [lo, p) at most the pivot, (p, hi] greater; only [lo, hi] rearranged; p - lo counts the elements at most the pivot |
| `MVectors.ScanStep` | main.cpp:99-106 | one iteration of the scan keeps the loop invariant, whether or not the element is taken |
| `MVectors.ScanTake` | main.cpp:101-105 | taking an element at most the pivot grows the low part by one and keeps the invariant |
| `MVectors.ScanDone` | main.cpp:107-112 | the final exchange puts the pivot between the low part and the high part |
| `MVectors.PartitionExample` | main.cpp:88-113 | partitioning [5, 3, 8, 1, 9, 2] around 2 returns 1, with 2 at index 1 and only greater values after it |
| `MVectors.MVector.RandomPartition` | main.cpp:117-122 | needs lo < hi; the pivot is the old element at `lo + r % (hi - lo)`, inside [lo, hi - 1]; otherwise the same as `Partition` |
| `MVectors.MVector.IsLeaf` | main.cpp:125-141 | true exactly when 2i + 2 >= n, so also for a node whose only child is the left one |
| `BubbleSort.PassStep` | main.cpp:163-167 | an adjacent step inside the unsorted prefix carries the largest element seen so far forward and keeps the settled suffix and the values |
| `BubbleSort.PassDone` | main.cpp:161-169 | after pass k the last k positions hold the k largest values in order |
| `BubbleSort.Bubble` | main.cpp:157-171 | the vector ends sorted and is a permutation of the input; a sorted input (in particular one of size 0 or 1) is unchanged |
| `BubbleSort.InOrderPastPrefix` | main.cpp:178-181 | once a pass of `bubble2` reaches the settled suffix it finds every pair in order and exchanges nothing |
| `BubbleSort.Bubble2` | main.cpp:174-184 | the vector ends sorted and is a permutation of the input; a sorted input is unchanged |
| `QuickSort.QuickRecursive` | main.cpp:187-201 | for start < end, [start, end] ends sorted and rearranged in place with nothing outside it changed; otherwise nothing changes; the recursion terminates on the shrinking range |
| `QuickSort.SortedAroundPivot` | main.cpp:189-200 | sorting the two sides of a partitioned range sorts the whole range and permutes it |
| `QuickSort.JoinAroundPivot` | main.cpp:193-199 | two sorted sides of a pivot, at most it on the left and greater on the right, make a sorted range |
| `QuickSort.Quick` | main.cpp:203-206 | the vector ends sorted and permuted; an empty vector (the call on (0, -1)) or a sorted one is unchanged |
| `HeapSort.HeapFromRoot` | main.cpp:208-228 | the vector becomes `SiftDown(old, i, n)`; for i < n only [i, n) is rearranged, and for i >= n nothing changes |
| `HeapSort.LeftChildStep` | main.cpp:214-220 | the left-child test: the vector becomes `SiftLeft(old, i, n)` |
| `HeapSort.RightChildStep` | main.cpp:222-226 | the right-child test on what the left one leaves: the vector becomes `SiftRight(old, i, n)` |
| `HeapSort.SiftDownPermutes` | main.cpp:208-228 | sifting down from i only rearranges [i, n), which also bounds every index it touches by n |
| `HeapSort.SiftStepPermutes` | main.cpp:213-226 | each child test only rearranges [i, n) |
| `HeapSort.EqualChildrenStay` | main.cpp:213-226 | two equal children cause no exchange, even when both exceed the parent |
| `HeapSort.BuildHeapPermutes` | main.cpp:250-253 | the build loop only rearranges the first n positions |
| `HeapSort.ExtractAllPermutes` | main.cpp:256-264 | the extraction loop only rearranges the first i + 1 positions |
| `HeapSort.HeapResultPermutes` | main.cpp:247-265 | `heap` returns a rearrangement of its input |
| `HeapSort.Heap` | main.cpp:247-265 | the vector becomes `HeapResult(old)`, which has the input's values |
| `HeapSort.Heap1FromPermutes` | main.cpp:230-245 | the passes of `heap1` return a rearrangement of the input |
| `HeapSort.Heap1` | main.cpp:230-245 | the vector becomes `Heap1From(old, 0)`, which has the input's values |
| `HeapExamples.HeapSortsFiveElements` | main.cpp:247-265 | `heap` turns [4, 10, 3, 5, 1] into [1, 3, 4, 5, 10] |
| `HeapExamples.HeapReversesPair` | main.cpp:133 | `heap` turns [1, 2] into the unsorted [2, 1] |
| `HeapExamples.HeapKeepsSmallRootWithEqualChildren` | main.cpp:214-226 | `heap` turns [1, 5, 5] into the unsorted [5, 5, 1] |
| `HeapExamples.Heap1SortsFiveElements` | main.cpp:230-245 | `heap1` also turns [4, 10, 3, 5, 1] into [1, 3, 4, 5, 10] |
| `HeapExamples.Heap1ReversesPair` | main.cpp:230-245 | `heap1` turns [1, 2] into the unsorted [2, 1] |
| `HeapExamples.Heap1KeepsSmallRootWithEqualChildren` | main.cpp:230-245 | `heap1` turns [1, 5, 5] into the unsorted [5, 5, 1] |
| `HeapExamples.InPlaceCounterexamples` | main.cpp:230-265 | the in-place `heap` on [1, 2] and `heap1` on [1, 5, 5] leave [2, 1] and [5, 5, 1] |
| `HeapSortCorrected.LargerChild` | main.cpp:211-226 | the child a corrected sift moves up is the larger one, and it lies inside the heap |
| `HeapSortCorrected.SiftPermutes` | main.cpp:208-228 | the corrected sift only rearranges [i, n) |
| `HeapSortCorrected.SiftRepairs` | main.cpp:208-228 | the corrected sift turns a heap with one faulty node i into a heap |
| `HeapSortCorrected.SwapMovesFault` | main.cpp:214-225 | exchanging a faulty node with its larger, greater child moves the fault down to the child |
| `HeapSortCorrected.RootIsMax` | main.cpp:254-259 | the root of a heap is its largest element |
| `HeapSortCorrected.BuildMakesHeap` | main.cpp:250-253 | the build loop with the corrected sift makes a max-heap of the input's values |
| `HeapSortCorrected.ExtractKeepsHeap` | main.cpp:256-264 | one extraction step leaves a heap one position smaller |
| `HeapSortCorrected.ExtractStep` | main.cpp:256-264 | one extraction step grows the sorted suffix by one |
| `HeapSortCorrected.ExtractSorts` | main.cpp:256-264 | the extraction loop sorts a heap that sits below a sorted suffix |
| `HeapSortCorrected.HeapSortedSorts` | main.cpp:247-265 | corrected heap sort returns a sorted permutation of its input |
| `HeapSortCorrected.HeapSortedKeepsSorted` | main.cpp:247-265 | corrected heap sort leaves a sorted input unchanged |
| `HeapSortCorrected.SiftDown` | main.cpp:208-228 | the in-place corrected sift leaves `Sift(old, i, n)` |
| `HeapSortCorrected.Heap` | main.cpp:247-265 | the in-place corrected heap sort leaves the vector sorted and permuted |
| `HeapExamples.CorrectedHeapSortsCounterexamples` | main.cpp:247-265 | corrected heap sort leaves [1, 2] and [1, 5, 5] in order |

## Left out

- `initialise_random` (main.cpp:74-82): it fills the vector from `rand()` with floating-point scaling.
- `operator<<` (main.cpp:60-71): it writes to a stream.
- `testingbubble`, `testingquick`, `testingheap` (main.cpp:269-319) and `main` (main.cpp:321-454): they are timing and file-output drivers. `timing.h` is not part of this model.
- Element type: elements are `int` rather than `double`. Only `<`, `<=` and `>` are applied to them, so NaN and other floating-point orderings are not modelled.
- Integer widths: indices and sizes are unbounded. Overflow of `2 * i + 2` and the `int`/`size_t` conversions are not modelled.
- `MVectors.MVector.OfSize`, `MVectors.MVector.Filled`: the size is a `nat`, so a negative size, which makes `std::vector` throw, is not modelled.
- `MVectors.MVector.Get`, `MVectors.MVector.Size`: they read a field and carry no contract of their own. Indices must be valid, by precondition, in place of the commented-out bounds checks (main.cpp:23-28, 35-40).
- `MVectors.MVector.RandomPartition`: `rand()` is the parameter `r`. The uniformity of its distribution is not modelled.
- `MVectors.PartitionExample`: it states that the element left of the pivot is at most 2, not that it is 1.
- `HeapSort.Heap`, `HeapSort.Heap1`: they state what the vector becomes and that it keeps its values, but not that it is sorted. That does not hold for the code as written (see "Findings").
- `heap1` with the corrected sift is not modelled. Only `heap` has a corrected counterpart.
- Recursion depth of `quick_recursive` and `heap_from_root`: stack use is not modelled.

## Findings

| source | as written | input that shows it | evidently intended | confidence | as-written member | corrected member |
|---|---|---|---|---|---|---|
| main.cpp:133 | `is_leaf` joins the two child tests with `or`, so a node whose only child is the left one is a leaf, and `heap_from_root` never compares it with that child | `heap` on [1, 2] gives [2, 1]; `heap1` on [1, 2] gives [2, 1] | a node is a leaf only when it has no child (2i + 1 >= n), and a lone left child is compared with its parent | high (proved about the model; not executed) | `HeapExamples.HeapReversesPair` | `HeapSortCorrected.HeapSortedSorts` |
| main.cpp:214-222 | a child moves up only when it is strictly greater than its sibling, so two equal children never replace a smaller parent | `heap` on [1, 5, 5] gives [5, 5, 1]; `heap1` on [1, 5, 5] gives [5, 5, 1] | the parent is exchanged with its larger child whenever that child is greater than the parent | high (proved about the model; not executed) | `HeapExamples.HeapKeepsSmallRootWithEqualChildren` | `HeapSortCorrected.HeapSortedSorts` |
