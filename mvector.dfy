/** The numeric vector the sorting algorithms work on: an owned, fixed-length
    sequence of values indexed from 0, with the primitives that rearrange it
    in place (exchange, partition around a pivot) and the leaf test of the
    implicit binary heap stored in it. */
module MVectors {
  import opened Ranges

  /** Largest value the C library's `rand()` returns (glibc's RAND_MAX). */
  const RandMax: nat := 0x7FFF_FFFF

  class MVector {
    /** The elements; no core operation changes the length. */
    var v: seq<int>

    /** An empty vector. */
    constructor ()
      ensures v == []
    {
      v := [];
    }

    /** `n` elements, each the default value 0. */
    constructor OfSize(n: nat)
      ensures |v| == n && forall k :: 0 <= k < n ==> v[k] == 0
    {
      v := seq(n, _ => 0);
    }

    /** `n` elements, each equal to `x`. */
    constructor Filled(n: nat, x: int)
      ensures |v| == n && forall k :: 0 <= k < n ==> v[k] == x
    {
      v := seq(n, _ => x);
    }

    /** The elements of `l`, in order. */
    constructor FromList(l: seq<int>)
      ensures v == l
    {
      v := l;
    }

    function Size(): int
      reads this
    {
      |v|
    }

    /** Reading an element; valid indices only (the source does not check). */
    function Get(index: int): int
      reads this
      requires 0 <= index < |v|
    {
      v[index]
    }

    /** Writing an element through the reference the index operator returns. */
    method Set(index: int, x: int)
      requires 0 <= index < |v|
      modifies this
      ensures v == old(v)[index := x]
    {
      v := v[index := x];
    }

    /** Exchanges the elements at `i` and `j` through a temporary. */
    method Swap(i: int, j: int)
      requires 0 <= i < |v| && 0 <= j < |v|
      modifies this
      ensures v == Swapped(old(v), i, j)
    {
      var temp := v[i];
      v := v[i := v[j]];
      v := v[j := temp];
    }

    /** Lomuto partition of [lo, hi] around the pivot value at `hi`: elements
        at most the pivot move to the front of the range, the pivot follows
        them, and the elements greater than it come last.  Elements equal to
        the pivot end up on its left. */
    method Partition(lo: int, hi: int) returns (p: int)
      requires 0 <= lo <= hi < |v|
      modifies this
      ensures PermutedIn(v, old(v), lo, hi + 1)
      ensures lo <= p <= hi
      ensures p - lo == CountAtMost(old(v)[lo..hi], old(v)[hi])
      ensures v[p] == old(v)[hi]
      ensures forall k :: lo <= k < p ==> v[k] <= v[p]
      ensures forall k :: p < k <= hi ==> v[k] > v[p]
    {
      var x := v[hi];
      p := lo;
      for i := lo to hi
        invariant ScanInvariant(v, old(v), lo, hi, p, i)
      {
        ScanStep(v, old(v), lo, hi, p, i);
        if v[i] <= x {
          Swap(i, p);
          p := p + 1;
        }
      }
      ScanDone(v, old(v), lo, hi, p);
      Swap(p, hi);
    }

    /** Moves the element at `lo + r % (hi - lo)` to `hi` and partitions
        around it; `r` is the value `rand()` returned, so the pivot comes from
        [lo, hi - 1] and never from `hi` itself.  `lo < hi` is required: with
        `lo == hi` the source takes a remainder modulo zero. */
    method RandomPartition(lo: int, hi: int, r: nat) returns (p: int)
      requires 0 <= lo < hi < |v|
      modifies this
      ensures PermutedIn(v, old(v), lo, hi + 1)
      ensures lo <= p <= hi
      ensures v[p] == old(v)[lo + r % (hi - lo)]
      ensures forall k :: lo <= k < p ==> v[k] <= v[p]
      ensures forall k :: p < k <= hi ==> v[k] > v[p]
    {
      var pick := lo + r % (hi - lo);
      Swap(pick, hi);
      ghost var picked := v;
      SwapPermutedIn(old(v), lo, hi + 1, pick, hi);
      p := Partition(lo, hi);
      PermutedInTrans(v, picked, old(v), lo, hi + 1);
    }

    /** Node `index` of the implicit heap over the first `n` positions counts
        as a leaf when either child position is outside them; because the
        source tests the two with `or`, a node with a left child but no right
        child is a leaf too. */
    static function IsLeaf(index: int, n: int): (leaf: bool)
      ensures leaf <==> index * 2 + 2 >= n
      ensures n == index * 2 + 2 ==> leaf && index * 2 + 1 < n
    {
      index * 2 + 1 >= n || index * 2 + 2 >= n
    }
  }

  /** State of the partition scan of [lo, hi] of `s0` (pivot `s0[hi]`) once
      positions [lo, i) have been visited: the positions from `i` on are
      untouched, [lo, p) holds the visited elements at most the pivot (as many
      as there are among `s0[lo..i]`) and [p, i) the visited ones above it. */
  ghost predicate ScanInvariant(s: seq<int>, s0: seq<int>, lo: int, hi: int, p: int, i: int)
  {
    0 <= lo <= p <= i <= hi < |s0| &&
    PermutedIn(s, s0, lo, hi + 1) &&
    (forall k :: i <= k < |s| ==> s[k] == s0[k]) &&
    (forall k :: lo <= k < p ==> s[k] <= s0[hi]) &&
    (forall k :: p <= k < i ==> s[k] > s0[hi]) &&
    p - lo == CountAtMost(s0[lo..i], s0[hi])
  }

  /** One iteration of the scan keeps its invariant. */
  lemma ScanStep(s: seq<int>, s0: seq<int>, lo: int, hi: int, p: int, i: int)
    requires ScanInvariant(s, s0, lo, hi, p, i) && i < hi
    ensures s[i] <= s0[hi] ==> ScanInvariant(Swapped(s, i, p), s0, lo, hi, p + 1, i + 1)
    ensures s[i] > s0[hi] ==> ScanInvariant(s, s0, lo, hi, p, i + 1)
  {
    assert s0[lo..i + 1][..i - lo] == s0[lo..i];
    assert s[i] == s0[i];
    if s[i] <= s0[hi] {
      ScanTake(s, s0, lo, hi, p, i);
    }
  }

  /** A visited element at most the pivot is exchanged into the low part,
      which grows by one. */
  lemma ScanTake(s: seq<int>, s0: seq<int>, lo: int, hi: int, p: int, i: int)
    requires ScanInvariant(s, s0, lo, hi, p, i) && i < hi && s[i] <= s0[hi]
    ensures ScanInvariant(Swapped(s, i, p), s0, lo, hi, p + 1, i + 1)
  {
    var t := Swapped(s, i, p);
    assert s0[lo..i + 1][..i - lo] == s0[lo..i];
    assert p + 1 - lo == CountAtMost(s0[lo..i + 1], s0[hi]);
    SwapPermutedIn(s, lo, hi + 1, i, p);
    PermutedInTrans(t, s, s0, lo, hi + 1);
    assert forall k :: lo <= k < p + 1 ==> t[k] <= s0[hi];
    assert forall k :: p + 1 <= k < i + 1 ==> t[k] > s0[hi];
  }

  /** When the scan is complete, exchanging the boundary with the pivot
      position yields the partition. */
  lemma ScanDone(s: seq<int>, s0: seq<int>, lo: int, hi: int, p: int)
    requires ScanInvariant(s, s0, lo, hi, p, hi)
    ensures PermutedIn(Swapped(s, p, hi), s0, lo, hi + 1)
    ensures p - lo == CountAtMost(s0[lo..hi], s0[hi])
    ensures Swapped(s, p, hi)[p] == s0[hi]
    ensures forall k :: lo <= k < p ==> Swapped(s, p, hi)[k] <= s0[hi]
    ensures forall k :: p < k <= hi ==> Swapped(s, p, hi)[k] > s0[hi]
  {
  }

  /** Only 1 of 5, 3, 8, 1, 9 is at most 2. */
  lemma {:induction false} OneAtMostTwo()
    ensures CountAtMost([5, 3, 8, 1, 9], 2) == 1
  {
    assert [5, 3, 8, 1, 9][..4] == [5, 3, 8, 1];
    assert [5, 3, 8, 1][..3] == [5, 3, 8];
    assert [5, 3, 8][..2] == [5, 3];
    assert [5, 3][..1] == [5];
    assert [5][..0] == [];
  }

  /** The partition of the worked example [5, 3, 8, 1, 9, 2] around its last
      element puts the pivot 2 at index 1, after the single element 1. */
  method PartitionExample() returns (p: int, w: seq<int>)
    ensures |w| == 6 && multiset(w) == multiset{5, 3, 8, 1, 9, 2}
    ensures p == 1 && w[0] <= 2 && w[1] == 2 && forall k :: 2 <= k < 6 ==> w[k] > 2
  {
    var m := new MVector.FromList([5, 3, 8, 1, 9, 2]);
    assert [5, 3, 8, 1, 9, 2][0..5] == [5, 3, 8, 1, 9];
    OneAtMostTwo();
    p := m.Partition(0, 5);
    w := m.v;
  }
}
