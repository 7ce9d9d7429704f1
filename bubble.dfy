/** Bubble sort: passes of adjacent exchanges that carry the largest
    remaining element to the end of the unsorted prefix. */
module BubbleSort {
  import opened Ranges
  import opened MVectors

  /** The positions from `b` on hold the |s| - b largest values of `s`, in
      order: that suffix is sorted and nothing before it exceeds anything in
      it. */
  ghost predicate Settled(s: seq<int>, b: int)
    requires 0 <= b <= |s|
  {
    SortedIn(s, b, |s|) && forall p, q :: 0 <= p < b <= q < |s| ==> s[p] <= s[q]
  }

  /** State of a pass at scan position `i`: the suffix from `b` is settled
      and position `i` holds the largest of the first i + 1 elements. */
  ghost predicate Scanned(s: seq<int>, b: int, i: int)
    requires 0 <= i < |s| && 0 <= b <= |s|
  {
    Settled(s, b) && forall k :: 0 <= k < i ==> s[k] <= s[i]
  }

  /** One step of a pass inside the unsettled prefix (exchange `i` and
      `i + 1` when out of order) carries the largest element seen so far to
      `i + 1` and keeps the settled suffix. */
  lemma PassStep(s: seq<int>, b: int, i: int)
    requires 0 <= i < b - 1 && b <= |s|
    requires Scanned(s, b, i)
    ensures var t := if s[i + 1] < s[i] then Swapped(s, i, i + 1) else s;
      Scanned(t, b, i + 1) && multiset(t) == multiset(s)
  {
  }

  /** From position b - 1 on, a pass finds every adjacent pair in order: the
      last element of the prefix is its largest and the suffix is settled. */
  lemma InOrderPastPrefix(s: seq<int>, b: int, i: int)
    requires 1 <= b && b - 1 <= i < |s| - 1
    requires Scanned(s, b, b - 1)
    ensures s[i] <= s[i + 1]
  {
  }

  /** The end of a pass: the element at `b - 1` is the largest of the
      unsettled prefix, so the settled suffix grows to start at `b - 1`. */
  lemma PassDone(s: seq<int>, b: int)
    requires 1 <= b <= |s|
    requires Scanned(s, b, b - 1)
    ensures Settled(s, b - 1)
  {
  }

  /** Pass k (k = 1, ..., n - 1) scans the first n - k + 1 elements; after it
      the last k positions hold the k largest values in order. */
  method Bubble(m: MVector)
    modifies m
    ensures Sorted(m.v)
    ensures multiset(m.v) == multiset(old(m.v))
    ensures Sorted(old(m.v)) ==> m.v == old(m.v)
    ensures |old(m.v)| <= 1 ==> m.v == old(m.v)
  {
    var k := 1;
    while k < m.Size()
      invariant |m.v| == |old(m.v)|
      invariant 1 <= k <= |m.v| + 1 && (|m.v| >= 1 ==> k <= |m.v|)
      invariant Settled(m.v, |m.v| - k + 1)
      invariant multiset(m.v) == multiset(old(m.v))
    {
      ghost var b := |m.v| - k + 1;
      for i := 0 to m.Size() - k
        invariant |m.v| == |old(m.v)|
        invariant Scanned(m.v, b, i)
        invariant multiset(m.v) == multiset(old(m.v))
      {
        PassStep(m.v, b, i);
        if m.Get(i + 1) < m.Get(i) {
          m.Swap(i, i + 1);
        }
      }
      PassDone(m.v, b);
      k := k + 1;
    }
    if Sorted(old(m.v)) {
      SortedUnique(m.v, old(m.v));
    }
  }

  /** The slower variant: n passes, each over the whole vector.  A pass that
      reaches the settled suffix exchanges nothing there. */
  method Bubble2(m: MVector)
    modifies m
    ensures Sorted(m.v)
    ensures multiset(m.v) == multiset(old(m.v))
    ensures Sorted(old(m.v)) ==> m.v == old(m.v)
    ensures |old(m.v)| <= 1 ==> m.v == old(m.v)
  {
    for j := 0 to m.Size()
      invariant |m.v| == |old(m.v)|
      invariant Settled(m.v, |m.v| - j)
      invariant multiset(m.v) == multiset(old(m.v))
    {
      var b := |m.v| - j;
      for i := 0 to m.Size() - 1
        invariant |m.v| == |old(m.v)|
        invariant Scanned(m.v, b, if i < b then i else b - 1)
        invariant multiset(m.v) == multiset(old(m.v))
      {
        if i < b - 1 {
          PassStep(m.v, b, i);
        } else {
          InOrderPastPrefix(m.v, b, i);
        }
        if m.Get(i + 1) < m.Get(i) {
          m.Swap(i, i + 1);
        }
      }
      PassDone(m.v, b);
    }
    if Sorted(old(m.v)) {
      SortedUnique(m.v, old(m.v));
    }
  }
}
