/** Quicksort in place and alignment (kernel/kernel/src/klib/algorithm.hpp). */
module Algorithm {

  ghost predicate Sorted(s: seq<int>) {
    forall i, j :: 0 <= i < j < |s| ==> s[i] <= s[j]
  }

  ghost predicate AtMost(s: seq<int>, v: int) {
    forall x :: x in s ==> x <= v
  }

  ghost predicate AtLeast(s: seq<int>, v: int) {
    forall x :: x in s ==> v <= x
  }

  ghost predicate Permutation(s: seq<int>, t: seq<int>) {
    multiset(s) == multiset(t)
  }

  lemma PermutationKeepsBounds(s: seq<int>, t: seq<int>, v: int)
    requires Permutation(s, t)
    ensures |s| == |t| && (AtMost(s, v) ==> AtMost(t, v)) && (AtLeast(s, v) ==> AtLeast(t, v))
  {
    assert |s| == |multiset(s)| && |t| == |multiset(t)|;
    forall x | x in t ensures x in s {
      assert x in multiset(t);
    }
  }

  // Sorting the two halves of a partition sorts the whole.
  lemma SortedHalves(s: seq<int>, t: seq<int>, v: int)
    requires Sorted(s) && Sorted(t) && AtMost(s, v) && AtLeast(t, v)
    ensures Sorted(s + t)
  {
    var u := s + t;
    forall i, j | 0 <= i < j < |u| ensures u[i] <= u[j] {
      if i < |s| {
        assert u[i] in s;
        assert j >= |s| ==> u[j] in t;
      }
    }
  }

  lemma SwapPermutes(s: seq<int>, i: nat, j: nat)
    requires i < j < |s|
    ensures Permutation(s, s[i := s[j]][j := s[i]])
  {
    assert s == s[..i] + [s[i]] + s[i + 1..j] + [s[j]] + s[j + 1..];
    assert s[i := s[j]][j := s[i]] == s[..i] + [s[j]] + s[i + 1..j] + [s[i]] + s[j + 1..];
  }

  // Nothing outside of the range [begin, end) differs.
  ghost predicate SameOutside(s: seq<int>, t: seq<int>, begin: nat, end: nat) {
    && begin <= end <= |s| == |t| && s[..begin] == t[..begin] && s[end..] == t[end..]
  }

  // The range [begin, end) holds the same elements and everything else is the same.
  ghost predicate Rearranged(s: seq<int>, t: seq<int>, begin: nat, end: nat) {
    SameOutside(s, t, begin, end) && Permutation(s[begin..end], t[begin..end])
  }

  lemma SwapRearranges(s: seq<int>, i: nat, j: nat, begin: nat, end: nat)
    requires begin <= i < j < end <= |s|
    ensures Rearranged(s, s[i := s[j]][j := s[i]], begin, end)
  {
    var t := s[i := s[j]][j := s[i]];
    SwapPermutes(s[begin..end], i - begin, j - begin);
    assert t[begin..end] == s[begin..end][i - begin := s[j]][j - begin := s[i]];
  }

  method Swap(a: array<int>, i: nat, j: nat, ghost begin: nat, ghost end: nat)
    requires begin <= i < j < end <= a.Length
    modifies a
    ensures a[i] == old(a[j]) && a[j] == old(a[i])
    ensures forall k :: 0 <= k < a.Length && k != i && k != j ==> a[k] == old(a[k])
    ensures Rearranged(old(a[..]), a[..], begin, end)
  {
    hide Rearranged;
    ghost var before := a[..];
    SwapRearranges(before, i, j, begin, end);
    a[i], a[j] := a[j], a[i];
    assert a[..] == before[i := before[j]][j := before[i]];
  }

  lemma RearrangedTwice(r: seq<int>, s: seq<int>, t: seq<int>, begin: nat, end: nat)
    requires Rearranged(r, s, begin, end) && Rearranged(s, t, begin, end)
    ensures Rearranged(r, t, begin, end)
  {
  }

  /**
   The inner scans have no bounds check and need none: they read only positions of the range. The partition point is
   strictly inside the range, with no larger element before it than after it.
   */
  method QsortPartition(a: array<int>, begin: nat, end: nat) returns (p: nat, ghost pivot: int)
    requires begin + 2 <= end <= a.Length
    modifies a
    ensures begin < p < end
    ensures Rearranged(old(a[..]), a[..], begin, end)
    ensures forall k :: begin <= k < p ==> a[k] <= pivot
    ensures forall k :: p <= k < end ==> pivot <= a[k]
  {
    hide Rearranged;
    var low, high := begin, end;
    var mid := low + (high - low) / 2;
    pivot := a[mid];
    var v := a[mid];
    ghost var original := a[..];
    RearrangedItself(original, begin, end);
    while true
      invariant begin <= low <= high <= end
      invariant if low == begin then high == end && a[mid] == v else high < end && a[low - 1] <= v <= a[high]
      invariant forall k :: begin <= k < low ==> a[k] <= v
      invariant forall k :: high <= k < end ==> v <= a[k]
      invariant Rearranged(original, a[..], begin, end)
      decreases high
    {
      ghost var low0, high0 := low, high;
      while a[low] < v
        invariant low0 <= low && (if low0 == begin then low <= mid else low <= high0)
        invariant forall k :: begin <= k < low ==> a[k] <= v
        decreases end - low
      {
        low := low + 1;
      }
      high := high - 1;
      while v < a[high]
        invariant high < high0 && (if low0 == begin then mid <= high else low0 - 1 <= high)
        invariant forall k :: high < k < end ==> v <= a[k]
        decreases high
      {
        high := high - 1;
      }
      if low >= high {
        p := low;
        return;
      }
      ghost var before := a[..];
      Swap(a, low, high, begin, end);
      RearrangedTwice(original, before, a[..], begin, end);
      low := low + 1;
    }
  }

  lemma RearrangedItself(s: seq<int>, begin: nat, end: nat)
    requires begin <= end <= |s|
    ensures Rearranged(s, s, begin, end)
  {
  }

  /** The range is sorted and holds the elements that it held; nothing else changes. */
  method Qsort(a: array<int>, begin: nat, end: nat)
    requires begin <= end <= a.Length
    modifies a
    ensures Sorted(a[begin..end])
    ensures Rearranged(old(a[..]), a[..], begin, end)
    decreases end - begin
  {
    if end - begin < 2 {
      return;
    }
    hide Rearranged, Sorted;
    ghost var original := a[..];
    ghost var pivot;
    var p;
    p, pivot := QsortPartition(a, begin, end);
    ghost var split := a[..];
    Qsort(a, begin, p);
    ghost var half := a[..];
    Qsort(a, p, end);
    HalvesSorted(split, half, a[..], begin, p, end, pivot);
    RearrangedTwice(original, split, a[..], begin, end);
  }

  // What the two recursive calls have done to a partitioned range.
  lemma HalvesSorted(split: seq<int>, half: seq<int>, after: seq<int>, begin: nat, p: nat, end: nat, pivot: int)
    requires begin < p < end && Rearranged(split, half, begin, p) && Rearranged(half, after, p, end)
    requires end <= |split| && Sorted(half[begin..p]) && Sorted(after[p..end])
    requires forall k :: begin <= k < p ==> split[k] <= pivot
    requires forall k :: p <= k < end ==> pivot <= split[k]
    ensures end <= |after| && Sorted(after[begin..end]) && Rearranged(split, after, begin, end)
  {
    var left, right := after[begin..p], after[p..end];
    assert left == half[begin..p] && half[p..end] == split[p..end] by {
      Slices(half, after, begin, p, end);
      Slices2(split, half, begin, p, end);
    }
    assert AtMost(split[begin..p], pivot) && AtLeast(split[p..end], pivot);
    PermutationKeepsBounds(split[begin..p], left, pivot);
    PermutationKeepsBounds(split[p..end], right, pivot);
    SortedHalves(left, right, pivot);
    assert after[begin..end] == left + right && split[begin..end] == split[begin..p] + split[p..end];
    assert SameOutside(split, after, begin, end) by {
      Outside(split, half, after, begin, p, end);
    }
  }

  // Changing only [p, end) leaves the part before it, and changing only [begin, p) the part behind it.
  lemma Slices(s: seq<int>, t: seq<int>, begin: nat, p: nat, end: nat)
    requires begin <= p <= end && SameOutside(s, t, p, end)
    ensures s[begin..p] == t[begin..p]
  {
    assert s[begin..p] == s[..p][begin..] && t[begin..p] == t[..p][begin..];
  }

  lemma Slices2(s: seq<int>, t: seq<int>, begin: nat, p: nat, end: nat)
    requires begin <= p <= end <= |s| && SameOutside(s, t, begin, p)
    ensures s[p..end] == t[p..end]
  {
    assert s[p..end] == s[p..][..end - p] && t[p..end] == t[p..][..end - p];
  }

  lemma Outside(s: seq<int>, t: seq<int>, u: seq<int>, begin: nat, p: nat, end: nat)
    requires begin <= p <= end && SameOutside(s, t, begin, p) && SameOutside(t, u, p, end)
    ensures SameOutside(s, u, begin, end)
  {
    assert s[..begin] == t[..begin] == t[..p][..begin] == u[..p][..begin] == u[..begin];
    assert s[end..] == s[p..][end - p..] == t[p..][end - p..] == t[end..] == u[end..];
  }

  function Min(a: nat, b: nat): nat {
    if a < b then a else b
  }

  // ----- alignment -----

  function AlignUp(i: nat, alignment: nat): nat
    requires 0 < alignment
  {
    if i % alignment != 0 then (i / alignment + 1) * alignment else i
  }

  function AlignDown(i: nat, alignment: nat): nat
    requires 0 < alignment
  {
    if i % alignment != 0 then i / alignment * alignment else i
  }

  /** The least multiple that is not below i, and the greatest that is not above it. */
  lemma AlignmentBounds(i: nat, alignment: nat, m: nat)
    requires 0 < alignment
    ensures AlignDown(i, alignment) <= i <= AlignUp(i, alignment)
    ensures AlignDown(i, alignment) == i / alignment * alignment
    ensures m * alignment <= i ==> m * alignment <= AlignDown(i, alignment)
    ensures i <= m * alignment ==> AlignUp(i, alignment) <= m * alignment
    ensures AlignUp(i, alignment) % alignment == 0 && AlignDown(i, alignment) % alignment == 0
  {
    var q, r := i / alignment, i % alignment;
    assert i == q * alignment + r;
    assert (q + 1) * alignment == q * alignment + alignment;
    Multiples(m, q, alignment);
    Multiples(q + 1, m, alignment);
    MultipleHasNoRemainder(q, alignment);
    MultipleHasNoRemainder(q + 1, alignment);
  }

  lemma MultipleHasNoRemainder(q: nat, alignment: nat)
    requires 0 < alignment
    ensures q * alignment % alignment == 0
  {
    var m := q * alignment;
    assert m == m / alignment * alignment + m % alignment;
    Multiples(q, m / alignment, alignment);
  }

  lemma Multiples(m: nat, q: nat, alignment: nat)
    ensures m <= q ==> m * alignment <= q * alignment
    ensures m > q ==> m * alignment >= q * alignment + alignment
  {
    assert m * alignment == q * alignment + (m - q) * alignment;
    assert (q - m) * alignment == q * alignment - m * alignment;
    assert (m - q) * alignment == alignment + (m - q - 1) * alignment;
  }
}
