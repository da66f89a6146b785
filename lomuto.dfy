/**
 * Lomuto partition, the kernel of quicksort.c, quicksort2.c, q5.c and
 * qsort_parallel.c (comparison `<`) and of qss.c (comparison `<=`).
 * The last cell of the range is the pivot; one cursor j walks the range, and
 * every cell that belongs on the low side is swapped to the end of the low
 * block [left, i]; finally the pivot is swapped in just after that block.
 */
module Lomuto {
  import opened Sorting

  /** The test that sends a cell to the low side: `x < pivot` when strict, `x <= pivot` otherwise. */
  predicate GoesLow(x: int, pivot: int, strict: bool) {
    if strict then x < pivot else x <= pivot
  }

  /**
   * The loop invariant: s[left..i] passes the test, s[i+1..j-1] fails it,
   * the pivot is still in cell right, and only [left, right] was rearranged.
   */
  ghost predicate Scanned(s0: seq<int>, s: seq<int>, left: int, right: int, i: int, j: int, pivot: int, strict: bool) {
    && 0 <= left && left - 1 <= i < j <= right < |s|
    && s[right] == pivot
    && (forall k :: left <= k <= i ==> GoesLow(s[k], pivot, strict))
    && (forall k :: i < k < j ==> !GoesLow(s[k], pivot, strict))
    && PermutedRange(s0, s, left, right + 1)
  }

  /** A cell that passes the test is swapped to the end of the low block, which grows by one. */
  lemma ScanLow(s0: seq<int>, s: seq<int>, left: int, right: int, i: int, j: int, pivot: int, strict: bool)
    requires Scanned(s0, s, left, right, i, j, pivot, strict) && j < right
    requires GoesLow(s[j], pivot, strict)
    ensures Scanned(s0, Swapped(s, i + 1, j), left, right, i + 1, j + 1, pivot, strict)
  {
    SwapKeepsPermuted(s0, s, i + 1, j, left, right + 1);
  }

  /**
   * What the partition leaves: t is s0 with [left, right] rearranged, the
   * pivot s0[right] now sits in cell p, the cells before p pass the test and
   * the cells after p fail it, so [left, p] is at most and [p, right] at
   * least the pivot.
   */
  ghost predicate SplitAround(s0: seq<int>, t: seq<int>, left: int, right: int, p: int, strict: bool) {
    && 0 <= left <= p <= right < |t| == |s0|
    && t[p] == s0[right]
    && (forall k :: left <= k < p ==> GoesLow(t[k], t[p], strict))
    && (forall k :: p < k <= right ==> !GoesLow(t[k], t[p], strict))
    && AllAtMost(t, left, p + 1, t[p]) && AllAtLeast(t, p, right + 1, t[p])
    && PermutedRange(s0, t, left, right + 1)
  }

  /** Swapping the pivot in after the low block splits the range around it. */
  lemma PlacePivot(s0: seq<int>, s: seq<int>, left: int, right: int, i: int, strict: bool)
    requires 0 <= right < |s0| && Scanned(s0, s, left, right, i, right, s0[right], strict)
    ensures SplitAround(s0, Swapped(s, i + 1, right), left, right, i + 1, strict)
  {
    SwapKeepsPermuted(s0, s, i + 1, right, left, right + 1);
  }

  /**
   * The `for` loop from cursor j, with the low block ending at i: the array
   * once j reaches right, and where the low block ends then. Every cell that
   * passes the test is swapped to just after the low block.
   */
  function Scan(s: seq<int>, right: int, pivot: int, strict: bool, i: int, j: int): (r: (seq<int>, int))
    requires -1 <= i < j <= right < |s|
    ensures |r.0| == |s| && i <= r.1 < right
    decreases right - j
  {
    if j == right then (s, i)
    else if GoesLow(s[j], pivot, strict) then Scan(Swapped(s, i + 1, j), right, pivot, strict, i + 1, j + 1)
    else Scan(s, right, pivot, strict, i, j + 1)
  }

  /**
   * The whole partition of [left, right] around s[right]: the loop from
   * i = left - 1 and j = left, then the pivot swapped in after the low block.
   * The final array and the returned index; what they mean is SplitAround
   * (Partition below proves both of its results).
   */
  function Partitioned(s: seq<int>, left: int, right: int, strict: bool): (r: (seq<int>, int))
    requires 0 <= left <= right < |s|
    ensures |r.0| == |s| && left <= r.1 <= right
  {
    var r := Scan(s, right, s[right], strict, left - 1, left);
    (Swapped(r.0, r.1 + 1, right), r.1 + 1)
  }

  /** Each step of the loop keeps the invariant Scanned, so the loop ends with it at j = right. */
  lemma {:induction false} ScanKeeps(s0: seq<int>, s: seq<int>, left: int, right: int, i: int, j: int, pivot: int, strict: bool)
    requires Scanned(s0, s, left, right, i, j, pivot, strict)
    ensures var r := Scan(s, right, pivot, strict, i, j); Scanned(s0, r.0, left, right, r.1, right, pivot, strict)
    decreases right - j
  {
    if j < right {
      if GoesLow(s[j], pivot, strict) {
        ScanLow(s0, s, left, right, i, j, pivot, strict);
        ScanKeeps(s0, Swapped(s, i + 1, j), left, right, i + 1, j + 1, pivot, strict);
      } else {
        ScanKeeps(s0, s, left, right, i, j + 1, pivot, strict);
      }
    }
  }

  /**
   * What Partitioned means: the pivot s[right] ends in the returned cell p,
   * the cells before p pass the test and the cells after p fail it, and only
   * [left, right] is rearranged.
   */
  lemma PartitionedSplits(s: seq<int>, left: int, right: int, strict: bool)
    requires 0 <= left <= right < |s|
    ensures var r := Partitioned(s, left, right, strict); SplitAround(s, r.0, left, right, r.1, strict)
  {
    var r := Scan(s, right, s[right], strict, left - 1, left);
    assert Scanned(s, r.0, left, right, r.1, right, s[right], strict) by {
      assert Scanned(s, s, left, right, left - 1, left, s[right], strict);
      ScanKeeps(s, s, left, right, left - 1, left, s[right], strict);
    }
    PlacePivot(s, r.0, left, right, r.1, strict);
    assert Partitioned(s, left, right, strict) == (Swapped(r.0, r.1 + 1, right), r.1 + 1);
  }

  /**
   * quicksort2.c with a threshold at most 2 on [2, 3, 1]: the pivot 1 passes
   * no test, so it is swapped into cell 0 and the rest keeps its order.
   */
  lemma StrictExample()
    ensures Partitioned([2, 3, 1], 0, 2, true) == ([1, 3, 2], 0)
  {
    var s := [2, 3, 1];
    assert Scan(s, 2, 1, true, -1, 2) == (s, -1);
    assert Scan(s, 2, 1, true, -1, 0) == (s, -1);
    assert Swapped(s, 0, 2) == [1, 3, 2];
  }

  /**
   * Partitions a[left..right] around the pivot a[right] and returns the
   * pivot's final index p: cells before p pass the test, cells after p fail
   * it (so the range is split around a[p] either way), and only the range
   * is rearranged. The result is exactly the functional model Partitioned.
   */
  method Partition(a: array<int>, left: int, right: int, strict: bool) returns (p: int)
    requires 0 <= left <= right < a.Length
    modifies a
    ensures SplitAround(old(a[..]), a[..], left, right, p, strict)
    ensures (a[..], p) == Partitioned(old(a[..]), left, right, strict)
  {
    var pivot := a[right];
    var i := left - 1;
    ghost var s0 := a[..];
    ghost var goal := Scan(s0, right, pivot, strict, left - 1, left);
    for j := left to right
      invariant left - 1 <= i < j && a[right] == pivot
      invariant Scan(a[..], right, pivot, strict, i, j) == goal
    {
      if GoesLow(a[j], pivot, strict) {
        i := i + 1;
        Swap(a, i, j);
      }
    }
    Swap(a, i + 1, right);
    p := i + 1;
    PartitionedSplits(s0, left, right, strict);
  }
}
