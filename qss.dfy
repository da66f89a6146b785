/**
 * qss.c: quicksort with a small-range cutoff. Ranges with right - left below
 * SMALL_THRESHOLD go to insertion sort (Insertion.InsertionSort); longer
 * ones are split by a Lomuto partition that sends cells equal to the pivot to
 * the low side (`arr[j] <= pivot`), and the driver recurses on
 * [left, p - 1] and [p + 1, right].
 */
module Qss {
  import opened Sorting
  import Lomuto
  import opened Insertion

  /** Ranges with right - left below this are sorted by insertion. */
  const SMALL_THRESHOLD := 50

  /**
   * partition: Lomuto with `<=`. The pivot a[right] ends in cell p, the cells
   * before p are at most it and the cells after p greater, and only the range
   * is rearranged. When no cell exceeds the pivot (an all-equal range, say)
   * p is right, so the recursion still drops one cell per level.
   */
  method Partition(a: array<int>, left: int, right: int) returns (p: int)
    requires 0 <= left <= right < a.Length
    modifies a
    ensures Lomuto.SplitAround(old(a[..]), a[..], left, right, p, false)
    ensures AllAtMost(old(a[..]), left, right + 1, old(a[right])) ==> p == right
  {
    ghost var s0 := a[..];
    p := Lomuto.Partition(a, left, right, false);
    if AllAtMost(s0, left, right + 1, s0[right]) {
      PermutedKeepsBounds(s0, a[..], left, right + 1, s0[right]);
      assert a[..][right] <= s0[right] == a[..][p];
    }
  }

  /**
   * sequential_quicksort: sorts a[left..right] in place; the range ends up
   * non-decreasing and a rearrangement of what it held, and nothing outside
   * it changes. Ranges of fewer than two cells are left alone.
   */
  method SequentialQuicksort(a: array<int>, left: int, right: int)
    requires left < right ==> 0 <= left && right < a.Length
    modifies a
    ensures left < right ==> SortedBetween(a[..], left, right + 1)
    ensures left < right ==> PermutedRange(old(a[..]), a[..], left, right + 1)
    ensures left >= right ==> a[..] == old(a[..])
    decreases right - left
  {
    if left < right {
      if right - left < SMALL_THRESHOLD {
        InsertionSort(a, left, right);
      } else {
        ghost var s0 := a[..];
        var p := Partition(a, left, right);
        ghost var s1 := a[..];
        SequentialQuicksort(a, left, p - 1);
        ghost var s2 := a[..];
        SequentialQuicksort(a, p + 1, right);
        JoinSorted(s1, s2, a[..], left, p, p + 1, right + 1, s1[p]);
        PermutedTrans(s0, s1, a[..], left, right + 1);
      }
    }
  }
}
