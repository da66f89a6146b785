/**
 * q5.c: the sequential driver over the first-cell Hoare partition. After the
 * split at p it recurses on [left, p] and [p + 1, right], which is the
 * correct pairing for Hoare's scheme: every cell of the first part is at most
 * every cell of the second, and p < right keeps both parts shorter than the
 * range. The Lomuto, first-cell Hoare and middle-cell Hoare partitions of this
 * file are Lomuto.Partition and Hoare.PartitionBy.
 */
module Q5 {
  import opened Sorting
  import opened Hoare

  /**
   * sequential_quicksort: sorts a[left..right] in place; the range ends up
   * non-decreasing and a rearrangement of what it held, and nothing outside
   * it changes. Ranges of fewer than two cells are left alone.
   */
  method SequentialQuicksort(a: array<int>, left: int, right: int)
    requires left < right ==> 0 <= left && right < a.Length
    modifies a
    ensures left < right ==> SortedBetween(a[..], left, right + 1)
    ensures left < right ==> PermutedRange(old(a[..]), a[..], left, right + 1)
    ensures left >= right ==> a[..] == old(a[..])
    decreases right - left
  {
    if left < right {
      ghost var s0 := a[..];
      ghost var pivot := a[left];
      var p := PartitionBy(a, left, right, FirstElement);
      PivotSplits(s0, left, right, FirstElement);
      ghost var s1 := a[..];
      SequentialQuicksort(a, left, p);
      ghost var s2 := a[..];
      SequentialQuicksort(a, p + 1, right);
      JoinSorted(s1, s2, a[..], left, p + 1, p + 1, right + 1, pivot);
      PermutedTrans(s0, s1, a[..], left, right + 1);
    }
  }
}
