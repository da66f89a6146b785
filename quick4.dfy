/**
 * quick4.c: Hoare partition around the middle cell arr[low + (high - low) / 2]
 * (Hoare.PartitionBy with MiddleElement) and a sequential driver that, like
 * qsort_parallel.c, recurses on [left, p - 1] and [p + 1, right]. Cell p is
 * left out of both calls although Hoare's split does not put it in its final
 * place, so the driver terminates and rearranges the range but need not sort
 * it. SequentialQuicksortFixed recurses on [left, p] and [p + 1, right]
 * instead, as q5.c does, and sorts.
 */
module Quick4 {
  import opened Sorting
  import opened Hoare

  /**
   * sequential_quicksort: computes exactly Hoare.SortExcludingSplit with the
   * middle-cell pivot, hence terminates and only rearranges a[left..right].
   */
  method SequentialQuicksort(a: array<int>, left: int, right: int)
    requires left < right ==> 0 <= left && right < a.Length
    modifies a
    ensures a[..] == SortExcludingSplit(old(a[..]), left, right, MiddleElement)
    ensures left < right ==> PermutedRange(old(a[..]), a[..], left, right + 1)
    ensures left >= right ==> a[..] == old(a[..])
    decreases right - left
  {
    if left < right {
      ghost var s0 := a[..];
      var p := PartitionBy(a, left, right, MiddleElement);
      ghost var s1 := a[..];
      SequentialQuicksort(a, left, p - 1);
      ghost var s2 := a[..];
      SequentialQuicksort(a, p + 1, right);
      SortExcludingSplitStep(s0, s1, p, s2, a[..], left, right, MiddleElement);
    }
  }

  /** The driver run on the array [2, 3, 1] leaves [2, 1, 3], which is not sorted. */
  method Counterexample() returns (r: seq<int>)
    ensures r == [2, 1, 3] && !SortedBetween(r, 0, 3)
  {
    var a := new int[3];
    a[0], a[1], a[2] := 2, 3, 1;
    assert a[..] == [2, 3, 1];
    SequentialQuicksort(a, 0, 2);
    MiddleElementCounterexample();
    r := a[..];
  }

  /**
   * The driver with the recursion Hoare's split calls for, [left, p] and
   * [p + 1, right]: a[left..right] ends non-decreasing and a rearrangement of
   * what it held, and nothing outside it changes. Both parts are shorter than
   * the range because the split index is below right.
   */
  method SequentialQuicksortFixed(a: array<int>, left: int, right: int)
    requires left < right ==> 0 <= left && right < a.Length
    modifies a
    ensures left < right ==> SortedBetween(a[..], left, right + 1)
    ensures left < right ==> PermutedRange(old(a[..]), a[..], left, right + 1)
    ensures left >= right ==> a[..] == old(a[..])
    decreases right - left
  {
    if left < right {
      ghost var s0 := a[..];
      ghost var pivot := a[PivotIndex(MiddleElement, left, right)];
      var p := PartitionBy(a, left, right, MiddleElement);
      PivotSplits(s0, left, right, MiddleElement);
      ghost var s1 := a[..];
      SequentialQuicksortFixed(a, left, p);
      ghost var s2 := a[..];
      SequentialQuicksortFixed(a, p + 1, right);
      JoinSorted(s1, s2, a[..], left, p + 1, p + 1, right + 1, pivot);
      PermutedTrans(s0, s1, a[..], left, right + 1);
    }
  }
}
