/**
 * q6.c: Hoare partition around a pivot VALUE handed in by the caller
 * (Hoare.Partition, which needs the value to occur in the range), the pivot
 * taken from the cell (left + right) / 2, and a sequential driver that, like
 * qsort_parallel.c and quick4.c, recurses on [left, p - 1] and
 * [p + 1, right]: it terminates and rearranges the range but need not sort
 * it. SequentialSortFixed recurses on [left, p] and [p + 1, right] and sorts.
 */
module Q6 {
  import opened Sorting
  import opened Hoare

  /**
   * The pivot cell (left + right) / 2 of a non-empty range with non-negative
   * bounds (C's truncating division is the floor here): it lies in the range,
   * below right when the range has two cells or more, and it is the middle
   * cell low + (high - low) / 2 of quick4.c and q5.c.
   */
  function Midpoint(left: int, right: int): (m: int)
    requires 0 <= left <= right
    ensures left <= m <= right
    ensures left < right ==> m < right
    ensures m == PivotIndex(MiddleElement, left, right)
  {
    (left + right) / 2
  }

  /** choose_pivot: the value of the middle cell, which occurs in the range. */
  function ChoosePivot(a: array<int>, left: int, right: int): (v: int)
    reads a
    requires 0 <= left <= right < a.Length
    ensures v == a[PivotIndex(MiddleElement, left, right)]
    ensures v in a[left..right + 1]
    ensures left < right ==> v in a[left..right]
  {
    var m := Midpoint(left, right);
    assert a[m] == a[left..right + 1][m - left];
    assert left < right ==> a[m] == a[left..right][m - left];
    a[m]
  }

  /**
   * sequential_sort: computes exactly Hoare.SortExcludingSplit with the
   * middle-cell pivot, hence terminates and only rearranges a[left..right].
   */
  method SequentialSort(a: array<int>, left: int, right: int)
    requires left < right ==> 0 <= left && right < a.Length
    modifies a
    ensures a[..] == SortExcludingSplit(old(a[..]), left, right, MiddleElement)
    ensures left < right ==> PermutedRange(old(a[..]), a[..], left, right + 1)
    ensures left >= right ==> a[..] == old(a[..])
    decreases right - left
  {
    if left < right {
      ghost var s0 := a[..];
      var pivot := ChoosePivot(a, left, right);
      var p := Partition(a, left, right, pivot);
      ghost var s1 := a[..];
      SequentialSort(a, left, p - 1);
      ghost var s2 := a[..];
      SequentialSort(a, p + 1, right);
      SortExcludingSplitStep(s0, s1, p, s2, a[..], left, right, MiddleElement);
    }
  }

  /** The driver run on the array [2, 3, 1] leaves [2, 1, 3], which is not sorted. */
  method Counterexample() returns (r: seq<int>)
    ensures r == [2, 1, 3] && !SortedBetween(r, 0, 3)
  {
    var a := new int[3];
    a[0], a[1], a[2] := 2, 3, 1;
    assert a[..] == [2, 3, 1];
    SequentialSort(a, 0, 2);
    MiddleElementCounterexample();
    r := a[..];
  }

  /**
   * The driver with the recursion Hoare's split calls for, [left, p] and
   * [p + 1, right]: a[left..right] ends non-decreasing and a rearrangement of
   * what it held, and nothing outside it changes.
   */
  method SequentialSortFixed(a: array<int>, left: int, right: int)
    requires left < right ==> 0 <= left && right < a.Length
    modifies a
    ensures left < right ==> SortedBetween(a[..], left, right + 1)
    ensures left < right ==> PermutedRange(old(a[..]), a[..], left, right + 1)
    ensures left >= right ==> a[..] == old(a[..])
    decreases right - left
  {
    if left < right {
      ghost var s0 := a[..];
      var pivot := ChoosePivot(a, left, right);
      var p := Partition(a, left, right, pivot);
      PartitionedSplits(s0, left, right, pivot);
      ghost var s1 := a[..];
      SequentialSortFixed(a, left, p);
      ghost var s2 := a[..];
      SequentialSortFixed(a, p + 1, right);
      JoinSorted(s1, s2, a[..], left, p + 1, p + 1, right + 1, pivot);
      PermutedTrans(s0, s1, a[..], left, right + 1);
    }
  }
}
