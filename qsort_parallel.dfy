/**
 * qsort_parallel.c: the same Hoare partition as q5.c (first-cell pivot), but
 * the sequential driver recurses on [left, p - 1] and [p + 1, right], the
 * pairing that belongs to Lomuto's scheme. Hoare's split index p does not hold
 * a value in its final place, so cell p is never ordered against its
 * neighbours: the driver still terminates and only rearranges the range, but
 * the result need not be sorted.
 */
module QsortParallel {
  import opened Sorting
  import opened Hoare

  /**
   * sequential_quicksort: computes exactly Hoare.SortExcludingSplit with the
   * first-cell pivot, hence terminates and only rearranges a[left..right].
   */
  method SequentialQuicksort(a: array<int>, left: int, right: int)
    requires left < right ==> 0 <= left && right < a.Length
    modifies a
    ensures a[..] == SortExcludingSplit(old(a[..]), left, right, FirstElement)
    ensures left < right ==> PermutedRange(old(a[..]), a[..], left, right + 1)
    ensures left >= right ==> a[..] == old(a[..])
    decreases right - left
  {
    if left < right {
      ghost var s0 := a[..];
      var p := PartitionBy(a, left, right, FirstElement);
      ghost var s1 := a[..];
      SequentialQuicksort(a, left, p - 1);
      ghost var s2 := a[..];
      SequentialQuicksort(a, p + 1, right);
      SortExcludingSplitStep(s0, s1, p, s2, a[..], left, right, FirstElement);
    }
  }

  /** The driver run on the array [3, 1, 2] leaves [2, 1, 3], which is not sorted. */
  method Counterexample() returns (r: seq<int>)
    ensures r == [2, 1, 3] && !SortedBetween(r, 0, 3)
  {
    var a := new int[3];
    a[0], a[1], a[2] := 3, 1, 2;
    assert a[..] == [3, 1, 2];
    SequentialQuicksort(a, 0, 2);
    FirstElementCounterexample();
    r := a[..];
  }
}
