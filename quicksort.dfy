/**
 * quicksort.c: Lomuto partition with the strict comparison `array[j] < pivot`
 * (Lomuto.Partition with strict = true) and the sequential driver that
 * recurses on [left, p - 1] and [p + 1, right]. The pivot ends in its final
 * cell p, so neither recursive call needs it. quicksort2.c has the same
 * partition and the same driver.
 *
 * The entry `quicksort(array, size)` hands the whole array, {0, size - 1},
 * to parallel_quicksort. Here the two child threads of parallel_quicksort
 * run one after the other: they work on disjoint ranges and the parent joins
 * both before returning, so the final array is the same.
 */
module Quicksort {
  import opened Sorting
  import opened Lomuto

  /** Ranges at least this long (right - left) are split among threads. */
  const THRESHOLD := 10000

  /**
   * sequential_quicksort: sorts a[left..right] in place; the range ends up
   * non-decreasing and a rearrangement of what it held, and nothing outside
   * it changes. Ranges of fewer than two cells, and ranges that are already
   * sorted, come out unchanged.
   */
  method SequentialQuicksort(a: array<int>, left: int, right: int)
    requires left < right ==> 0 <= left && right < a.Length
    modifies a
    ensures left < right ==> SortedBetween(a[..], left, right + 1)
    ensures left < right ==> PermutedRange(old(a[..]), a[..], left, right + 1)
    ensures left >= right ==> a[..] == old(a[..])
    ensures SortedBetween(old(a[..]), left, right + 1) ==> a[..] == old(a[..])
    decreases right - left
  {
    if left < right {
      ghost var s0 := a[..];
      var p := Partition(a, left, right, true);
      ghost var s1 := a[..];
      SequentialQuicksort(a, left, p - 1);
      ghost var s2 := a[..];
      SequentialQuicksort(a, p + 1, right);
      JoinSorted(s1, s2, a[..], left, p, p + 1, right + 1, s1[p]);
      PermutedTrans(s0, s1, a[..], left, right + 1);
      if SortedBetween(s0, left, right + 1) {
        SortedRangeUnique(s0, a[..], left, right + 1);
      }
    }
  }

  /** The arguments of one parallel_quicksort call (the `array` field is the Dafny array itself). */
  datatype ThreadArgs = ThreadArgs(left: int, right: int)

  /** The arguments `quicksort(array, size)` starts from. */
  function EntryArgs(size: int): (args: ThreadArgs)
    ensures args.left == 0 && args.right == size - 1
  {
    ThreadArgs(0, size - 1)
  }

  /** parallel_quicksort does any work exactly when its range has two cells or more. */
  predicate Acts(args: ThreadArgs) {
    args.left < args.right
  }

  /** The entry acts exactly on arrays of two cells or more: `quicksort` on size <= 1 is a no-op. */
  lemma EntryActsIff(size: int)
    ensures Acts(EntryArgs(size)) <==> size >= 2
  {
  }

  /**
   * parallel_quicksort with the children run in sequence: short ranges go to
   * SequentialQuicksort, longer ones are partitioned and both sides handled
   * the same way. Either way the range ends sorted and rearranged.
   */
  method ParallelQuicksort(a: array<int>, args: ThreadArgs)
    requires Acts(args) ==> 0 <= args.left && args.right < a.Length
    modifies a
    ensures Acts(args) ==> SortedBetween(a[..], args.left, args.right + 1)
    ensures Acts(args) ==> PermutedRange(old(a[..]), a[..], args.left, args.right + 1)
    ensures !Acts(args) ==> a[..] == old(a[..])
    decreases args.right - args.left
  {
    var left, right := args.left, args.right;
    if left < right {
      if right - left < THRESHOLD {
        SequentialQuicksort(a, left, right);
        return;
      }
      ghost var s0 := a[..];
      var p := Partition(a, left, right, true);
      ghost var s1 := a[..];
      ParallelQuicksort(a, ThreadArgs(left, p - 1));
      ghost var s2 := a[..];
      ParallelQuicksort(a, ThreadArgs(p + 1, right));
      JoinSorted(s1, s2, a[..], left, p, p + 1, right + 1, s1[p]);
      PermutedTrans(s0, s1, a[..], left, right + 1);
    }
  }

  /**
   * quicksort(array, size) on the first size cells of a: they end sorted and
   * rearranged, the cells after them are not touched, and nothing at all
   * changes when size is below two.
   */
  method Quicksort(a: array<int>, size: int)
    requires 0 <= size <= a.Length
    modifies a
    ensures SortedBetween(a[..], 0, size)
    ensures PermutedRange(old(a[..]), a[..], 0, size)
    ensures size <= 1 ==> a[..] == old(a[..])
  {
    ParallelQuicksort(a, EntryArgs(size));
  }
}
