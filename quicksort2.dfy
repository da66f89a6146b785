/**
 * quicksort2.c: the partition and sequential driver of quicksort.c
 * (Quicksort.SequentialQuicksort), with a threshold field added to the
 * thread arguments: ThreadArgs is {array, left, threshold, right}. Every
 * ThreadArgs value of the file is built with a positional initialiser of
 * three values, `{array, x, y}`, which fills left and threshold and leaves
 * right zero. So the entry `quicksort` starts from left = right = 0 and does
 * nothing, and the child arguments never describe a range either.
 *
 * As in Quicksort, the two child threads run one after the other.
 */
module Quicksort2 {
  import opened Sorting
  import opened Lomuto
  import First = Quicksort

  /** The arguments of one parallel_quicksort call (the `array` field is the Dafny array itself). */
  datatype ThreadArgs = ThreadArgs(left: int, threshold: int, right: int)

  /** What the positional initialiser `{array, x, y}` builds: right is zero-filled. */
  function BraceInit(x: int, y: int): (args: ThreadArgs)
    ensures args.left == x && args.threshold == y && args.right == 0
  {
    ThreadArgs(x, y, 0)
  }

  /** parallel_quicksort does any work exactly when its range has two cells or more. */
  predicate Acts(args: ThreadArgs) {
    args.left < args.right
  }

  /** The arguments `quicksort(array, size)` starts from: `{array, 0, size - 1}`. */
  function EntryArgs(size: int): (args: ThreadArgs)
    ensures args.left == 0 && args.threshold == size - 1 && args.right == 0
  {
    BraceInit(0, size - 1)
  }

  /** Whatever the size, the entry arguments describe no range: the size lands in threshold. */
  lemma EntryNeverActs(size: int)
    ensures !Acts(EntryArgs(size))
    ensures EntryArgs(size).threshold == size - 1
  {
  }

  /**
   * The children built after a partition of [left, right] at p, `{array,
   * left, p - 1}` and `{array, p + 1, right}`, describe no range either.
   */
  lemma ChildArgsNeverAct(left: int, right: int, p: int)
    requires 0 <= left <= p <= right
    ensures !Acts(BraceInit(left, p - 1)) && !Acts(BraceInit(p + 1, right))
  {
  }

  /**
   * parallel_quicksort as written. A range shorter than the threshold is
   * sorted; a longer one is only partitioned once, because the children it
   * hands on do nothing; without a range nothing changes.
   */
  method ParallelQuicksort(a: array<int>, args: ThreadArgs)
    requires Acts(args) ==> 0 <= args.left && args.right < a.Length
    modifies a
    ensures Acts(args) && args.right - args.left < args.threshold ==> SortedBetween(a[..], args.left, args.right + 1)
    ensures Acts(args) && args.right - args.left >= args.threshold ==>
      a[..] == Partitioned(old(a[..]), args.left, args.right, true).0
    ensures Acts(args) && args.right - args.left >= args.threshold ==>
      exists p :: SplitAround(old(a[..]), a[..], args.left, args.right, p, true)
    ensures Acts(args) ==> PermutedRange(old(a[..]), a[..], args.left, args.right + 1)
    ensures !Acts(args) ==> a[..] == old(a[..])
    decreases args.right - args.left
  {
    var left, right, threshold := args.left, args.right, args.threshold;
    if left < right {
      if right - left < threshold {
        First.SequentialQuicksort(a, left, right);
        return;
      }
      var p := Partition(a, left, right, true);
      ChildArgsNeverAct(left, right, p);
      ParallelQuicksort(a, BraceInit(left, p - 1));
      ParallelQuicksort(a, BraceInit(p + 1, right));
      assert SplitAround(old(a[..]), a[..], left, right, p, true);
    }
  }

  /** quicksort(array, size) as written: the array is never changed, whatever size is. */
  method Quicksort(a: array<int>, size: int)
    requires 0 <= size <= a.Length
    modifies a
    ensures a[..] == old(a[..])
  {
    EntryNeverActs(size);
    ParallelQuicksort(a, EntryArgs(size));
  }

  /** The entry on [2, 1] leaves it unsorted. */
  method Counterexample() returns (r: seq<int>)
    ensures r == [2, 1] && !SortedBetween(r, 0, 2)
  {
    var a := new int[2];
    a[0], a[1] := 2, 1;
    assert a[..] == [2, 1];
    Quicksort(a, 2);
    r := a[..];
    assert r[0] > r[1];
  }

  /**
   * parallel_quicksort as written on [2, 3, 1] with threshold 0: the range is
   * partitioned once around the pivot 1 and the children do nothing, which
   * leaves [1, 3, 2].
   */
  method SplitOnceExample() returns (r: seq<int>)
    ensures r == [1, 3, 2] && !SortedBetween(r, 0, 3)
  {
    var a := new int[3];
    a[0], a[1], a[2] := 2, 3, 1;
    assert a[..] == [2, 3, 1];
    ParallelQuicksort(a, ThreadArgs(0, 0, 2));
    StrictExample();
    r := a[..];
    assert r[1] > r[2];
  }

  /**
   * parallel_quicksort with every field named, `{.array = array, .left = ...,
   * .threshold = threshold, .right = ...}`, the threshold passed on to the
   * children: the range ends sorted and rearranged.
   */
  method ParallelQuicksortFixed(a: array<int>, args: ThreadArgs)
    requires Acts(args) ==> 0 <= args.left && args.right < a.Length
    modifies a
    ensures Acts(args) ==> SortedBetween(a[..], args.left, args.right + 1)
    ensures Acts(args) ==> PermutedRange(old(a[..]), a[..], args.left, args.right + 1)
    ensures !Acts(args) ==> a[..] == old(a[..])
    decreases args.right - args.left
  {
    var left, right, threshold := args.left, args.right, args.threshold;
    if left < right {
      if right - left < threshold {
        First.SequentialQuicksort(a, left, right);
        return;
      }
      ghost var s0 := a[..];
      var p := Partition(a, left, right, true);
      ghost var s1 := a[..];
      ParallelQuicksortFixed(a, ThreadArgs(left, threshold, p - 1));
      ghost var s2 := a[..];
      ParallelQuicksortFixed(a, ThreadArgs(p + 1, threshold, right));
      JoinSorted(s1, s2, a[..], left, p, p + 1, right + 1, s1[p]);
      PermutedTrans(s0, s1, a[..], left, right + 1);
    }
  }

  /**
   * quicksort with the threshold passed in and the fields named,
   * `{array, 0, threshold, size - 1}`: the first size cells end sorted and
   * rearranged, and the cells after them are not touched.
   */
  method QuicksortFixed(a: array<int>, size: int, threshold: int)
    requires 0 <= size <= a.Length
    modifies a
    ensures SortedBetween(a[..], 0, size)
    ensures PermutedRange(old(a[..]), a[..], 0, size)
  {
    ParallelQuicksortFixed(a, ThreadArgs(0, threshold, size - 1));
  }
}
