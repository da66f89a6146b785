/**
 * Hoare partition, the kernel of q5.c, qsort_parallel.c, quick4.c and q6.c.
 *
 * Two cursors start just outside the range, i = low - 1 and j = high + 1.
 * Each round advances i with `do i++; while (arr[i] < pivot)`, retreats j
 * with `do j--; while (arr[j] > pivot)`, returns j once i >= j, and otherwise
 * swaps arr[i] and arr[j]. The scans have no bounds checks: they stay inside
 * [low, high] only because some cell stops each of them (a sentinel). The
 * pivot is a value that must occur in the range; the callers take it from
 * the first cell (partition_hoare) or the middle cell (partition_median_of_three,
 * quick4.c partition, q6.c choose_pivot).
 *
 * The functions below give the exact result of the loop as a function of the
 * array contents; the method runs the loop in place and is proved to compute it.
 */
module Hoare {
  import opened Sorting

  /**
   * Where `do i++; while (s[i] < pivot)` stops when its first probe is at i:
   * the first index k >= i with s[k] >= pivot, or |s| when there is none.
   */
  function ScanUp(s: seq<int>, i: int, pivot: int): (k: int)
    requires 0 <= i <= |s|
    ensures i <= k <= |s|
    ensures k < |s| ==> s[k] >= pivot
    decreases |s| - i
  {
    if i == |s| || s[i] >= pivot then i else ScanUp(s, i + 1, pivot)
  }

  /** Every cell the up-scan passes over is below the pivot. */
  lemma {:induction false} ScanUpSkips(s: seq<int>, i: int, pivot: int)
    requires 0 <= i <= |s|
    ensures forall m :: i <= m < ScanUp(s, i, pivot) ==> s[m] < pivot
    decreases |s| - i
  {
    if i < |s| && s[i] < pivot {
      ScanUpSkips(s, i + 1, pivot);
    }
  }

  /**
   * Where `do j--; while (s[j] > pivot)` stops when its first probe is at j:
   * the last index k <= j with s[k] <= pivot, or -1 when there is none.
   */
  function ScanDown(s: seq<int>, j: int, pivot: int): (k: int)
    requires -1 <= j < |s|
    ensures -1 <= k <= j
    ensures k >= 0 ==> s[k] <= pivot
    decreases j + 1
  {
    if j == -1 || s[j] <= pivot then j else ScanDown(s, j - 1, pivot)
  }

  /** Every cell the down-scan passes over is above the pivot. */
  lemma {:induction false} ScanDownSkips(s: seq<int>, j: int, pivot: int)
    requires -1 <= j < |s|
    ensures forall m :: ScanDown(s, j, pivot) < m <= j ==> s[m] > pivot
    decreases j + 1
  {
    if j >= 0 && s[j] > pivot {
      ScanDownSkips(s, j - 1, pivot);
    }
  }

  /**
   * The rounds of the `while (1)` loop from cursors i and j: the final array
   * and the returned index.
   */
  function Rounds(s: seq<int>, pivot: int, i: int, j: int): (r: (seq<int>, int))
    requires -1 <= i < j <= |s|
    ensures |r.0| == |s|
    decreases j - i
  {
    var i' := ScanUp(s, i + 1, pivot);
    var j' := ScanDown(s, j - 1, pivot);
    if i' >= j' then (s, j')
    else Rounds(Swapped(s, i', j'), pivot, i', j')
  }

  /**
   * t is s with [low, high] rearranged and split at q in [low, high]:
   * t[low..q] holds cells at most the pivot, t[q+1..high] cells at least it.
   */
  ghost predicate SplitAt(s: seq<int>, t: seq<int>, q: int, low: int, high: int, pivot: int) {
    && low <= q <= high
    && AllAtMost(t, low, q + 1, pivot) && AllAtLeast(t, q + 1, high + 1, pivot)
    && PermutedRange(s, t, low, high + 1)
  }

  /**
   * The state between rounds once the first swap is done: both cursors are
   * inside [low, high], the cells up to i are at most the pivot and the cells
   * from j are at least the pivot, so each cursor is the other scan's sentinel.
   */
  ghost predicate Between(s: seq<int>, low: int, high: int, pivot: int, i: int, j: int) {
    && 0 <= low <= i < j <= high < |s|
    && AllAtMost(s, low, i + 1, pivot) && AllAtLeast(s, j, high + 1, pivot)
  }

  /** A round whose scans meet returns a split index below high and leaves the array as it is. */
  lemma RoundStops(s: seq<int>, low: int, high: int, pivot: int, i: int, j: int)
    requires Between(s, low, high, pivot, i, j)
    requires ScanUp(s, i + 1, pivot) >= ScanDown(s, j - 1, pivot)
    ensures var q := ScanDown(s, j - 1, pivot); SplitAt(s, s, q, low, high, pivot) && q < high
  {
    var i', q := ScanUp(s, i + 1, pivot), ScanDown(s, j - 1, pivot);
    ScanUpSkips(s, i + 1, pivot);
    ScanDownSkips(s, j - 1, pivot);
    assert s[i] <= pivot && s[j] >= pivot;
    assert i' <= j && i <= q;
    forall k | low <= k <= q ensures s[k] <= pivot {
      if i < k < i' {
        assert s[k] < pivot;
      }
    }
    forall k | q < k <= high ensures s[k] >= pivot {
      if k < j {
        assert s[k] > pivot;
      }
    }
  }

  /** A round whose scans do not meet swaps two cells of the range and reaches the next state between rounds. */
  lemma RoundSwaps(s: seq<int>, low: int, high: int, pivot: int, i: int, j: int)
    requires Between(s, low, high, pivot, i, j)
    requires ScanUp(s, i + 1, pivot) < ScanDown(s, j - 1, pivot)
    ensures var i', j' := ScanUp(s, i + 1, pivot), ScanDown(s, j - 1, pivot);
      i < i' && j' < j && Between(Swapped(s, i', j'), low, high, pivot, i', j')
      && PermutedRange(s, Swapped(s, i', j'), low, high + 1)
  {
    var i', j' := ScanUp(s, i + 1, pivot), ScanDown(s, j - 1, pivot);
    ScanUpSkips(s, i + 1, pivot);
    ScanDownSkips(s, j - 1, pivot);
    SwapPermutes(s, i', j', low, high + 1);
  }

  /**
   * The rounds after the first swap: the loop returns an index strictly
   * below high that splits the range, having only swapped cells of the range.
   */
  lemma {:induction false} LaterRounds(s: seq<int>, low: int, high: int, pivot: int, i: int, j: int)
    requires Between(s, low, high, pivot, i, j)
    ensures var r := Rounds(s, pivot, i, j); SplitAt(s, r.0, r.1, low, high, pivot) && r.1 < high
    decreases j - i
  {
    var i' := ScanUp(s, i + 1, pivot);
    var j' := ScanDown(s, j - 1, pivot);
    if i' < j' {
      var s' := Swapped(s, i', j');
      RoundSwaps(s, low, high, pivot, i, j);
      LaterRounds(s', low, high, pivot, i', j');
      PermutedTrans(s, s', Rounds(s', pivot, i', j').0, low, high + 1);
    } else {
      RoundStops(s, low, high, pivot, i, j);
    }
  }

  /**
   * The whole loop, from i = low - 1 and j = high + 1, with a pivot value
   * that occurs in a[low..high]: the final array and the returned index,
   * which lies in [low, high]. What the result means is PartitionedSplits below.
   */
  function Partitioned(s: seq<int>, low: int, high: int, pivot: int): (r: (seq<int>, int))
    requires 0 <= low <= high < |s|
    requires pivot in s[low..high + 1]
    ensures |r.0| == |s| && low <= r.1 <= high
  {
    FirstRound(s, low, high, pivot);
    Rounds(s, pivot, low - 1, high + 1)
  }

  /**
   * The first round, given a cell k of the range holding the pivot: k is the
   * sentinel of both scans, so they either meet on k (the range is then
   * already split at k) or swap, after which the later rounds take over.
   */
  lemma FirstRoundAt(s: seq<int>, low: int, high: int, pivot: int, k: int)
    requires 0 <= low <= k <= high < |s| && s[k] == pivot
    ensures var r := Rounds(s, pivot, low - 1, high + 1);
      SplitAt(s, r.0, r.1, low, high, pivot) && (k < high ==> r.1 < high)
  {
    var i' := ScanUp(s, low, pivot);
    var j' := ScanDown(s, high, pivot);
    ScanUpSkips(s, low, pivot);
    ScanDownSkips(s, high, pivot);
    assert i' <= k <= j';
    if i' < j' {
      var s' := Swapped(s, i', j');
      SwapPermutes(s, i', j', low, high + 1);
      LaterRounds(s', low, high, pivot, i', j');
      assert Rounds(s, pivot, low - 1, high + 1) == Rounds(s', pivot, i', j');
      PermutedTrans(s, s', Rounds(s', pivot, i', j').0, low, high + 1);
    } else {
      assert Rounds(s, pivot, low - 1, high + 1) == (s, k);
      assert SplitAt(s, s, k, low, high, pivot);
    }
  }

  /**
   * The loop as a whole: with the pivot occurring in [low, high], the result
   * splits the range at the returned index q: a[low..q] holds cells at most
   * the pivot and a[q+1..high] cells at least the pivot; q < high whenever
   * the pivot also occurs before high (so both halves are non-empty), and only
   * the range is rearranged.
   */
  lemma FirstRound(s: seq<int>, low: int, high: int, pivot: int)
    requires 0 <= low <= high < |s|
    requires pivot in s[low..high + 1]
    ensures var r := Rounds(s, pivot, low - 1, high + 1);
      SplitAt(s, r.0, r.1, low, high, pivot) && (pivot in s[low..high] ==> r.1 < high)
  {
    if pivot in s[low..high] {
      var m :| 0 <= m < high - low && s[low..high][m] == pivot;
      FirstRoundAt(s, low, high, pivot, low + m);
    } else {
      var m :| 0 <= m < high + 1 - low && s[low..high + 1][m] == pivot;
      FirstRoundAt(s, low, high, pivot, low + m);
    }
  }

  /** The up-scan from i stops at k when k is the first cell from i at least the pivot. */
  lemma {:induction false} ScanUpAt(s: seq<int>, i: int, k: int, pivot: int)
    requires 0 <= i <= k < |s| && s[k] >= pivot
    requires forall m :: i <= m < k ==> s[m] < pivot
    ensures ScanUp(s, i, pivot) == k
    decreases k - i
  {
    if i < k {
      ScanUpAt(s, i + 1, k, pivot);
    }
  }

  /** The down-scan from j stops at k when k is the last cell up to j at most the pivot. */
  lemma {:induction false} ScanDownAt(s: seq<int>, j: int, k: int, pivot: int)
    requires 0 <= k <= j < |s| && s[k] <= pivot
    requires forall m :: k < m <= j ==> s[m] > pivot
    ensures ScanDown(s, j, pivot) == k
    decreases j - k
  {
    if k < j {
      ScanDownAt(s, j - 1, k, pivot);
    }
  }

  /** One round of the loop from cursors i and j, for the method's proof. */
  lemma RoundsUnfold(s: seq<int>, pivot: int, i: int, j: int, i': int, j': int)
    requires -1 <= i < j <= |s|
    requires i' == ScanUp(s, i + 1, pivot) && j' == ScanDown(s, j - 1, pivot)
    ensures i' >= j' ==> Rounds(s, pivot, i, j) == (s, j')
    ensures i' < j' ==> Rounds(s, pivot, i, j) == Rounds(Swapped(s, i', j'), pivot, i', j')
  {
  }

  /**
   * The up-scan `do i++; while (arr[i] < pivot)` from cursor i: it stops at
   * the first cell after i holding at least the pivot, which is at the latest
   * the sentinel cell si.
   */
  method ScanRight(a: array<int>, i: int, pivot: int, ghost si: int) returns (k: int)
    requires -1 <= i < si < a.Length && a[si] >= pivot
    ensures k == ScanUp(a[..], i + 1, pivot)
    ensures i < k <= si
  {
    k := i + 1;
    while a[k] < pivot
      invariant i < k <= si
      invariant forall m :: i < m < k ==> a[m] < pivot
      decreases si - k
    {
      k := k + 1;
    }
    ScanUpAt(a[..], i + 1, k, pivot);
  }

  /**
   * The down-scan `do j--; while (arr[j] > pivot)` from cursor j: it stops at
   * the last cell before j holding at most the pivot, which is at the latest
   * the sentinel cell sj.
   */
  method ScanLeft(a: array<int>, j: int, pivot: int, ghost sj: int) returns (k: int)
    requires 0 <= sj < j <= a.Length && a[sj] <= pivot
    ensures k == ScanDown(a[..], j - 1, pivot)
    ensures sj <= k < j
  {
    k := j - 1;
    while a[k] > pivot
      invariant sj <= k < j
      invariant forall m :: k < m < j ==> a[m] > pivot
      decreases k - sj
    {
      k := k - 1;
    }
    ScanDownAt(a[..], j - 1, k, pivot);
  }

  /**
   * Hoare partition of a[low..high] around a pivot value that occurs in the
   * range (q6.c passes the value; the other files read it from a cell first).
   * Every probe of the two scans is inside [low, high]. The final array and
   * the returned index are exactly the functional loop above, so what they
   * mean is PartitionedSplits below.
   */
  method Partition(a: array<int>, low: int, high: int, pivot: int) returns (j: int)
    requires 0 <= low <= high < a.Length
    requires pivot in a[low..high + 1]
    modifies a
    ensures (a[..], j) == Partitioned(old(a[..]), low, high, pivot)
  {
    ghost var m :| 0 <= m < high + 1 - low && a[low..high + 1][m] == pivot;
    assert a[low + m] == pivot;
    ghost var goal := Rounds(a[..], pivot, low - 1, high + 1);
    // si and sj are the sentinels that stop the next up-scan and down-scan.
    ghost var si, sj := low + m, low + m;
    var i := low - 1;
    j := high + 1;
    while true
      invariant low - 1 <= i < j <= high + 1
      invariant Rounds(a[..], pivot, i, j) == goal
      invariant i < si <= high && a[si] >= pivot
      invariant low <= sj < j && a[sj] <= pivot
      decreases j - i
    {
      ghost var i0, j0, s0 := i, j, a[..];
      i := ScanRight(a, i, pivot, si);
      j := ScanLeft(a, j, pivot, sj);
      RoundsUnfold(s0, pivot, i0, j0, i, j);
      if i >= j {
        break;
      }
      Swap(a, i, j);
      si, sj := j, i;
    }
  }

  /**
   * What Partition computes: the returned index q lies in [low, high],
   * a[low..q] holds cells at most the pivot and a[q+1..high] cells at least
   * the pivot, q < high whenever the pivot also occurs before high (so both
   * halves are non-empty), and only the range is rearranged.
   */
  lemma PartitionedSplits(s: seq<int>, low: int, high: int, pivot: int)
    requires 0 <= low <= high < |s|
    requires pivot in s[low..high + 1]
    ensures var r := Partitioned(s, low, high, pivot);
      SplitAt(s, r.0, r.1, low, high, pivot) && (pivot in s[low..high] ==> r.1 < high)
  {
    FirstRound(s, low, high, pivot);
  }

  /** How a caller picks the pivot cell of [low, high]. */
  datatype PivotRule =
    | FirstElement   // arr[low]: partition_hoare
    | MiddleElement  // arr[low + (high - low) / 2]: partition_median_of_three, quick4.c, q6.c

  /** The index of the pivot cell: inside the range, and before its end when the range has two cells or more. */
  function PivotIndex(rule: PivotRule, low: int, high: int): (k: int)
    requires low <= high
    ensures low <= k <= high
    ensures low < high ==> k < high
  {
    match rule
    case FirstElement => low
    case MiddleElement => low + (high - low) / 2
  }

  /**
   * partition_hoare and partition_median_of_three of q5.c and
   * qsort_parallel.c, and partition of quick4.c: the pivot is read from the
   * cell the rule picks, so it occurs in the range and both scans have a
   * sentinel. The result is Partition's on that value; what it means is
   * PivotSplits below.
   */
  method PartitionBy(a: array<int>, low: int, high: int, rule: PivotRule) returns (j: int)
    requires 0 <= low <= high < a.Length
    modifies a
    ensures (a[..], j) == Partitioned(old(a[..]), low, high, old(a[PivotIndex(rule, low, high)]))
  {
    var k := PivotIndex(rule, low, high);
    var pivot := a[k];
    assert pivot == a[low..high + 1][k - low];
    if low < high {
      assert pivot == a[low..high][k - low];
    }
    j := Partition(a, low, high, pivot);
  }

  /**
   * What PartitionBy computes: the pivot read from the cell the rule picks
   * occurs in the range, the range is split around it, and on a range of two
   * cells or more the split index is below high, so [low, j] and
   * [j + 1, high] are both shorter than the range.
   */
  lemma PivotSplits(s: seq<int>, low: int, high: int, rule: PivotRule)
    requires 0 <= low <= high < |s|
    ensures s[PivotIndex(rule, low, high)] in s[low..high + 1]
    ensures var pivot := s[PivotIndex(rule, low, high)]; var r := Partitioned(s, low, high, pivot);
      SplitAt(s, r.0, r.1, low, high, pivot) && (low < high ==> r.1 < high)
  {
    var k := PivotIndex(rule, low, high);
    assert s[k] == s[low..high + 1][k - low];
    if low < high {
      assert s[k] == s[low..high][k - low];
    }
    PartitionedSplits(s, low, high, s[k]);
  }

  /**
   * The scans are unguarded, so something in the range must stop them. When
   * every cell of [low, high] is below the pivot nothing stops the first
   * up-scan inside the range, and it reads past high. A pivot that occurs in
   * the range is enough to keep both scans inside it (`FirstRound`), and
   * every caller passes the value of a cell of the range.
   */
  lemma NoSentinelOverruns(s: seq<int>, low: int, high: int, pivot: int)
    requires 0 <= low <= high < |s|
    requires forall k :: low <= k <= high ==> s[k] < pivot
    ensures ScanUp(s, low, pivot) > high
  {
  }

  /**
   * What the drivers of qsort_parallel.c, quick4.c and q6.c compute: Hoare
   * partition, then recursion on [left, p - 1] and [p + 1, right]. Cell p is
   * in neither call although Hoare's split does not put a final value there.
   * The recursion terminates and only rearranges the range; ranges of fewer
   * than two cells are left alone.
   */
  function SortExcludingSplit(s: seq<int>, left: int, right: int, rule: PivotRule): (t: seq<int>)
    requires left < right ==> 0 <= left && right < |s|
    ensures |t| == |s|
    decreases right - left, 1
  {
    if left < right then SplitAndRecurse(s, left, right, rule) else s
  }

  /** The body of the driver on a range of two cells or more: partition, then both recursive calls. */
  function SplitAndRecurse(s: seq<int>, left: int, right: int, rule: PivotRule): (t: seq<int>)
    requires 0 <= left < right < |s|
    ensures |t| == |s|
    decreases right - left, 0
  {
    var k := PivotIndex(rule, left, right);
    assert s[k] == s[left..right + 1][k - left];
    var r := Partitioned(s, left, right, s[k]);
    SortExcludingSplit(SortExcludingSplit(r.0, left, r.1 - 1, rule), r.1 + 1, right, rule)
  }

  /** Ranges of fewer than two cells are left alone. */
  lemma SortExcludingSplitShort(s: seq<int>, left: int, right: int, rule: PivotRule)
    requires left >= right
    ensures SortExcludingSplit(s, left, right, rule) == s
  {
  }

  /**
   * One level of SortExcludingSplit: once the partition of [left, right]
   * has produced s1 and split index p, what is left is sorting [left, p - 1]
   * and then [p + 1, right].
   */
  lemma SortExcludingSplitUnfold(s: seq<int>, left: int, right: int, rule: PivotRule, s1: seq<int>, p: int)
    requires 0 <= left < right < |s|
    requires (s1, p) == Partitioned(s, left, right, s[PivotIndex(rule, left, right)])
    ensures SortExcludingSplit(s, left, right, rule)
         == SortExcludingSplit(SortExcludingSplit(s1, left, p - 1, rule), p + 1, right, rule)
  {
    var k := PivotIndex(rule, left, right);
    assert s[k] == s[left..right + 1][k - left];
    assert SortExcludingSplit(s, left, right, rule) == SplitAndRecurse(s, left, right, rule);
  }

  /**
   * One level of the drivers that compute SortExcludingSplit: partitioning
   * s0 into s1 at p, then sorting [left, p - 1] into s2 and [p + 1, right]
   * into s3, yields SortExcludingSplit of s0, a rearrangement of [left, right].
   */
  lemma SortExcludingSplitStep(s0: seq<int>, s1: seq<int>, p: int, s2: seq<int>, s3: seq<int>,
                               left: int, right: int, rule: PivotRule)
    requires 0 <= left < right < |s0|
    requires (s1, p) == Partitioned(s0, left, right, s0[PivotIndex(rule, left, right)])
    requires s2 == SortExcludingSplit(s1, left, p - 1, rule)
    requires s3 == SortExcludingSplit(s2, p + 1, right, rule)
    ensures s3 == SortExcludingSplit(s0, left, right, rule)
    ensures PermutedRange(s0, s3, left, right + 1)
  {
    SortExcludingSplitUnfold(s0, left, right, rule, s1, p);
    SortExcludingSplitPermutes(s0, s0, left, right, rule, left, right + 1);
  }

  /**
   * The first level of SortExcludingSplit on a range of two cells or more, in
   * terms of what it needs from the partition: a rearrangement s1 of the
   * range and a split index p inside it.
   */
  lemma SortExcludingSplitFirst(s: seq<int>, left: int, right: int, rule: PivotRule) returns (s1: seq<int>, p: int)
    requires 0 <= left < right < |s|
    ensures left <= p <= right && PermutedRange(s, s1, left, right + 1)
    ensures SortExcludingSplit(s, left, right, rule)
         == SortExcludingSplit(SortExcludingSplit(s1, left, p - 1, rule), p + 1, right, rule)
  {
    var k := PivotIndex(rule, left, right);
    assert s[k] == s[left..right + 1][k - left];
    var r := Partitioned(s, left, right, s[k]);
    s1, p := r.0, r.1;
    FirstRound(s, left, right, s[k]);
    SortExcludingSplitUnfold(s, left, right, rule, s1, p);
  }

  /**
   * SortExcludingSplit terminates (it is a total function) and only
   * rearranges [left, right]: applied to a rearrangement s of s0 within a
   * range [lo, hi) around [left, right], it gives another one.
   */
  lemma {:induction false} SortExcludingSplitPermutes(s0: seq<int>, s: seq<int>, left: int, right: int, rule: PivotRule,
                                                      lo: int, hi: int)
    requires PermutedRange(s0, s, lo, hi) && lo <= left && right < hi
    ensures PermutedRange(s0, SortExcludingSplit(s, left, right, rule), lo, hi)
    decreases right - left
  {
    if left < right {
      var s1, p := SortExcludingSplitFirst(s, left, right, rule);
      PermutedWiden(s, s1, left, right + 1, lo, hi);
      PermutedTrans(s0, s, s1, lo, hi);
      SortExcludingSplitPermutes(s0, s1, left, p - 1, rule, lo, hi);
      SortExcludingSplitPermutes(s0, SortExcludingSplit(s1, left, p - 1, rule), p + 1, right, rule, lo, hi);
    }
  }

  /** qsort_parallel.c on [3, 1, 2]: the first-cell pivot 3 splits at 1, and cells 0 and 2 are never compared again. */
  lemma FirstElementCounterexample()
    ensures SortExcludingSplit([3, 1, 2], 0, 2, FirstElement) == [2, 1, 3]
    ensures !SortedBetween(SortExcludingSplit([3, 1, 2], 0, 2, FirstElement), 0, 3)
  {
    var s := [3, 1, 2];
    assert ScanUp(s, 0, 3) == 0 && ScanDown(s, 2, 3) == 2;
    var s' := Swapped(s, 0, 2);
    assert s' == [2, 1, 3];
    assert ScanUp(s', 1, 3) == 2 && ScanDown(s', 1, 3) == 1;
    assert Rounds(s', 3, 0, 2) == (s', 1);
    assert Partitioned(s, 0, 2, 3) == (s', 1);
  }

  /** quick4.c and q6.c on [2, 3, 1]: the middle pivot 3 splits at 1, and cells 0 and 2 are never compared again. */
  lemma MiddleElementCounterexample()
    ensures SortExcludingSplit([2, 3, 1], 0, 2, MiddleElement) == [2, 1, 3]
    ensures !SortedBetween(SortExcludingSplit([2, 3, 1], 0, 2, MiddleElement), 0, 3)
  {
    var s := [2, 3, 1];
    assert ScanUp(s, 0, 3) == 1 && ScanDown(s, 2, 3) == 2;
    var s' := Swapped(s, 1, 2);
    assert s' == [2, 1, 3];
    assert ScanUp(s', 2, 3) == 2 && ScanDown(s', 1, 3) == 1;
    assert Rounds(s', 3, 1, 2) == (s', 1);
    assert Partitioned(s, 0, 2, 3) == (s', 1);
  }
}
