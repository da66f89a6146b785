/**
 * Insertion sort of qss.c (`insertion_sort`), used there for ranges of fewer
 * than SMALL_THRESHOLD cells. For each i from left + 1 to right the cell
 * key = arr[i] is taken out, the cells of the sorted prefix arr[left..i-1]
 * that are greater than key are shifted one place up (from the top down), and
 * key is written into the hole that is left.
 */
module Insertion {
  import opened Sorting

  /**
   * The step that closes one outer iteration. Before it, s[left..i) was
   * sorted; t is the array once the cells of s[j+1..i) greater than key moved
   * up one place and key went into cell j + 1, where j is the first cell from
   * the top that is not greater than key (or left - 1). Then t[left..i] is sorted.
   */
  lemma InsertKeepsSorted(s: seq<int>, t: seq<int>, left: int, i: int, j: int, key: int)
    requires 0 <= left <= i < |s| == |t| && left - 1 <= j < i
    requires SortedBetween(s, left, i)
    requires j >= left ==> s[j] <= key
    requires t[j + 1] == key
    requires forall k :: left <= k <= j ==> t[k] == s[k]
    requires forall k :: j + 1 < k <= i ==> t[k] == s[k - 1] && t[k] > key
    ensures SortedBetween(t, left, i + 1)
  {
    forall p, q | left <= p < q < i + 1 ensures t[p] <= t[q] {
      if q <= j {
        assert t[p] == s[p] && t[q] == s[q];
      } else if p <= j {
        assert t[p] == s[p] <= s[j] <= key;
        assert key <= t[q];
      } else if p > j + 1 {
        assert t[p] == s[p - 1] && t[q] == s[q - 1];
      }
    }
  }

  /**
   * The shape of the array during the inner loop: the cells of s1[j+1..i-1]
   * have moved up one place and are greater than key, and every other cell is
   * as it was at the start of the iteration.
   */
  ghost predicate ShiftedAbove(s1: seq<int>, t: seq<int>, j: int, i: int, key: int) {
    && |t| == |s1| && -1 <= j < i < |t|
    && (forall k {:trigger t[k]} :: 0 <= k < |t| && !(j + 1 < k <= i) ==> t[k] == s1[k])
    && (forall k {:trigger t[k]} :: j + 1 < k <= i ==> t[k] == s1[k - 1] && t[k] > key)
  }

  /** One more shift: copying cell j (greater than key) up to j + 1 keeps the shape, one cell lower. */
  lemma ShiftStep(s1: seq<int>, t: seq<int>, j: int, i: int, key: int)
    requires ShiftedAbove(s1, t, j, i, key) && 0 <= j && t[j] > key
    ensures ShiftedAbove(s1, t[j + 1 := t[j]], j - 1, i, key)
  {
  }

  /** Moving the cell at i down to p, with the cells in between moving up, keeps the multiset. */
  lemma RotateMultiset(x: seq<int>, y: seq<int>, z: seq<int>, key: int)
    ensures multiset(x + [key] + y + z) == multiset(x + y + [key] + z)
  {
  }

  /**
   * Writing key into the hole at j + 1 after the shifts moves the cell at i
   * down to j + 1 and everything in between up one place: a rearrangement of
   * [j + 1, i].
   */
  lemma InsertPermutes(s1: seq<int>, t: seq<int>, j: int, i: int, key: int)
    requires ShiftedAbove(s1, t, j, i, key) && s1[i] == key
    ensures PermutedRange(s1, t[j + 1 := key], j + 1, i + 1)
  {
    var u := t[j + 1 := key];
    var x, y, z := s1[..j + 1], s1[j + 1..i], s1[i + 1..];
    assert s1 == x + y + [key] + z by {
      forall k | 0 <= k < |s1| ensures s1[k] == (x + y + [key] + z)[k] {
      }
    }
    assert u == x + [key] + y + z by {
      forall k | 0 <= k < |u| ensures u[k] == (x + [key] + y + z)[k] {
        if j + 1 < k <= i {
          assert u[k] == t[k] == s1[k - 1];
        }
      }
    }
    RotateMultiset(x, y, z, key);
  }

  /**
   * One outer iteration as a whole: writing key into the hole at j + 1 after
   * the shifts extends the sorted prefix to [left, i] and keeps the array a
   * rearrangement of s0 within [left, right].
   */
  lemma InsertStep(s0: seq<int>, s1: seq<int>, t: seq<int>, left: int, right: int, i: int, j: int, key: int)
    requires 0 <= left <= j + 1 && i <= right < |s1|
    requires ShiftedAbove(s1, t, j, i, key) && s1[i] == key && (j >= left ==> t[j] <= key)
    requires SortedBetween(s1, left, i) && PermutedRange(s0, s1, left, right + 1)
    ensures SortedBetween(t[j + 1 := key], left, i + 1)
    ensures PermutedRange(s0, t[j + 1 := key], left, right + 1)
  {
    var u := t[j + 1 := key];
    InsertPermutes(s1, t, j, i, key);
    PermutedWiden(s1, u, j + 1, i + 1, left, right + 1);
    PermutedTrans(s0, s1, u, left, right + 1);
    InsertKeepsSorted(s1, u, left, i, j, key);
  }

  /**
   * Sorts a[left..right] in place: afterwards the range is non-decreasing and
   * a rearrangement of what it held, and no cell outside it has changed. A
   * range of fewer than two cells is left alone (the outer loop does not run),
   * and so is a range that is already sorted.
   */
  method InsertionSort(a: array<int>, left: int, right: int)
    requires left < right ==> 0 <= left && right < a.Length
    modifies a
    ensures left < right ==> SortedBetween(a[..], left, right + 1)
    ensures left < right ==> PermutedRange(old(a[..]), a[..], left, right + 1)
    ensures left >= right ==> a[..] == old(a[..])
    ensures SortedBetween(old(a[..]), left, right + 1) ==> a[..] == old(a[..])
  {
    ghost var s0 := a[..];
    var i := left + 1;
    while i <= right
      invariant left < right ==> left + 1 <= i <= right + 1
      invariant left < right ==> SortedBetween(a[..], left, i)
      invariant left < right ==> PermutedRange(s0, a[..], left, right + 1)
      invariant left >= right ==> a[..] == s0
    {
      var key := a[i];
      var j := i - 1;
      // s1 is the array at the start of the iteration, t mirrors the array.
      ghost var s1 := a[..];
      ghost var t := s1;
      while j >= left && a[j] > key
        invariant left - 1 <= j < i
        invariant a[..] == t
        invariant ShiftedAbove(s1, t, j, i, key)
      {
        ShiftStep(s1, t, j, i, key);
        a[j + 1] := a[j];
        t := t[j + 1 := t[j]];
        j := j - 1;
      }
      InsertStep(s0, s1, t, left, right, i, j, key);
      a[j + 1] := key;
      i := i + 1;
    }
    if left < right && SortedBetween(s0, left, right + 1) {
      SortedRangeUnique(s0, a[..], left, right + 1);
    }
  }
}
