/**
 * Shared vocabulary of the sorting kernels: what it means for a range of an
 * int array to be sorted, bounded by a pivot, or rearranged in place, and the
 * cell exchange that every partition routine is built from.
 *
 * The C routines take inclusive bounds [left, right]; the predicates here take
 * half-open bounds [lo, hi), so a routine on [left, right] is described with
 * hi == right + 1.
 */
module Sorting {

  /** s[lo..hi) is non-decreasing. */
  ghost predicate SortedBetween(s: seq<int>, lo: int, hi: int) {
    0 <= lo <= hi <= |s| && forall i, j :: lo <= i < j < hi ==> s[i] <= s[j]
  }

  /** Every cell of s[lo..hi) is at most x. */
  ghost predicate AllAtMost(s: seq<int>, lo: int, hi: int, x: int) {
    0 <= lo <= hi <= |s| && forall k :: lo <= k < hi ==> s[k] <= x
  }

  /** Every cell of s[lo..hi) is at least x. */
  ghost predicate AllAtLeast(s: seq<int>, lo: int, hi: int, x: int) {
    0 <= lo <= hi <= |s| && forall k :: lo <= k < hi ==> s[k] >= x
  }

  /**
   * t is s with only the cells of [lo, hi) rearranged: both have the same
   * length, they agree outside the range, and they hold the same multiset of
   * values (so, with the outside fixed, the range holds the same values).
   */
  ghost predicate PermutedRange(s: seq<int>, t: seq<int>, lo: int, hi: int) {
    && 0 <= lo <= hi <= |s| == |t|
    && (forall k :: 0 <= k < |s| && !(lo <= k < hi) ==> t[k] == s[k])
    && multiset(t) == multiset(s)
  }

  /** s with the cells i and j exchanged (i == j allowed). */
  function Swapped(s: seq<int>, i: int, j: int): (t: seq<int>)
    requires 0 <= i < |s| && 0 <= j < |s|
    ensures |t| == |s| && t[i] == s[j] && t[j] == s[i]
    ensures forall k :: 0 <= k < |s| && k != i && k != j ==> t[k] == s[k]
  {
    s[i := s[j]][j := s[i]]
  }

  /** The `swap(&array[i], &array[j])` helper: exchanges exactly the two addressed cells. */
  method Swap(a: array<int>, i: int, j: int)
    requires 0 <= i < a.Length && 0 <= j < a.Length
    modifies a
    ensures a[..] == Swapped(old(a[..]), i, j)
  {
    var temp := a[i];
    a[i] := a[j];
    a[j] := temp;
  }

  /** Exchanging two cells of a range only rearranges that range. */
  lemma SwapPermutes(s: seq<int>, i: int, j: int, lo: int, hi: int)
    requires 0 <= lo <= i < hi <= |s| && lo <= j < hi
    ensures PermutedRange(s, Swapped(s, i, j), lo, hi)
  {
  }

  /** Exchanging two cells of a range extends a rearrangement of that range. */
  lemma SwapKeepsPermuted(s0: seq<int>, s: seq<int>, i: int, j: int, lo: int, hi: int)
    requires PermutedRange(s0, s, lo, hi) && lo <= i < hi && lo <= j < hi
    ensures PermutedRange(s0, Swapped(s, i, j), lo, hi)
  {
    SwapPermutes(s, i, j, lo, hi);
  }

  /** Rearrangements of one range compose. */
  lemma PermutedTrans(s: seq<int>, t: seq<int>, u: seq<int>, lo: int, hi: int)
    requires PermutedRange(s, t, lo, hi) && PermutedRange(t, u, lo, hi)
    ensures PermutedRange(s, u, lo, hi)
  {
  }

  /** A rearrangement of a range is a rearrangement of any range around it. */
  lemma PermutedWiden(s: seq<int>, t: seq<int>, lo: int, hi: int, lo': int, hi': int)
    requires PermutedRange(s, t, lo, hi) && 0 <= lo' <= lo && hi <= hi' <= |s|
    ensures PermutedRange(s, t, lo', hi')
  {
  }

  /** A range rearrangement keeps the multiset of the range itself. */
  lemma {:induction false} RangeMultiset(s: seq<int>, t: seq<int>, lo: int, hi: int)
    requires PermutedRange(s, t, lo, hi)
    ensures multiset(t[lo..hi]) == multiset(s[lo..hi])
  {
    assert t[..lo] == s[..lo] && t[hi..] == s[hi..];
    assert s == s[..lo] + s[lo..hi] + s[hi..];
    assert t == t[..lo] + t[lo..hi] + t[hi..];
    assert multiset(s) == multiset(s[..lo]) + multiset(s[lo..hi]) + multiset(s[hi..]);
    assert multiset(t) == multiset(s[..lo]) + multiset(t[lo..hi]) + multiset(s[hi..]);
    assert multiset(t[lo..hi]) == multiset(t) - multiset(s[..lo]) - multiset(s[hi..]);
    assert multiset(s[lo..hi]) == multiset(s) - multiset(s[..lo]) - multiset(s[hi..]);
  }

  /** Every value of a rearranged range was already in the range before. */
  lemma ValueCameFrom(s: seq<int>, t: seq<int>, lo: int, hi: int, k: int)
    requires PermutedRange(s, t, lo, hi) && lo <= k < hi
    ensures exists m :: lo <= m < hi && s[m] == t[k]
  {
    RangeMultiset(s, t, lo, hi);
    assert t[k] == t[lo..hi][k - lo];
    assert t[k] in multiset(s[lo..hi]);
    var m :| 0 <= m < hi - lo && s[lo..hi][m] == t[k];
    assert s[lo + m] == t[k];
  }

  /** Rearranging a range keeps every bound that held for all of its cells. */
  lemma PermutedKeepsBounds(s: seq<int>, t: seq<int>, lo: int, hi: int, x: int)
    requires PermutedRange(s, t, lo, hi)
    ensures AllAtMost(s, lo, hi, x) ==> AllAtMost(t, lo, hi, x)
    ensures AllAtLeast(s, lo, hi, x) ==> AllAtLeast(t, lo, hi, x)
  {
    forall k | lo <= k < hi
      ensures (AllAtMost(s, lo, hi, x) ==> t[k] <= x) && (AllAtLeast(s, lo, hi, x) ==> t[k] >= x)
    {
      ValueCameFrom(s, t, lo, hi, k);
    }
  }

  /** Every cell of a sorted sequence is at least its first cell, and any value it holds is too. */
  lemma SortedFirstIsLeast(s: seq<int>, x: int)
    requires SortedBetween(s, 0, |s|) && x in multiset(s)
    ensures s != [] && s[0] <= x
  {
    assert x in s;
    var n :| 0 <= n < |s| && s[n] == x;
    assert s[0] <= s[n];
  }

  /** The tail of a sorted sequence is sorted. */
  lemma SortedTail(s: seq<int>)
    requires SortedBetween(s, 0, |s|) && s != []
    ensures SortedBetween(s[1..], 0, |s| - 1)
  {
    forall i, j | 0 <= i < j < |s| - 1 ensures s[1..][i] <= s[1..][j] {
      assert s[1..][i] == s[i + 1] && s[1..][j] == s[j + 1];
    }
  }

  /** Sequences with equal first cells and equal tails are equal. */
  lemma ConsEqual(s: seq<int>, t: seq<int>)
    requires s != [] && t != [] && s[0] == t[0] && s[1..] == t[1..]
    ensures s == t
  {
    assert s == [s[0]] + s[1..] && t == [t[0]] + t[1..];
  }

  /** Removing the first cell removes one copy of its value. */
  lemma TailMultiset(s: seq<int>)
    requires s != []
    ensures multiset(s[1..]) == multiset(s) - multiset{s[0]}
  {
    assert s == [s[0]] + s[1..];
  }

  /** Two sorted sequences holding the same multiset of values are equal. */
  lemma {:induction false} SortedUnique(s: seq<int>, t: seq<int>)
    requires SortedBetween(s, 0, |s|) && SortedBetween(t, 0, |t|)
    requires multiset(s) == multiset(t)
    ensures s == t
    decreases |s|
  {
    if s == [] {
      assert |t| == |multiset(t)| == 0;
    } else {
      assert s[0] in multiset(t) by { assert s[0] in multiset(s); }
      SortedFirstIsLeast(t, s[0]);
      assert t[0] in multiset(s) by { assert t[0] in multiset(t); }
      SortedFirstIsLeast(s, t[0]);
      TailMultiset(s);
      TailMultiset(t);
      SortedTail(s);
      SortedTail(t);
      SortedUnique(s[1..], t[1..]);
      ConsEqual(s, t);
    }
  }

  /**
   * Sorting a range that is already sorted changes nothing: a sorted
   * rearrangement of a sorted range is that range.
   */
  lemma SortedRangeUnique(s: seq<int>, t: seq<int>, lo: int, hi: int)
    requires SortedBetween(s, lo, hi) && SortedBetween(t, lo, hi)
    requires PermutedRange(s, t, lo, hi)
    ensures t == s
  {
    RangeMultiset(s, t, lo, hi);
    SortedUnique(s[lo..hi], t[lo..hi]);
    forall k | 0 <= k < |s| ensures t[k] == s[k] {
      if lo <= k < hi {
        assert t[k] == t[lo..hi][k - lo] && s[k] == s[lo..hi][k - lo];
      }
    }
  }

  /**
   * The step that makes divide-and-conquer sorting correct. A partition left
   * s1 with [lo, m2) at most x and [m1, hi) at least x (so the middle
   * [m1, m2), if any, holds x only); then [lo, m1) was sorted in place giving
   * s2, and [m2, hi) was sorted in place giving s3. The whole range is then
   * sorted and a rearrangement of what the partition left.
   */
  lemma JoinSorted(s1: seq<int>, s2: seq<int>, s3: seq<int>, lo: int, m1: int, m2: int, hi: int, x: int)
    requires lo <= m1 <= m2 <= hi
    requires AllAtMost(s1, lo, m2, x) && AllAtLeast(s1, m1, hi, x)
    requires PermutedRange(s1, s2, lo, m1) && SortedBetween(s2, lo, m1)
    requires PermutedRange(s2, s3, m2, hi) && SortedBetween(s3, m2, hi)
    ensures SortedBetween(s3, lo, hi)
    ensures PermutedRange(s1, s3, lo, hi)
  {
    PermutedKeepsBounds(s1, s2, lo, m1, x);
    PermutedKeepsBounds(s2, s3, m2, hi, x);
    assert AllAtMost(s2, lo, m1, x);
    assert AllAtLeast(s3, m2, hi, x);
    assert forall k :: lo <= k < m2 ==> s3[k] <= x;
    assert forall k :: m1 <= k < hi ==> s3[k] >= x;
  }
}
