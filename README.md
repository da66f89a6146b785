# pthread-quick-sort: the sequential sorting kernel, verified

The repository holds several variants of an in-place quicksort over C `int`
arrays (q5.c, q6.c, qsort_parallel.c, quicksort.c, quicksort2.c, qss.c,
quick4.c) and a checker that decides whether the second line of a file is
the sorted form of the first (compare.c). Every variant repeats the same
sequential kernel: a partition routine, a recursive sequential driver and, in
qss.c, an insertion sort for short ranges. This project models that kernel
in Dafny, file by file, as methods over `array<int>` that swap and shift
cells in place, and proves what each routine does.

- `Sorting`: sortedness, bounds and "rearrangement of a range" predicates,
  `swap`, and the lemmas the drivers share.
- `Lomuto`: the Lomuto partition with the strict `<` (quicksort.c,
  quicksort2.c, q5.c, qsort_parallel.c) or the non-strict `<=` (qss.c).
- `Hoare`: the Hoare partition with its unguarded `do … while` scans. There
  is one method with a pivot value (the q6.c form) and one that reads the
  pivot from the first or middle cell. A functional model (`Partitioned`)
  gives the exact result of the loop, and the method is proved to compute
  it. `SortExcludingSplit` is what the drivers that recurse on
  `[left, p - 1]` and `[p + 1, right]` after a Hoare split compute.
- `Insertion`: the insertion sort of qss.c.
- One module per C file (`Q5`, `QsortParallel`, `Quicksort`, `Quicksort2`,
  `Qss`, `Quick4`, `Q6`, `Compare`) with that file's drivers and entry
  points.

Bounds are inclusive `[left, right]` in the methods, as in the C code. The
predicates take half-open ranges `[lo, hi)`.

The two Hoare split index conventions are the heart of the matter. q5.c
recurses on `[left, p]` and `[p + 1, right]` and sorts. qsort_parallel.c,
quick4.c and q6.c recurse on `[left, p - 1]` and `[p + 1, right]`. That is
Lomuto's pairing, and it leaves cell p out of both calls although Hoare's
split does not put a final value there. These drivers terminate and only
rearrange the range (no value is dropped or duplicated), but the result
need not be sorted: concrete inputs are proved below. There is no task
queue or worker pool in these files. quicksort.c, quicksort2.c and
qsort_parallel.c spawn two threads per split. q5.c spawns a thread only while
its `active_threads` counter is below MAX_THREADS and sorts in the calling
thread otherwise. q6.c hands a fixed thread budget down the recursion and
synchronises at a barrier. Of the thread code, only the `parallel_quicksort`
functions of quicksort.c and quicksort2.c are modelled (their children run
one after the other); see "Left out".

## Model

| member | source | states |
|---|---|---|
| Sorting.Swap | q5.c:22-26 | a[..] is the old array with exactly cells i and j exchanged (`Swapped`: the two cells traded, every other cell unchanged) |
| Sorting.SwapPermutes | qsort_parallel.c:16-21 | exchanging two cells inside [lo, hi) leaves everything outside equal and the multiset unchanged |
| Sorting.RangeMultiset | q5.c:41-44 | a rearrangement of [lo, hi) that keeps the cells outside it also keeps the multiset of the range itself |
| Sorting.PermutedKeepsBounds | qss.c:34 | a bound on every cell of a range holds on every cell of any rearrangement of it |
| Sorting.SortedUnique | quicksort.c:37-43 | two non-decreasing sequences with the same multiset are equal |
| Sorting.SortedRangeUnique | quicksort.c:37-43 | two rearrangements of a range that are both sorted there are equal, so a sorted range is left unchanged by any sort |
| Sorting.JoinSorted | q5.c:107-108 | sorting [lo, m1) and then [m2, hi), when every cell of the first part is at most x and every cell of the second at least x, leaves [lo, hi) sorted |
| Lomuto.ScanLow | quicksort.c:26-31 | a cell that passes the test, swapped to the end of the low block, keeps the loop invariant (low block passes, scanned block fails, pivot in place, range rearranged) with both cursors advanced |
| Lomuto.PlacePivot | quicksort.c:32-33 | swapping the pivot in after the low block splits the range around it |
| Lomuto.Scan | quicksort.c:26-31 | the loop from cursors (i, j) to right, as a function: the array keeps its length and the low-block end stays in [i, right) |
| Lomuto.ScanKeeps | quicksort.c:26-31 | running the rest of the loop from any state that satisfies the loop invariant ends in a state that satisfies it with j = right: low block passes the test, scanned block fails it, pivot still at right, range rearranged |
| Lomuto.Partitioned | quicksort.c:22-34 | the whole partition as a function: same length, split index in [left, right] |
| Lomuto.PartitionedSplits | quicksort.c:22-34 | the result of `Partitioned` splits [left, right] around the old a[right]: cells before p pass the test, cells after p fail it, a[p] is the pivot, only the range is rearranged |
| Lomuto.StrictExample | quicksort.c:22-34 | the strict partition turns [2, 3, 1] into [1, 3, 2] with split index 0 |
| Lomuto.Partition | quicksort.c:22-34 | the in-place loop leaves exactly the array and index `Partitioned` gives: p in [left, right] with a[p] = the old a[right]; cells before p pass the test (`<` or `<=` the pivot) and cells after p fail it; only [left, right] is rearranged; q5.c:31-46, quicksort2.c:24-39 and qsort_parallel.c:26-41 hold the same strict partition |
| Qss.Partition | qss.c:30-45 | the `<=` Lomuto partition: cells before p are at most and cells after p greater than the pivot a[p] = old a[right]; when no cell exceeds the pivot (an all-equal range) p = right |
| Insertion.InsertKeepsSorted | qss.c:21-25 | writing key below the shifted cells extends the sorted prefix [left, i) to [left, i] |
| Insertion.ShiftStep | qss.c:21-23 | one shift `arr[j + 1] = arr[j]` of a cell greater than key keeps the inner-loop shape one cell lower |
| Insertion.InsertPermutes | qss.c:25 | writing key into the hole rotates [j + 1, i]: a rearrangement of that range |
| Insertion.InsertStep | qss.c:18-25 | one outer iteration keeps [left, i] sorted and the array a rearrangement of the input within [left, right] |
| Insertion.InsertionSort | qss.c:17-27 | a[left..right] ends non-decreasing and a rearrangement of what it held; nothing outside changes; a range of fewer than two cells, or an already sorted one, is unchanged |
| Hoare.ScanUp | q5.c:58-61 | the up-scan `do i++ while (a[i] < pivot)` as a function: the index it stops at is at least its start, and a cell inside the sequence where it stops is at least the pivot |
| Hoare.ScanUpSkips | q5.c:58-61 | every cell the up-scan passes over is below the pivot |
| Hoare.ScanDown | q5.c:65-68 | the down-scan `do j-- while (a[j] > pivot)` as a function: the index it stops at is at most its start, and a cell where it stops is at most the pivot |
| Hoare.ScanDownSkips | q5.c:65-68 | every cell the down-scan passes over is above the pivot |
| Hoare.Rounds | q5.c:53-78 | the rounds of scans and swaps from cursors (i, j), as a function: the array keeps its length; `LaterRounds` and `FirstRound` state what it computes |
| Hoare.Partitioned | q5.c:48-79 | the whole Hoare partition as a function, defined when the pivot occurs in the range: same length, split index in [low, high]; `PartitionedSplits` states the split |
| Hoare.ScanRight | q5.c:58-61 | the up-scan stops at the first cell after i that is at least the pivot, never beyond the sentinel cell |
| Hoare.ScanLeft | q5.c:65-68 | the down-scan stops at the last cell before j that is at most the pivot, never below the sentinel cell |
| Hoare.NoSentinelOverruns | q6.c:72-74 | when every cell of [low, high] is below the pivot the first up-scan reads past high: the unguarded scans need something in the range to stop them. A pivot that occurs in the range is sufficient (`FirstRound`), and every caller passes the value of a cell of the range, which keeps both scans in bounds |
| Hoare.RoundStops | q5.c:70-72 | when the scans cross, the returned j splits the range: [low, j] at most and [j + 1, high] at least the pivot, with j < high |
| Hoare.RoundSwaps | q5.c:74-77 | when the scans have not crossed, the swap keeps the split invariant with the cursors moved strictly inward and the range rearranged |
| Hoare.LaterRounds | q5.c:53-78 | every later round ends with a split index below high that splits the range, having only swapped cells of the range |
| Hoare.FirstRound | q5.c:48-79 | the whole loop started at low - 1 and high + 1, with the pivot in the range, splits [low, high] at its result and only rearranges the range; the result is below high when the pivot occurs before high |
| Hoare.Partition | q6.c:68-85 | the in-place loop with a caller-given pivot computes exactly `Partitioned`; every probe is inside [low, high] |
| Hoare.PartitionedSplits | q6.c:68-85 | the result of `Partitioned` lies in [low, high], a[low..j] is at most and a[j+1..high] at least the pivot, j < high when the pivot occurs before high, and only the range is rearranged |
| Hoare.PivotIndex | q5.c:83 | the first cell low or the middle cell low + (high - low) / 2 lies in [low, high], and below high when low < high |
| Hoare.PartitionBy | q5.c:48-100 | partition_hoare and partition_median_of_three compute exactly `Partitioned` around the chosen cell's value; qsort_parallel.c:43-94 and quick4.c:15-36 hold the same partitions |
| Hoare.PivotSplits | q5.c:81-100 | with the first or middle cell as pivot the split index j lies in [low, high], below high when low < high, and a[low..j] <= pivot <= a[j+1..high] |
| Hoare.SortExcludingSplit | qsort_parallel.c:97-105 | the p - 1 / p + 1 recursion after a Hoare split, as a function: the array keeps its length; `SortExcludingSplitPermutes` and `SortExcludingSplitShort` state what it does |
| Hoare.SplitAndRecurse | qsort_parallel.c:99-104 | one level of that recursion on a range of two cells or more: the array keeps its length |
| Hoare.SortExcludingSplitUnfold | qsort_parallel.c:97-105 | one level of the p - 1 / p + 1 recursion: after the partition, what is left is sorting [left, p - 1] and then [p + 1, right] |
| Hoare.SortExcludingSplitStep | qsort_parallel.c:99-104 | partition followed by the two recursive calls yields `SortExcludingSplit` of the input, a rearrangement of [left, right] |
| Hoare.SortExcludingSplitPermutes | quick4.c:78-84 | the p - 1 / p + 1 recursion terminates and only rearranges [left, right] |
| Hoare.SortExcludingSplitShort | quick4.c:79 | a range of fewer than two cells is left alone |
| Hoare.FirstElementCounterexample | qsort_parallel.c:101-103 | the first-cell recursion turns [3, 1, 2] into [2, 1, 3], which is not sorted |
| Hoare.MiddleElementCounterexample | quick4.c:80-82 | the middle-cell recursion turns [2, 3, 1] into [2, 1, 3], which is not sorted |
| Q5.SequentialQuicksort | q5.c:104-110 | the Hoare driver with [left, p] and [p + 1, right] terminates and leaves a[left..right] sorted and a rearrangement of what it held; a range of fewer than two cells is unchanged |
| QsortParallel.SequentialQuicksort | qsort_parallel.c:97-105 | the driver computes exactly `SortExcludingSplit` with the first-cell pivot: it terminates, only rearranges [left, right] and leaves a short range unchanged |
| QsortParallel.Counterexample | qsort_parallel.c:101-103 | the driver run on [3, 1, 2] leaves [2, 1, 3], which is not sorted |
| Quicksort.SequentialQuicksort | quicksort.c:37-43 | the Lomuto driver with [left, p - 1] and [p + 1, right] sorts a[left..right] as a rearrangement; a short or already sorted range is unchanged; quicksort2.c:42-50 is the same driver |
| Quicksort.EntryArgs | quicksort.c:81 | `{array, 0, size - 1}` names the range [0, size - 1] |
| Quicksort.EntryActsIff | quicksort.c:52 | the entry does work exactly when size >= 2 |
| Quicksort.ParallelQuicksort | quicksort.c:46-77 | with the child threads run in sequence, the range ends sorted and rearranged, and is unchanged when it has fewer than two cells |
| Quicksort.Quicksort | quicksort.c:80-83 | for 0 <= size <= a.Length, a[0..size) ends sorted and a rearrangement of what it held, cells from size on unchanged; an array of fewer than two cells is unchanged |
| Quicksort2.BraceInit | quicksort2.c:8-13 | a positional initialiser `{array, x, y}` of the struct (array, left, threshold, right) sets left = x and threshold = y and zero-fills right; lines 74-75 and 93 use it |
| Quicksort2.EntryArgs | quicksort2.c:93 | the entry arguments have left = 0, threshold = size - 1 and right = 0 |
| Quicksort2.EntryNeverActs | quicksort2.c:8-13 | the positional initialiser `{array, 0, size - 1}` of the entry (line 93) fills left and threshold and leaves right = 0: for every size the entry arguments describe no range, and size - 1 lands in threshold |
| Quicksort2.ChildArgsNeverAct | quicksort2.c:74-75 | the child arguments `{array, left, p - 1}` and `{array, p + 1, right}` describe no range either |
| Quicksort2.ParallelQuicksort | quicksort2.c:53-88 | as written: a range shorter than its threshold is sorted; a longer one is left exactly as one strict Lomuto partition (`Partitioned`) leaves it, because the children do nothing; the range is rearranged, and untouched without a range |
| Quicksort2.Quicksort | quicksort2.c:91-95 | as written, `quicksort` never changes the array, for any size with 0 <= size <= a.Length |
| Quicksort2.Counterexample | quicksort2.c:91-95 | the entry leaves [2, 1] unsorted |
| Quicksort2.SplitOnceExample | quicksort2.c:61-85 | parallel_quicksort with threshold 0 on [2, 3, 1] leaves [1, 3, 2], which is not sorted |
| Quicksort2.ParallelQuicksortFixed | quicksort2.c:53-88 | with every field named and the threshold passed on, the range ends sorted and rearranged |
| Quicksort2.QuicksortFixed | quicksort2.c:91-95 | with [0, size - 1] named as the range, a[0..size) ends sorted and a rearrangement of what it held, the rest unchanged |
| Qss.SequentialQuicksort | qss.c:48-58 | insertion sort below SMALL_THRESHOLD = 50, Lomuto `<=` partition and recursion otherwise; terminates and sorts a[left..right] as a rearrangement; a short range is unchanged |
| Quick4.SequentialQuicksort | quick4.c:78-84 | the driver computes exactly `SortExcludingSplit` with the middle-cell pivot: it terminates and only rearranges [left, right] |
| Quick4.Counterexample | quick4.c:80-82 | the driver run on [2, 3, 1] leaves [2, 1, 3], which is not sorted |
| Quick4.SequentialQuicksortFixed | quick4.c:78-84 | with [left, p] and [p + 1, right] the driver sorts the range as a rearrangement |
| Q6.Midpoint | q6.c:101 | (left + right) / 2 lies in [left, right], below right when left < right, and is the middle cell of quick4.c and q5.c |
| Q6.ChoosePivot | q6.c:108-110 | the chosen pivot is the middle cell's value, so it occurs in a[left..right], and in a[left..right - 1] when left < right |
| Q6.SequentialSort | q6.c:88-105 | the driver computes exactly `SortExcludingSplit` with the middle-cell pivot: it terminates and only rearranges [left, right] |
| Q6.Counterexample | q6.c:101-103 | the driver run on [2, 3, 1] leaves [2, 1, 3], which is not sorted |
| Q6.SequentialSortFixed | q6.c:88-105 | with [left, p] and [p + 1, right] the driver sorts the range as a rearrangement |
| Compare.Wrap32 | compare.c:7 | the result is a 32-bit int congruent to the input modulo 2^32, and equal to it when the input is an int |
| Compare.CompareAsWritten | compare.c:6-8 | `a - b` wrapped to 32 bits; its sign is the order of a and b whenever a - b fits in an int |
| Compare.CompareOverflows | compare.c:7 | `compare(INT_MAX, -1)` is negative although INT_MAX > -1 |
| Compare.Compare | compare.c:6-8 | a comparator whose sign is the order of a and b for all ints |
| Compare.CompareAgrees | compare.c:6-8 | where a - b fits in an int the written and the corrected comparator agree in sign |
| Compare.SkipCommas | compare.c:13 | strtok's skip of leading delimiters: the result is no longer than the input and does not start with a comma |
| Compare.SkipCommasShape | compare.c:13 | the skipped part is all commas and the result is the rest of the input |
| Compare.TokenLength | compare.c:13 | the length of the comma-free run strtok takes as the token: every character before it is not a comma, and the character at it, if any, is a comma |
| Compare.NextToken | compare.c:13 | one `strtok(…, ",")` call that returns a token returns a non-empty comma-free one and a strictly shorter remainder; `NextTokenNone` states when it returns NULL |
| Compare.NextTokenNone | compare.c:13-14 | strtok returns NULL exactly when the text left to scan holds nothing but commas |
| Compare.TokensShape | compare.c:13-17 | every token the strtok loop returns is non-empty and comma-free, and there are none exactly when the line holds nothing but commas |
| Compare.TokensBound | compare.c:29-39 | a line of n characters has at most (n + 1) / 2 tokens, so a 255-character line fits the `int[256]` arrays |
| Compare.TokensOfJoin | compare.c:13-16 | splitting comma-joined tokens at the commas gives the tokens back |
| Compare.SkipSpace | compare.c:15 | atoi's skip of leading white space: the result is no longer than the input and does not start with white space |
| Compare.SkipSpaceShape | compare.c:15 | the skipped part is all white space and the result is the rest of the input |
| Compare.AtoiSign | compare.c:15 | a negative value needs a `-` after the white space; a token whose first non-space character is neither a sign nor a digit (or that is all white space) reads as 0 |
| Compare.LeadingDigits | compare.c:15 | the digit run atoi reads is made of decimal digits only |
| Compare.AtoiOfDigits | compare.c:15 | atoi reads a run of decimal digits, with or without a leading minus, as its value or its negation, whatever non-digit follows |
| Compare.AtoiOfDecimal | compare.c:15 | atoi reads back the decimal form of every integer, also followed by a non-digit such as the newline fgets keeps |
| Compare.Values | compare.c:15 | one value per token, in order, each the atoi of its token |
| Compare.ParseLine | compare.c:11-19 | returns the number of tokens of the line, stores their atoi values in order at the head of the array and leaves the rest of the array unchanged |
| Compare.SamePrefix | compare.c:48-53 | the comparison loop answers true exactly when the first n cells of both arrays agree |
| Compare.SortedVersionIff | compare.c:46-55 | when s is the first line's values sorted, the second line's values equal s exactly when they are non-decreasing and a rearrangement of the first |
| Compare.SortedPrefix | compare.c:46 | after sorting [0, n) the head of the array is a non-decreasing rearrangement of what it held |
| Compare.CheckSortedVersion | compare.c:22-56 | the verdict is "sorted version" exactly when both lines have the same number of values and the second line's values are non-decreasing and a rearrangement of the first's; different counts give the negative verdict |

## Left out

- Threads: every `pthread_create`/`pthread_join`, the active-thread counter
  and mutexes of q5.c, the `parallel_quicksort` functions of q5.c,
  qsort_parallel.c and qss.c, quick4.c `quicksort`, and q6.c `PQuicksort`,
  `parallel_partition` and its barrier. These are concurrency. quick4.c
  `quicksort` also does not compile (`arg->` on a struct value). In
  quicksort.c and quicksort2.c, where `parallel_quicksort` decides what the
  entry point does, the two children are run one after the other. They work
  on disjoint ranges and are joined before the parent returns.
- `generate_random_array`, `print_array`, every `main`, the `clock()` timings
  and speedup figures, and qss.c `benchmark_sorts`: randomness, output,
  clocks, floating point and file output. Two consequences: the threshold
  chosen in quicksort2.c `main` is never passed to `quicksort`, which is not
  modelled; and `QuicksortFixed` takes the threshold as a parameter instead.
- compare.c `fopen`/`fgets` and their error paths. `CheckSortedVersion` takes
  the two lines as strings of fewer than 256 characters, which is what
  `fgets` into a `char[256]` buffer leaves.
- Compare.CheckSortedVersion: `qsort` with the written `compare` is replaced
  by `Insertion.InsertionSort`, which sorts by the true order of the values.
  The overflow of the written comparator is the finding below, so the
  verdict is proved for the corrected comparator.
- Compare.Atoi: values are unbounded integers. atoi's behaviour on values
  outside int is undefined in C and is not modelled. The values on a line are
  not reduced to 32 bits.
- `strtok` writes NUL bytes into the line it scans. The model returns the
  tokens as values instead, and the line is not changed.
- Integer width in the sorting routines: array cells and indices are
  unbounded. `left + right` in q6.c overflows an int only on arrays of more
  than 2^30 cells, which the C code does not guard against; that overflow is
  not modelled.
- plot_partition.py, plot.py and data.py: plotting and CSV handling.

## Findings

| source | as written | input that shows it | evidently intended | confidence | as-written member | corrected member |
|---|---|---|---|---|---|---|
| qsort_parallel.c:101-103 | after the Hoare partition the driver recurses on [left, p - 1] and [p + 1, right], so cell p is never ordered against its neighbours | [3, 1, 2] ends as [2, 1, 3] | recurse on [left, p] and [p + 1, right], as q5.c does | not executed | QsortParallel.Counterexample | Q5.SequentialQuicksort |
| quick4.c:80-82 | the same p - 1 / p + 1 recursion after the middle-cell Hoare partition | [2, 3, 1] ends as [2, 1, 3] | recurse on [left, p] and [p + 1, right] | not executed | Quick4.Counterexample | Quick4.SequentialQuicksortFixed |
| q6.c:101-103 | the same p - 1 / p + 1 recursion after the caller-pivot Hoare partition | [2, 3, 1] ends as [2, 1, 3] | recurse on [left, p] and [p + 1, right] | not executed | Q6.Counterexample | Q6.SequentialSortFixed |
| quicksort2.c:93 | the positional initialiser `{array, 0, size - 1}` puts size - 1 into threshold and leaves right = 0, so `quicksort` never sorts; the child arguments at lines 74-75 have the same fault | [2, 1] stays [2, 1] | name the fields: left = 0, threshold, right = size - 1, and pass the threshold on to the children | not executed | Quicksort2.Counterexample | Quicksort2.QuicksortFixed |
| compare.c:7 | `*(int *)a - *(int *)b` overflows when the difference does not fit in an int | compare(INT_MAX, -1) is negative | return the sign of the comparison, `(a > b) - (a < b)` | not executed | Compare.CompareOverflows | Compare.Compare |
