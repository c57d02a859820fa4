# Sorting exercises and an open-addressing hash table, modelled in Dafny

This project models the algorithmic core of a set of C++ course exercises.

**String sorts (SET9/A1).** Each sort has a static `compareCount`, which becomes a field of a Dafny class.
- `MergeSort` and `QuickSort` compare whole strings. Each comparison adds the shorter length to the counter.
- `StringMergeSort` is a merge sort over (string, offset) pairs with an LCP comparison.
- `StringQuickSort` is a three-way radix quicksort on the character at `index`.
- `MSDRadixSort` uses 128 buckets.
- `HybridMSDQuickSort` hands ranges of fewer than 50 strings to `StringQuickSort`.

**Integer sorts.**
- SET3/a2: merge sort, range insertion sort and a hybrid of the two.
- SET3/a3: Lomuto quicksort, heapify and heap sort, insertion sort, and introsort.

**Hash table (SET5/A2).** `HashTable` uses open addressing with quadratic and cubic probing, counts collisions, and counts clusters of occupied cells.

**How it is modelled.**
- Strings are sequences of character codes (`Strings.Str`). They are ordered as `std::string`'s `<` orders them: a proper prefix comes first.
- Every in-place routine is a Dafny method over an `array` that changes what it `modifies`.
- Each SET9 string sort's result and counter are tied to a functional model of the same recursion. Its properties are lemmas about that functional model.
- The SET3 integer sorts have no counter and no separate functional model. Their methods state sortedness, permutation and the unchanged rest of the array directly in their postconditions.
- Where the code does not sort, the model follows the code. Lemmas then state exactly what it does instead:
  - `StringMergeSort` emits equal strings once. Sorting is proved for distinct strings. For repeated strings, the lemma is that the merged result is shorter than the array.
  - `StringQuickSort` puts exhausted strings after longer ones. Its length guard reads `strings[0]` rather than the range. A range of equal short strings re-enters the same call forever.
    - The model bounds the recursion depth with a fuel parameter. It proves concrete unsorted outputs and non-termination on stated inputs.
    - For inputs whose strings all have one length, it proves that the sort finishes once the fuel covers the number of strings plus that length, and that the result is then a sorted permutation.
    - Every call the recursion makes has no string in its range ending before `index`. So the pivot read `strings[pivotIndex][index]` never goes past the terminating `'\0'`.
  - The hybrid sort inherits these defects.
  - `introsort` keeps one copy of each pivot value. The model proves:
    - the output is ascending and holds every distinct input value;
    - it is a permutation exactly when no partition step meets its pivot twice;
    - 17 equal values lose elements.

## Model

| member | source | states |
|---|---|---|
| WholeStringMergeSort.MergeSort.Sort | SET9/A1/a1.cpp:46-50 | the array ends sorted and a permutation of its input, unchanged for fewer than two strings; the counter is reset and then equals the cost of the whole recursion (`MergeSortCostOf`) |
| WholeStringMergeSort.MergeSort.MergeSortRange | SET9/A1/a1.cpp:53-59 | `[left, right]` ends sorted and a permutation of its old contents, no position outside it changes, and the returned count is that range's cost |
| WholeStringMergeSort.MergeSort.Merge | SET9/A1/a1.cpp:61-84 | from two sorted adjacent runs, `[left, right]` ends sorted and a permutation of both runs, nothing outside changes, and the count is the merge cost of the two runs |
| WholeStringMergeSort.MergeSort.MergeRuns | SET9/A1/a1.cpp:62-79 | the temporary vector ends sorted, holds exactly the strings of both runs, and the count is their merge cost |
| WholeStringMergeSort.MergeSort.MergeOne | SET9/A1/a1.cpp:65-79 | one step of the merge loops keeps the merged prefix equal to the merge of the consumed elements and keeps the counted cost plus the remaining cost constant |
| WholeStringMergeSort.MergeSort.TakeLeft | SET9/A1/a1.cpp:67-68 | taking the left head when it is `<=` the right head (or the right run is exhausted) extends the merged prefix and charges the shorter head length |
| WholeStringMergeSort.MergeSort.TakeRight | SET9/A1/a1.cpp:69-71 | taking the right head when the left head is greater (or the left run is exhausted) extends the merged prefix and charges the shorter head length |
| WholeStringMergeSort.MergeSort.CopyBack | SET9/A1/a1.cpp:81-83 | `[left, right]` becomes the temporary vector and no other position changes |
| WholeStringMergeSort.MergeCostStep | SET9/A1/a1.cpp:65-72 | each comparison adds the shorter of the two head lengths; a tie (`<=`) consumes the left head, otherwise the right one |
| WholeStringMergeSort.MergeOfPermutation | SET9/A1/a1.cpp:61-84 | the merge holds exactly the strings of both runs |
| WholeStringMergeSort.MergeOfSorted | SET9/A1/a1.cpp:61-84 | merging two sorted runs gives a sorted run |
| WholeStringMergeSort.MergeSortOfSorted | SET9/A1/a1.cpp:53-59 | the merge sort's result is sorted and a permutation of its input |
| WholeStringMergeSort.SortedPermutationIsMergeSortOf | SET9/A1/a1.cpp:46-59 | any sorted permutation of the input is the merge sort's result, so sorted-and-permutation determines the output |
| WholeStringMergeSort.MergeSortSplit | SET9/A1/a1.cpp:53-58 | a sort of more than one string is the merge of its sorted halves, split after `(n + 1) / 2` strings; the cost is the halves' costs plus the merge's |
| WholeStringMergeSort.MergeSortCostSplitRange | SET9/A1/a1.cpp:53-58 | the cost of `[left, right]` is the cost of `[left, mid]` and `[mid + 1, right]` with `mid = left + (right - left) / 2`, plus the cost of merging their sorted contents |
| WholeStringMergeSort.MergeTakeLeft | SET9/A1/a1.cpp:65-68 | after a left take the output is still the merge of the consumed prefixes, and the remaining cost drops by the charged amount |
| WholeStringMergeSort.MergeTakeRight | SET9/A1/a1.cpp:65-71 | after a right take the output is still the merge of the consumed prefixes, and the remaining cost drops by the charged amount |
| WholeStringQuickSort.QuickSort.Sort | SET9/A1/a1.cpp:91-94 | the array ends sorted and a permutation of its input; the counter is reset and then equals the cost of the recursion (`QuickSortCostOf`) |
| WholeStringQuickSort.QuickSort.QuickSortRange | SET9/A1/a1.cpp:97-103 | `[low, high]` ends sorted and a permutation of its old contents, nothing outside it changes, and the count is that range's cost |
| WholeStringQuickSort.QuickSort.Partition | SET9/A1/a1.cpp:105-118 | the returned index is `PivotIndex` and the array is `PartitionOf` its old contents; the count adds `min(|array[j]|, |pivot|)` for every scanned `j` |
| WholeStringQuickSort.QuickSort.ScanOne | SET9/A1/a1.cpp:109-115 | one pass of the scan moves the state from `j` to `j + 1` of the Lomuto scan, with `i` one below the number of strings found smaller than the pivot |
| WholeStringQuickSort.PartitionLayout | SET9/A1/a1.cpp:105-117 | after partitioning, the old `array[high]` sits at the pivot index, everything before it in the range is less than it, nothing after it is, nothing outside changes, and the range is permuted |
| WholeStringQuickSort.LomutoLayout | SET9/A1/a1.cpp:109-115 | after scanning `[low, j)`, the strings less than the pivot occupy `[low, low + count)` and the rest of the scanned part follows |
| WholeStringQuickSort.LomutoPermutes | SET9/A1/a1.cpp:109-115 | the scan's swaps permute the contents |
| WholeStringQuickSort.LomutoUnscanned | SET9/A1/a1.cpp:109-115 | positions outside the scanned part keep their strings |
| WholeStringQuickSort.QuickSortJoin | SET9/A1/a1.cpp:97-103 | sorting both sides of a partitioned range sorts the whole range as a permutation, with nothing outside changed |
| WholeStringQuickSort.QuickSortCostLocal | SET9/A1/a1.cpp:97-110 | the counted cost of a range depends only on the contents of that range |
| LcpMergeSort.StringMergeSort.Sort | SET9/A1/a1m.cpp:11-17 | for pairwise distinct strings the array ends strictly sorted and a permutation of its input; the counter is reset and then equals the cost of the recursion |
| LcpMergeSort.StringMergeSort.CopyStrings | SET9/A1/a1m.cpp:14-16 | the array receives the strings of the sorted pairs, in order |
| LcpMergeSort.StringMergeSort.LcpCompare | SET9/A1/a1m.cpp:20-29 | returns `LcpFrom(a, b, index)` and adds one to the counter per position examined |
| LcpMergeSort.LcpFrom | SET9/A1/a1m.cpp:20-29 | from an index within both strings: every position from `index` up to the result agrees, and the result is the first differing position or the shorter length; an index past the shorter end gives that length |
| LcpMergeSort.LcpOfEqual | SET9/A1/a1m.cpp:20-29 | on a string and itself the result is its full length, from any index, so the branch at lines 43-50 cannot be taken |
| LcpMergeSort.StringMergeSort.StringMerge | SET9/A1/a1m.cpp:31-61 | returns `MergeOf(P, Q)` and adds `MergeCostOf(P, Q)` to the counter |
| LcpMergeSort.StringMergeSort.MergeHeads | SET9/A1/a1m.cpp:34-57 | the main loop stops when either run is used up; what it emitted followed by the merge of the rest is the whole merge, and the counter grew by the whole merge cost |
| LcpMergeSort.StringMergeSort.AppendRest | SET9/A1/a1m.cpp:58-59 | the drain loops append the unconsumed rest of a run |
| LcpMergeSort.StringMergeSort.StringMergeSortRec | SET9/A1/a1m.cpp:63-76 | returns `MergeSortOf(strings)` and adds its cost to the counter |
| LcpMergeSort.StepLeft | SET9/A1/a1m.cpp:35-37 | a smaller left head is emitted unchanged, with its offset, and the counter grows by the shorter length |
| LcpMergeSort.StepRight | SET9/A1/a1m.cpp:38-40 | a smaller right head is emitted unchanged, with its offset, and the counter grows by the shorter length |
| LcpMergeSort.EqualHeads | SET9/A1/a1m.cpp:41-55 | equal heads are the same string; only P's head is emitted, both heads are consumed, and the counter grows by the positions `lcpCompare` examines from the larger offset |
| LcpMergeSort.MergeOfMembers | SET9/A1/a1m.cpp:31-61 | a string occurs in the merge exactly when it occurs in P or in Q |
| LcpMergeSort.MergeOfStrictlySorted | SET9/A1/a1m.cpp:31-61 | merging two strictly sorted runs gives a strictly sorted run |
| LcpMergeSort.MergeOfLength | SET9/A1/a1m.cpp:31-61 | the merge's length plus the number of equal-head steps is `|P| + |Q|` |
| LcpMergeSort.MergeOfZeroOffsets | SET9/A1/a1m.cpp:41-55 | when every offset in both runs is 0, every offset in the merge is 0 |
| LcpMergeSort.MergeSortOfSpec | SET9/A1/a1m.cpp:63-76 | the sort's result is strictly sorted, has every offset 0, and holds exactly the strings of the input |
| LcpMergeSort.MergeSortOfSorts | SET9/A1/a1m.cpp:11-17 | for pairwise distinct strings the result has the input's length, is strictly sorted, and is a permutation of the input |
| LcpMergeSort.MergeSortOfDistinct | SET9/A1/a1m.cpp:63-76 | for pairwise distinct strings nothing is dropped: same length, same multiset |
| LcpMergeSort.MergeSortOfRepeat | SET9/A1/a1m.cpp:13-16 | when a string repeats, the result is shorter than the array, so the copy-back loop would read past its end |
| StringQuickSort.StringQuickSort.Sort | SET9/A1/a1q.cpp:11-14 | reports whether the recursion finishes within the fuel, exactly as the functional model does; when it finishes, the array and the reset counter are the model's |
| StringQuickSort.StringQuickSort.QuickSortRange | SET9/A1/a1q.cpp:17-45 | on a range where no string ends before `index` (true at index 0, and passed on to every recursive call), finishes exactly when `QuickSortOf` does, and then leaves its contents and adds its count |
| StringQuickSort.StringQuickSort.SortAfterPartition | SET9/A1/a1q.cpp:40-44 | the three recursive calls after the partition agree with the functional model |
| StringQuickSort.StringQuickSort.SortAfterLeft | SET9/A1/a1q.cpp:41-44 | the middle call (guarded by `strings[0]`) and the right call agree with the functional model |
| StringQuickSort.StringQuickSort.SortAfterMiddle | SET9/A1/a1q.cpp:44 | the right call agrees with the functional model |
| StringQuickSort.StringQuickSort.Partition | SET9/A1/a1q.cpp:22-38 | the contents and the cursors `less` and `greater` are `PartitionOf` the old contents; the counter grows by exactly `end - start` |
| StringQuickSort.StringQuickSort.SwapStrings | SET9/A1/a1q.cpp:32-36 | exchanges two positions and nothing else |
| StringQuickSort.ScanRegions | SET9/A1/a1q.cpp:29-38 | the loop keeps three regions: `[start, less)` below the pivot, `[less, equal)` at it, `[greater, end)` exhausted or above it |
| StringQuickSort.ScanPermutes | SET9/A1/a1q.cpp:32-36 | the loop's swaps permute the contents |
| StringQuickSort.ScanFrame | SET9/A1/a1q.cpp:32-36 | the loop changes nothing outside `[less, greater)` |
| StringQuickSort.PartitionLengths | SET9/A1/a1q.cpp:22-44 | when no string of the range ends before `index`, the partition changes nothing outside the range; the left and right parts again have no string ending before `index`, and the middle part none ending before `index + 1`, so each recursive call keeps this property |
| StringQuickSort.QuickSortOf | SET9/A1/a1q.cpp:17-45 | requires that no string of the range ends before `index`, so the pivot read stays within the string or its `'\0'`; a finished call changes nothing outside its range |
| StringQuickSort.PartitionSpec | SET9/A1/a1q.cpp:22-38 | after the loop the range is split into the three regions around the pivot character, permuted within `[start, end)`; when the pivot string is longer than `index` the middle region is not empty |
| StringQuickSort.QuickSortOfPermutes | SET9/A1/a1q.cpp:17-45 | a finished call permutes its range and changes nothing outside it |
| StringQuickSort.StuckDiverges | SET9/A1/a1q.cpp:20-44 | a range of two or more strings all ending at `index`, while `strings[0]` is longer, never finishes: every string goes right and the same call repeats |
| StringQuickSort.EqualShortStringsDiverge | SET9/A1/a1q.cpp:20-44 | `["aa", "b", "b"]` never finishes |
| StringQuickSort.PrefixPlacedAfter | SET9/A1/a1q.cpp:31-44 | `["aaaa", "b", "bc"]` ends as `["aaaa", "bc", "b"]`, which is not sorted |
| StringQuickSort.GuardReadsFirstString | SET9/A1/a1q.cpp:20-42 | `["a", "zab", "za"]` is returned unchanged, which is not sorted |
| StringQuickSort.QuickSortOfFinishesUniform | SET9/A1/a1q.cpp:17-45 | when every string has the same length `n` and codes 1..127, a call finishes once the fuel is at least the size of its range plus `n - index`: the pivot string lands in the middle part, the left and right parts shrink, and the middle part advances `index` until the guard on `strings[0]` stops it |
| StringQuickSort.QuickSortSortsUniform | SET9/A1/a1q.cpp:11-45 | `sort` on strings of one length `n` with codes 1..127, with fuel at least the number of strings plus `n`, finishes with a sorted permutation of its input |
| StringQuickSort.QuickSortOfSortsUniform | SET9/A1/a1q.cpp:17-45 | when every string has the same length and characters 1..127, and the range agrees below `index`, a finished call leaves the range sorted |
| MsdRadixSort.MsdRadixSort.Sort | SET9/A1/a1r.cpp:11-15 | for character codes 0..127 the array becomes `RadixOf` its input from index 0 up to the maximum length; the counter is reset and then equals `RadixCostOf` |
| MsdRadixSort.MsdRadixSort.FindMaxLength | SET9/A1/a1r.cpp:39-47 | returns `MaxLength` of the array |
| MsdRadixSort.MaxLength | SET9/A1/a1r.cpp:39-47 | bounds every length, is attained by some string, and is 0 for no strings |
| MsdRadixSort.MsdRadixSort.RadixSortRange | SET9/A1/a1r.cpp:18-37 | `[start, end)` becomes `RadixOf` its old contents, nothing outside it changes, and the counter grows by `RadixCostOf` |
| MsdRadixSort.MsdRadixSort.FillBuckets | SET9/A1/a1r.cpp:21-27 | bucket `c` holds the strings of the range whose key at `index` is `c`, in range order, and the counter grows by `end - start` |
| MsdRadixSort.MsdRadixSort.WriteBack | SET9/A1/a1r.cpp:29-36 | the range becomes the buckets in key order, each sorted at `index + 1`; nothing outside changes |
| MsdRadixSort.MsdRadixSort.AppendBucket | SET9/A1/a1r.cpp:31-35 | writing bucket `c` and sorting its positions extends the written prefix, and the counter, from buckets below `c` to buckets below `c + 1` |
| MsdRadixSort.MsdRadixSort.PlaceBucket | SET9/A1/a1r.cpp:31-34 | the bucket's positions hold `RadixOf` the bucket at `index + 1`, nothing else changes |
| MsdRadixSort.BucketMembers | SET9/A1/a1r.cpp:25-26 | every string in bucket `c` comes from the range and has key `c` at `index` (0 once it has ended) |
| MsdRadixSort.KeysBelowAll | SET9/A1/a1r.cpp:21-26 | with codes in 0..127 the 128 buckets together hold the whole range |
| MsdRadixSort.RadixOfPermutes | SET9/A1/a1r.cpp:18-37 | a pass permutes its range |
| MsdRadixSort.RadixOfMembers | SET9/A1/a1r.cpp:29-34 | every string of a sorted bucket comes from the range and has that bucket's key |
| MsdRadixSort.RadixOfKeysOrdered | SET9/A1/a1r.cpp:29-36 | after a pass the keys at `index` are non-decreasing across the range |
| MsdRadixSort.RadixOfSorted | SET9/A1/a1r.cpp:18-37 | strings with codes 1..127 that share their first `index` keys come out sorted |
| MsdRadixSort.RadixSortCorrect | SET9/A1/a1r.cpp:11-37 | for codes 1..127 the sort's result is sorted and a permutation of the input |
| MsdRadixSort.RadixCostBound | SET9/A1/a1r.cpp:23-24 | the counter grows by at most one per string per character position from `index` to the maximum length |
| HybridSort.HybridMsdQuickSort.Sort | SET9/A1/a1rq.cpp:52-55 | for codes 0..127: finishes exactly when `HybridOf` does, and then the array and the reset counter are the model's |
| HybridSort.HybridMsdQuickSort.HybridRange | SET9/A1/a1rq.cpp:58-84 | finishes exactly when `HybridOf` does on the range, then leaves its contents and adds its count; nothing outside the range changes |
| HybridSort.HybridMsdQuickSort.Fallback | SET9/A1/a1rq.cpp:61-66 | the range is copied out, sorted by `StringQuickSort` from character 0, and copied back to the same positions; nothing else changes |
| HybridSort.HybridMsdQuickSort.FillBuckets | SET9/A1/a1rq.cpp:68-73 | bucket `c` holds the strings of the range whose key at `index` is `c`, and the counter grows by `end - start` |
| HybridSort.HybridMsdQuickSort.WriteBack | SET9/A1/a1rq.cpp:75-83 | the range becomes the non-empty buckets in key order, each sorted at `index + 1`, and finishes exactly when `BucketsOf` does |
| HybridSort.HybridMsdQuickSort.AppendBucket | SET9/A1/a1rq.cpp:77-82 | one more bucket: an empty one is passed over, a non-empty one is sorted and copied to the next free positions; when it runs out of fuel, the whole write-back does |
| HybridSort.HybridMsdQuickSort.SortBucket | SET9/A1/a1rq.cpp:78-79 | the bucket sorted in its own vector at `index + 1`, as the model does it |
| HybridSort.HybridMsdQuickSort.AppendAt | SET9/A1/a1rq.cpp:80-81 | the sorted bucket is copied right after the filled prefix; nothing else changes |
| HybridSort.HybridMsdQuickSort.CopyInto | SET9/A1/a1rq.cpp:64 | the sorted sub-vector is copied back to the range's positions; nothing else changes |
| HybridSort.BucketsOfNext | SET9/A1/a1rq.cpp:76-83 | the write-back after bucket `c` is the write-back before it, plus nothing for an empty bucket or the sorted bucket otherwise |
| HybridSort.BucketsOfDivergedStays | SET9/A1/a1rq.cpp:76-83 | once a bucket's sort does not finish, neither does the write-back |
| HybridSort.HybridPermutes | SET9/A1/a1rq.cpp:58-84 | a finished call permutes its range |
| HybridSort.HybridMembers | SET9/A1/a1rq.cpp:75-82 | every string of a sorted bucket comes from the range and has that bucket's key |
| HybridSort.HybridKeysOrdered | SET9/A1/a1rq.cpp:68-83 | a finished bucketing pass leaves the keys at `index` non-decreasing |
| HybridSort.HybridSortsUniform | SET9/A1/a1rq.cpp:58-84 | when every string has the same length and codes 1..127, a finished call on strings sharing their first `index` keys leaves them sorted |
| HybridSort.HybridSortCorrectUniform | SET9/A1/a1rq.cpp:52-84 | for strings of one length `n` with codes 1..127 a finished sort is sorted and a permutation of the input, and the sort finishes when the fuel is at least `49 + n` |
| HybridSort.HybridFinishesUniform | SET9/A1/a1rq.cpp:58-84 | on strings of one length `n` with codes 1..127, every call finishes when the fuel is at least `49 + n`, the deepest recursion of the fallback on fewer than 50 strings |
| HybridSort.BucketsOfFinishesUniform | SET9/A1/a1rq.cpp:75-83 | on such strings, the write-back of the buckets below `c` finishes, since every bucket holds strings of the same length |
| HybridSort.HybridInheritsPrefixDefect | SET9/A1/a1rq.cpp:52-65 | `["aaaa", "b", "bc"]` goes whole to `StringQuickSort` and ends unsorted as `["aaaa", "bc", "b"]`, with the hybrid counter at 0 |
| HybridSort.HybridInheritsDivergence | SET9/A1/a1rq.cpp:59-65 | `["aa", "b", "b"]` never finishes |
| IntMergeSorts.Merge | SET3/a2/a2.cpp:104-130 | from sorted `[left, mid]` and `[mid + 1, right]`, `[left, right]` ends sorted and a permutation of both runs, and nothing outside it changes |
| IntMergeSorts.CopyRange | SET3/a2/a2.cpp:107-114 | `L` and `R` are fresh copies of the two runs |
| IntMergeSorts.WriteMerged | SET3/a2/a2.cpp:115-129 | the three loops write an ascending sequence holding exactly the elements of `L` and `R` to consecutive positions from `left`, and nothing else changes |
| IntMergeSorts.MergeHeads | SET3/a2/a2.cpp:115-123 | the main loop stops when `L` or `R` is used up, with the written prefix a merge of the consumed prefixes |
| IntMergeSorts.PutLeft | SET3/a2/a2.cpp:117-118 | the left element is taken when it is `<=` the right one, and the written prefix stays a sorted merge |
| IntMergeSorts.PutRight | SET3/a2/a2.cpp:120-121 | the right element is taken when it is smaller, and the written prefix stays a sorted merge |
| IntMergeSorts.DrainLeft | SET3/a2/a2.cpp:124-126 | the rest of `L` is appended, keeping the merge state |
| IntMergeSorts.DrainRight | SET3/a2/a2.cpp:127-129 | the rest of `R` is appended, keeping the merge state |
| IntMergeSorts.TakeLeftKeeps | SET3/a2/a2.cpp:116-118 | taking `L[i]` when it is `<=` `R[j]` keeps the output sorted and a permutation of the consumed prefixes |
| IntMergeSorts.TakeRightKeeps | SET3/a2/a2.cpp:116-122 | taking `R[j]` when it is below `L[i]` keeps the output sorted and a permutation of the consumed prefixes |
| IntMergeSorts.MergeWrittenBack | SET3/a2/a2.cpp:104-130 | a sorted merge of both runs written over `[left, right]` leaves that range sorted and the array a permutation |
| IntMergeSorts.MergeSort | SET3/a2/a2.cpp:132-139 | `[left, right]` ends sorted and permuted, nothing outside changes, and nothing changes at all when `left >= right` |
| IntMergeSorts.MergeSortWrapper | SET3/a2/a2.cpp:141-143 | the whole vector ends ascending and a permutation of its input |
| IntMergeSorts.InsertionSortRange | SET3/a2/a2.cpp:145-155 | `[left, right]` ends sorted and permuted, and nothing outside it changes |
| IntMergeSorts.InsertOne | SET3/a2/a2.cpp:146-154 | with `[left, i - 1]` sorted, one outer pass leaves `[left, i]` sorted and permuted |
| IntMergeSorts.ShiftGreater | SET3/a2/a2.cpp:148-152 | the inner loop shifts up by one exactly the strictly greater elements just below `i` and stops at an element `<=` the key or at `left` |
| IntMergeSorts.InsertedKey | SET3/a2/a2.cpp:146-154 | placing the key after the shifted run sorts `[left, i]` and permutes the array |
| IntMergeSorts.HybridSort | SET3/a2/a2.cpp:157-169 | for every threshold, `[left, right]` ends sorted and permuted and nothing outside changes |
| IntMergeSorts.HybridSortWrapper | SET3/a2/a2.cpp:171-173 | the whole vector ends ascending and a permutation of its input |
| IntMergeSorts.GetPartOfArray | SET3/a2/a2.cpp:34-40 | returns the first `n` elements in order |
| IntArrays.SwapAt | SET3/a3/a3.cpp:87 | exchanges two positions, changes nothing else, and permutes the array |
| IntroSorts.Partition | SET3/a3/a3.cpp:82-91 | the old `array[high]` lands at the returned index in `[low, high]`, everything before it in the range is `<=` it and everything after is `>` it, the array is permuted, and nothing outside the range changes |
| IntroSorts.QuickSortJoin | SET3/a3/a3.cpp:93-94 | sorting both sides of a partitioned range sorts the range as a permutation |
| IntroSorts.QuickSort | SET3/a3/a3.cpp:80-96 | `[low, high]` ends sorted and permuted, and nothing outside changes |
| IntroSorts.QuickSortWrapper | SET3/a3/a3.cpp:98-100 | the whole vector ends ascending and a permutation of its input |
| IntroSorts.HeapRootMax | SET3/a3/a3.cpp:120-129 | in a max-heap on `[0, n)` the root is the largest element |
| IntroSorts.Heapify | SET3/a3/a3.cpp:102-118 | if the subtrees below `i` are max-heaps, the subtree at `i` becomes one; only positions of that subtree change, and the array is permuted |
| IntroSorts.SiftDownPost | SET3/a3/a3.cpp:114-117 | after the swap with the larger child and the recursive heapify, the subtree at `i` is a max-heap |
| IntroSorts.HeapSort | SET3/a3/a3.cpp:120-129 | the vector ends ascending and a permutation of its input |
| IntroSorts.ExtractMax | SET3/a3/a3.cpp:125-128 | one pass of the extraction loop moves the heap's maximum to position `i` and restores the heap on `[0, i)`, keeping the sorted suffix above the heap |
| IntroSorts.ExtractedMax | SET3/a3/a3.cpp:125-128 | the swapped-out maximum extends the sorted suffix and stays above every remaining heap element |
| IntroSorts.InsertionSort | SET3/a3/a3.cpp:131-142 | the vector ends ascending and a permutation of its input |
| IntroSorts.Introsort | SET3/a3/a3.cpp:144-173 | the result is ascending, holds exactly the distinct input values, is a sub-multiset of the input, has the input's length exactly when no partition step met its pivot twice (and is then a permutation), and is a permutation whenever `n <= 16` or `depthLimit == 0` |
| IntroSorts.Collect | SET3/a3/a3.cpp:157-164 | `left` holds the elements below the pivot and `right` those above it, in order |
| IntroSorts.Smaller | SET3/a3/a3.cpp:159-160 | every collected element is below the pivot |
| IntroSorts.Larger | SET3/a3/a3.cpp:161-162 | every collected element is above the pivot |
| IntroSorts.SmallerCounts | SET3/a3/a3.cpp:158-160 | `left` keeps every occurrence of each value below the pivot and nothing else |
| IntroSorts.LargerCounts | SET3/a3/a3.cpp:158-163 | `right` keeps every occurrence of each value above the pivot and nothing else |
| IntroSorts.SplitSizes | SET3/a3/a3.cpp:156-172 | `|left| + |right|` plus the number of elements equal to the pivot is `n`, so the rebuilt vector loses all but one of them |
| IntroSorts.JoinSorted | SET3/a3/a3.cpp:169-172 | sorted smaller part, pivot and sorted larger part concatenate to an ascending sequence |
| IntroSorts.JoinMembers | SET3/a3/a3.cpp:169-172 | the rebuilt vector holds exactly the input's distinct values |
| IntroSorts.JoinLength | SET3/a3/a3.cpp:156-172 | the rebuilt vector has the input's length exactly when neither this step nor any recursive one met its pivot twice |
| IntroSorts.SeventeenEqual | SET3/a3/a3.cpp:146-172 | seventeen equal values with depth limit 1 do not keep their length |
| HashTables.Hash | SET5/A2.cpp:21-23 | the hash is below `M`, and equals `key % M` for a non-negative key |
| HashTables.ProbeAt | SET5/A2.cpp:32 | every probed index is below `M` |
| HashTables.FirstStop | SET5/A2.cpp:31-41 | the first probe that meets an empty cell or `key`; every earlier probe meets another key, and `M` means none of the `M` probes stops |
| HashTables.HashTable.constructor | SET5/A2.cpp:26 | `M` empty cells and no collisions |
| HashTables.HashTable.ProbeInsert | SET5/A2.cpp:29-60 | returns true exactly when some probe stops; `collisions` grows by the number of probes that met other keys; the table becomes `Inserted` of the old one |
| HashTables.HashTable.QuadraticInsert | SET5/A2.cpp:29-43 | the insert with probe offsets `i + i^2` |
| HashTables.HashTable.CubicInsert | SET5/A2.cpp:46-60 | the insert with probe offsets `i + i^2 + i^3` |
| HashTables.HashTable.CountClusters | SET5/A2.cpp:63-77 | returns the number of maximal runs of occupied cells in index order, without wrap-around |
| HashTables.HashTable.GetCollisions | SET5/A2.cpp:79-81 | the collisions counted so far |
| HashTables.InsertPresentUnchanged | SET5/A2.cpp:33-35 | inserting a key the table holds stops at it and changes nothing |
| HashTables.InsertedKeys | SET5/A2.cpp:36-42 | a stopping insert adds exactly `key` to the stored keys; a failing one leaves the keys as they were, and `key` was not among them |
| HashTables.KeysAfterWrite | SET5/A2.cpp:36-38 | writing `key` to an empty cell adds exactly `key` to the stored keys |
| HashTables.InsertKeepsPlaced | SET5/A2.cpp:29-60 | inserts keep every stored key at the first stop of its own probe sequence, so no key is stored twice |
| HashTables.PlacedNoDuplicates | SET5/A2.cpp:29-60 | a table whose keys sit at their own probe sequence's first stop stores no key twice |
| HashTables.InsertIdempotent | SET5/A2.cpp:29-60 | inserting the same key twice leaves the table as inserting it once |
| HashTables.ClustersBounds | SET5/A2.cpp:63-77 | there are no more clusters than occupied cells, and none exactly when no cell is occupied |
| HashTables.EmptyTable | SET5/A2.cpp:26 | a new table stores no key, satisfies the placement invariant, and has no clusters |

## Left out

- File and console I/O, random input generation, timing and every `main`: `TestDataHelper`, `StringSortTester`, `StringGenerator`, `ArrayGenerator`'s generators, `SortTester`, `measureTime` and `test_hashing`. The latter also averages in floating point and writes CSV.
- `introsortWrapper` computes the depth limit with floating-point `log`. `IntroSorts.Introsort` takes the depth limit as a parameter instead.
- Counters are mathematical integers. The overflow of the C++ `int` counters is not modelled.
- `size() - 1` on an empty vector is taken as `-1`, which is what it becomes once converted to `int`. The wrap-around of `size_t` itself is modelled only in the hash table's probe arithmetic.
- Character signedness: the radix sorts require character codes in 0..127, so that `buckets[c]` stays inside the 128 buckets. Codes above 127 would be negative `char`s and are not modelled. Sortedness proofs assume codes 1..127.
- Stability is not stated. Equal strings and equal integers are identical values, so the order in which equal elements come out cannot be observed.
- `StringQuickSort` recursion need not terminate. Its functional model takes a fuel bound on the recursion depth and reports `Diverged` beyond it. The methods take the same fuel and return whether they finished. Divergence for every fuel is proved by `StuckDiverges`, `EqualShortStringsDiverge` and `HybridInheritsDivergence`.
- StringQuickSort.QuickSortOfSortsUniform: sortedness is proved only for strings that all have one length. In general the code does not sort: see `PrefixPlacedAfter` and `GuardReadsFirstString`. Termination for such strings is proved separately, by `QuickSortOfFinishesUniform`.
- HybridSort.HybridSortCorrectUniform: sortedness and termination are proved only for strings that all have one length, for the same reason.
- LcpMergeSort.StringMergeSort.Sort: requires pairwise distinct strings. With a repeated string the copy-back loop reads past the end of the shorter merged result (`MergeSortOfRepeat`), and the C++ behaviour is undefined.
- `StringQuickSort::compareCount` as reset and advanced inside the hybrid's fallback is not tracked. The hybrid model counts only `HybridMSDQuickSort::compareCount`, which the fallback does not touch.
- `bucket.clear()` in `msdRadixSort` is not modelled: each call's buckets are a fresh array.
- a1rq.cpp's copies of `StringQuickSort` (lines 7-46) and of `findMaxLength` (lines 86-94) are identical to those of a1q.cpp and a1r.cpp. They are modelled once, by the `StringQuickSort` module and by `MsdRadixSort.MsdRadixSort.FindMaxLength`.
- The verbatim copies of the string sorts in SET9/A1/a1.cpp, lines 121-324, are modelled once, by the modules of their own files.
- MsdRadixSort.RadixCostBound: stated only for `index <= maxLength`, the calls the sort makes.
- HashTables.HashTable.ProbeInsert: requires `M > 0`. With `M == 0` the C++ `key % M` divides by zero.
- HashTables.HashTable.QuadraticInsert: requires `M > 0`, for the same reason.
- HashTables.HashTable.CubicInsert: requires `M > 0`, for the same reason.
- The `collisions` counter of the hash table is an unbounded integer.
