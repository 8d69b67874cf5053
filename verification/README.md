# pangua sorters, modelled in Dafny

`pangua` is a small Rust library of in-place comparison sorts. Each sort is
a type that implements the `Sorter` trait (`fn sort(&self, slice: &mut [T])`
with `T: Ord`). The library has bubble sort, insertion sort (a linear walk
and a binary-search `smart` variant), selection sort, quick sort, heap sort
and merge sort. A free function, `sort(slice, sorter)`, hands a slice to a
sorter.

This project models every one of those sorts as imperative Dafny over an
`array<int>`. Each is a method with `modifies a`. Sub-slices, which the
Rust code takes with `split_first_mut`, `split_at_mut` and `slice[i..=j]`,
become index ranges into the same array. Every sorter is proved to leave
the array ascending (`Ordering.Sorted`) and to be a permutation of its input
(`multiset(a[..]) == multiset(old(a[..]))`). Beyond that, each sorter's
own loop invariants are stated and proved:

- the settled suffix of bubble sort;
- the sorted prefix of insertion sort;
- the settled prefix of selection sort;
- the cursor invariant of the quick sort partition;
- the heap property of heap sort;
- the merge state of merge sort.

Modules:

- `Ordering`: the shared specification. It holds `Sorted`, `Settled` and
  `InsertionPoint`, plus `UnchangedOutside`, the frame "nothing outside
  `lo..hi` moved". It also proves that the sorted arrangement of a multiset
  is unique.
- `SliceOps`: the slice primitives `swap`, `rotate_right(1)` on an
  inclusive range, and `binary_search` on a sorted prefix.
- `BubbleSort`, `InsertionSort`, `SelectionSort`, `QuickSort`, `HeapSort`,
  `MergeSort`: one module per sorter.
- `Sorters`: the `Sorter` strategies as a datatype, the `sort` dispatch, and
  the library's test case.

A few loops and loop bodies are separate methods, so that each proof stays small:

- `QuickSort.PartitionRest`, the cursor loop of `quicksort`;
- `QuickSort.ExchangePair`, the swap in the loop's third branch;
- `MergeSort.ShiftIn`, the rotation branch of `merge`;
- `SelectionSort.SelectInto`, one round of selection sort.

`PartitionRest` and `SelectInto` run the same statements, in the same
order, as the Rust code. `ExchangePair` runs only the `rest.swap(left,
right)` of its branch, and `PartitionRest` then moves the cursors.
`ShiftIn` runs only the rotation of its branch; `Merge` itself then updates
the markers `start`, `mid` and `start2`, as the Rust code does after the
rotation.

## Model

| member | source | states |
|---|---|---|
| Ordering.AdjacentSortedIsSorted | src/lib.rs:30-39 | once every neighbouring pair is in order, which is when a bubble pass finds no swap, the whole slice is sorted |
| Ordering.InsertSorted | src/lib.rs:58-71 | placing an element into a sorted prefix at a point with everything before it at most the element and everything after it at least the element keeps the prefix sorted |
| Ordering.SortedPermutationUnique | src/lib.rs:3-16 | two sorted sequences with the same multiset are equal, so every correct `Sorter` gives the same output for the same input |
| Ordering.RangeMultiset | src/lib.rs:158-161 | a permutation of the whole array that leaves everything outside `lo..hi` in place is a permutation of the range `lo..hi` |
| Ordering.AtMostFollowsMultiset | src/lib.rs:158-161 | an upper bound on the elements of a range survives any rearrangement of the range |
| Ordering.AboveFollowsMultiset | src/lib.rs:158-161 | a strict lower bound on the elements of a range survives any rearrangement of the range |
| Ordering.SortedBetweenSlice | src/lib.rs:274-277 | a range being sorted in place is the same as the sub-slice being sorted, in both directions |
| Ordering.ShortIsSorted | src/lib.rs:121-122 | a slice of at most one element is already sorted |
| SliceOps.Swap | src/lib.rs:35 | `slice.swap(i, j)` exchanges exactly the two elements and keeps the multiset |
| SliceOps.RotatedRight | src/lib.rs:70 | `rotate_right(1)` on `lo..=hi`: the element at `hi` moves to `lo`, `lo..hi` moves up one place, the rest stays, and the multiset is kept |
| SliceOps.RotateRight1 | src/lib.rs:259 | rotating in place one element at a time yields exactly `RotatedRight` of the old contents |
| SliceOps.RotatedRightAt | src/lib.rs:70 | where each element of the rotated slice comes from, index by index |
| SliceOps.RotatedRightIsRotated | src/lib.rs:259 | `RotatedRight` satisfies the element-wise description `Rotated` used by the merge |
| SliceOps.BinarySearch | src/lib.rs:67-69 | on a sorted prefix: `Found(i)` exactly when the value occurs, with `a[i]` equal to it; otherwise `NotFound(i)` with everything before `i` smaller and everything from `i` on larger |
| SliceOps.SearchIndexIsInsertionPoint | src/lib.rs:67-68 | the index taken from `Ok(i)` or `Err(i)`, found or not, is a valid insertion point for the value |
| BubbleSort.PassStart | src/lib.rs:32-33 | a pass starts with nothing swapped and nothing moved |
| BubbleSort.NoSwapInSettled | src/lib.rs:34 | a comparison inside the settled suffix never swaps |
| BubbleSort.SwapStep | src/lib.rs:34-36 | a swapping comparison keeps the pass invariant: the largest element seen so far is carried up, and the slice was not in order |
| BubbleSort.KeepStep | src/lib.rs:34 | a comparison that does not swap keeps the pass invariant |
| BubbleSort.PassEnd | src/lib.rs:33-38 | at the end of a pass, `swapped` holds exactly when some neighbouring pair was out of order; with no swap nothing moved; with a swap the settled suffix grows by one |
| BubbleSort.Pass | src/lib.rs:32-38 | one pass keeps the multiset; it reports a swap if and only if the slice was not in order; a pass without a swap leaves the slice unchanged; a pass with a swap extends the settled suffix |
| BubbleSort.Sort | src/lib.rs:25-41 | passes repeat until one makes no swap; the slice then ends sorted and a permutation of its input; input already in order takes exactly one pass, without a swap, and no input takes more than `n + 1` passes |
| InsertionSort.InsertByWalk | src/lib.rs:60-64 | the walk moves `slice[unsorted]` into the sorted prefix at a valid insertion point, past only strictly greater elements, and leaves the rest in place |
| InsertionSort.InsertBySearch | src/lib.rs:66-70 | the search index `i` satisfies `i <= unsorted`; the result is `slice[i..=unsorted]` rotated right by one, which is an insertion at a valid point |
| InsertionSort.RotationInserts | src/lib.rs:70 | rotating `i..=unsorted` right by one, with `i` an insertion point for `slice[unsorted]`, inserts it at `i` and moves nothing else |
| InsertionSort.InsertedSorted | src/lib.rs:58-72 | an insertion at a valid point leaves `slice[..=unsorted]` sorted |
| InsertionSort.InsertedPermutes | src/lib.rs:58-72 | an insertion only rearranges `slice[..=unsorted]` |
| InsertionSort.InsertionRound | src/lib.rs:58-72 | after round `unsorted`, `slice[..=unsorted]` is sorted and a permutation of the original prefix, and the rest is untouched |
| InsertionSort.GrowPrefix | src/lib.rs:58 | two prefixes that are permutations of each other stay so when both take the same next element |
| InsertionSort.Sort | src/lib.rs:52-74 | both variants leave the slice sorted and a permutation of its input |
| SelectionSort.FirstMinIndex | src/lib.rs:97-103 | the index returned is a minimum of `slice[unsorted..]`, the first one on ties, as `min_by_key` gives |
| SelectionSort.SelectStep | src/lib.rs:104-106 | swapping that minimum to `unsorted`, or leaving it when it is there already, grows the settled prefix by one |
| SelectionSort.SettledPrefixIsSorted | src/lib.rs:97 | a settled prefix that spans the whole slice is a sorted slice |
| SelectionSort.SelectInto | src/lib.rs:97-106 | one round grows the settled prefix by one and keeps the multiset; it swaps exactly when some later element is strictly smaller than `slice[unsorted]`, and then exchanges `unsorted` with the first minimum of `slice[unsorted..]`, as `min_by_key` picks it, and moves nothing else; without a swap nothing changes, and the last position never swaps |
| SelectionSort.Sort | src/lib.rs:86-109 | the slice ends sorted and a permutation of its input, after at most `n - 1` swaps |
| QuickSort.AdvanceLeft | src/lib.rs:135-136 | an element at most the pivot stays on the left, and the cursor invariant holds one place further on |
| QuickSort.RetreatRight | src/lib.rs:137-143 | an element greater than the pivot stays on the right, and the cursor invariant holds one place further in |
| QuickSort.SwapCursors | src/lib.rs:144-152 | the swap of an out-of-place pair keeps the cursor invariant with both cursors moved |
| QuickSort.CursorsCrossed | src/lib.rs:134-154 | when the cursors cross, or at a `break` with `right == 0`, `rest` is split at `left`: at most the pivot before, greater from `left` on |
| QuickSort.PlacePivot | src/lib.rs:157 | `slice.swap(0, left)` puts the pivot at `left`, with everything before it at most the pivot, everything after it greater, and nothing outside the range moved |
| QuickSort.ExchangePair | src/lib.rs:144-146 | exchanging an element above the pivot at `left` with one at most the pivot at `right` keeps the cursor invariant with both cursors moved, shows `left < right`, and keeps the multiset |
| QuickSort.PartitionRest | src/lib.rs:131-154 | the cursor loop splits `rest` at `left`, keeps the pivot at the front, keeps the multiset, and moves nothing outside the range |
| QuickSort.Partition | src/lib.rs:131-159 | after partitioning, the pivot sits at `p`, with everything before it at most the pivot, everything after it greater, and the multiset kept; so `left.last() <= right.first()` holds |
| QuickSort.SortedAroundPivot | src/lib.rs:158-161 | sorting the two sides of a partitioned range sorts the range |
| QuickSort.QuickSortRange | src/lib.rs:120-162 | lengths 0 and 1 are left alone, a pair is put in order, and longer ranges recurse on two strictly shorter ranges; the range ends sorted, the multiset is kept, and nothing outside the range moves |
| QuickSort.Sort | src/lib.rs:163-170 | the slice ends sorted and a permutation of its input |
| HeapSort.HeapRootIsMax | src/lib.rs:212-226 | in a max-heap the root is at least every element of the heap |
| HeapSort.SiftStart | src/lib.rs:193 | sifting starts with the hole of the heap property at `start` |
| HeapSort.SiftSwap | src/lib.rs:195-207 | swapping the root with its greater child, when that child exceeds it, moves the hole down to that child |
| HeapSort.SiftStep | src/lib.rs:195-207 | the same step, with nothing outside `start..=end` moved |
| HeapSort.SiftEnd | src/lib.rs:194-205 | sifting stops with a heap from `start` when the root is at least its children or has none |
| HeapSort.SiftDown | src/lib.rs:191-209 | with the subtrees below `start` already heaps, `sift_down` makes `start..=end` a heap, keeps the multiset, and changes only `start..=end` |
| HeapSort.Heapify | src/lib.rs:183-190 | the whole slice becomes a max-heap (parent of `i` at `(i - 1) / 2`) and the multiset is kept |
| HeapSort.ExtractMax | src/lib.rs:223-224 | swapping the root with `end` puts the maximum in front of the settled suffix; what remains is a heap below the root |
| HeapSort.RearrangeKeepsSettled | src/lib.rs:225 | rearranging the heap before the settled suffix keeps the suffix settled |
| HeapSort.Sort | src/lib.rs:212-228 | lengths 0 and 1 return at once; otherwise the extraction loop keeps `slice[..=end]` a heap below a sorted suffix that is at least all of it; the slice ends sorted and a permutation of its input |
| MergeSort.JoinRuns | src/lib.rs:251-253 | when `slice[mid] <= slice[mid + 1]`, the two sorted runs already form one sorted run, so the early return is correct |
| MergeSort.MergeStart | src/lib.rs:249-250 | merging starts with an empty output |
| MergeSort.TakeLeft | src/lib.rs:255-256 | taking the left head on `<=` keeps the merge state |
| MergeSort.TakeRight | src/lib.rs:257-263 | rotating the right head in front of the left run keeps the merge state, with the markers moved |
| MergeSort.TakeRightOutput | src/lib.rs:259 | the rotated right head extends the sorted output and stays below what remains |
| MergeSort.TakeRightRuns | src/lib.rs:259-263 | after the rotation the left run, one place higher, and the shortened right run are still sorted |
| MergeSort.ShiftIn | src/lib.rs:257-264 | the rotation branch keeps the merge state with `start` and `mid` advanced, and keeps the multiset |
| MergeSort.MergeEnd | src/lib.rs:254 | when either run is used up, the range is sorted and nothing outside it has moved |
| MergeSort.Merge | src/lib.rs:249-266 | two sorted adjacent runs become one sorted range; the multiset is kept and nothing outside `first..=end` changes |
| MergeSort.MergeSortRange | src/lib.rs:241-248 | `slice[left..=right]` ends sorted; the multiset is kept and nothing outside the range changes |
| MergeSort.Sort | src/lib.rs:269-279 | lengths 0 and 1 return at once; the slice ends sorted and a permutation of its input |
| Sorters.Sort | src/lib.rs:10-16 | whichever sorter is chosen, the slice ends sorted and a permutation of its input, and a slice already in order (every empty or one-element slice among them) is left exactly as it was |
| Sorters.SameResult | src/lib.rs:3-7 | any two sorters given the same input produce the same output |
| Sorters.SortFive | src/lib.rs:294-348 | every sorter turns `[5, 1, 4, 2, 3]` into `[1, 2, 3, 4, 5]` |

## Left out

- `StdSorter` (src/lib.rs:281-289) is not part of this model. It only calls
  the Rust standard library's `slice::sort`, whose code is not available
  here.
- Element type: the generic `T: Ord` is `int` with its natural order.
  With plain integers, equal elements cannot be told apart. So the
  stability the next five lines name is not stated.
- BubbleSort.Sort: "equal elements keep their order" is not stated. The
  strict `<` that gives it is modelled, and `Pass` swaps only on it.
- InsertionSort.Sort: "equal elements keep their order" is not stated
  for the walking variant. `InsertByWalk` does state that the element
  passes only strictly greater elements.
- MergeSort.Merge: "equal elements keep their order" is not stated. The
  left run wins on `<=`, as in the Rust code.
- MergeSort.MergeSortRange: "equal elements keep their order" is not
  stated.
- MergeSort.Sort: "equal elements keep their order" is not stated.
- Index arithmetic is on unbounded integers. `usize` overflow of
  `2 * i + 1` and the like is not modelled, because indices are bounded
  by the slice length. Reads are not tracked; only writes are, through
  `modifies` and `UnchangedOutside`.
- HeapSort.Heapify requires at least two elements. With fewer,
  `parent(slice.len() - 1)` underflows. The sorter calls `heapify` only
  after returning early on lengths 0 and 1.
- SliceOps.BinarySearch: for duplicate keys, Rust's `binary_search` may
  return any matching index. The model is one particular halving search.
  Its contract promises only "some matching index" or "the insertion
  point", and the insertion sort relies on nothing more.
- QuickSort.Partition: the Rust assertion `left.last() <= right.first()`
  compares `Option`s, where `None` is below every `Some`. It is stated as
  the index property it amounts to: every element before the pivot is at
  most the pivot, and the empty cases hold trivially.
- BubbleSort.Sort terminates because each pass that swaps extends the
  settled suffix, which is the measure used here. The inversion count is
  not used.
- Sorters.Sort: Rust's static dispatch on the sorter type becomes a
  `match` on the `Sorter` datatype.
- Time complexity, recursion depth, and the "minimum possible number of
  swaps" remark are not modelled. They are claims about performance, not
  about results. Selection sort's bound of at most `n - 1` swaps is stated
  through a ghost counter.
