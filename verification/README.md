# TimSortNet in Dafny

A model of the sorting engine of TimSortNet, a C# port of CPython's list
sort (TimSort). The engine sorts a `Span<T>` in place with a caller-supplied
`IComparer<T>`:

- the driver `TimSorter.Sort` walks the span from left to right. At each
  position it finds the natural run (`CountRun`), reverses it when it is
  descending, and extends it to the minimum run length
  (`MergeComputeMinRun`) by binary insertion (`BinarySort`);
- each run is pushed on the pending-run stack of a `MergeState`, and
  `MergeCollapse` merges neighbouring runs until the top of the stack is
  balanced again;
- a merge (`MergeAt`) first trims the elements of both runs that are
  already in place, using the exponential searches `GallopLeft` and
  `GallopRight`. It then merges the rest from the low end (`MergeLo`) or the
  high end (`MergeHi`) through a scratch buffer, switching into galloping
  mode when one run keeps winning;
- `MergeForceCollapse` finally merges what is left into one run covering
  the whole span.

The span is a `seq<Item>` value that every operation takes and returns. An
`Item` carries an integer `key`, which is all the comparer looks at, and a
`tag` that it ignores, so that stability can be stated. The comparer's
`Compare` is key comparison. `Shared.IsLowerThan` is `Compare(x, y) <= 0`,
which is the non-strict `Le`. A sub-span is a `View` (offset, length) into a
buffer. The copy helpers return the updated buffer together with the
shortened views. The scratch buffer and the pending stack are fields of the
`MergeState` datatype.

Modules, by source file:

| module (file) | models |
|---|---|
| `Order` (order.dfy) | the element type, the comparer, `IsLowerThan`, sortedness |
| `Shared` (shared.dfy) | `Shared.cs`: views, the three copy helpers, `Span.Reverse` |
| `Config` (config.dfy) | `TimSortConfig.cs` |
| `State` (state.dfy) | `PendingBlock.cs` and the data of `MergeState.cs`: construction, `MergeGetMem`, `AddPendingBlock`, `CheckNoPendingLeft` |
| `Gallop` (gallop.dfy) | `GallopLeft`, `GallopRight` |
| `Merging` (merging.dfy) | the abstract progress of both merge loops |
| `Threshold` (threshold.dfy) | the `MinGallop` adaptation rule of both merges |
| `MergeLow`, `MergeHigh` (merge_lo.dfy, merge_hi.dfy) | `MergeLo`, `MergeHi` with their galloping mode |
| `Collapse` (stack.dfy) | `MergeAt`, `MergeCollapse`, `MergeForceCollapse` |
| `MinRun`, `Runs`, `BinaryInsertion` (minrun.dfy, runs.dfy, binsort.dfy) | `MergeComputeMinRun`, `CountRun`, `BinarySort` |
| `Sorter` (timsorter.dfy) | `TimSorter.Sort` |
| `Stability` (stability.dfy) | the stability claims of the comments, and where the code breaks them |

The contracts are proved for the comparer's order as it is: a total
preorder in which distinct items can compare equal.

## Model

| member | source | states |
|---|---|---|
| `Order.IsLowerThan` | TimSortNet/Shared.cs:8-12 | true exactly when the first item may stand before the second, so the test is non-strict; its negation is "strictly below" |
| `Shared.CopyFromAndUpdate` | TimSortNet/Shared.cs:15-19 | the first `len` source elements land on the first `len` destination slots; every other destination slot is unchanged; both views lose exactly `len` elements at the front |
| `Shared.CopyFromBackAndUpdate` | TimSortNet/Shared.cs:22-26 | the source's last element lands on the destination's last slot; nothing else changes; both views lose their last element |
| `Shared.CopyFromBackAndUpdateLen` | TimSortNet/Shared.cs:29-33 | the last `len` source elements land on the last `len` destination slots; the destination's prefix is untouched; both views lose `len` elements at the back |
| `Shared.BackCopyOneIsLenOne` | TimSortNet/Shared.cs:22-33 | the one-element overload equals the general overload with `len` 1 |
| `Shared.Reverse` | TimSortNet/TimSorter.cs:146 | the result has the same length and the same elements, and position `i` holds the input's element `n - 1 - i` |
| `Shared.ReverseNonIncreasing` | TimSortNet/TimSorter.cs:143-147 | a run in which no element is above its predecessor comes out sorted when reversed |
| `Config.DefaultConfig` | TimSortNet/TimSortConfig.cs:13-23 | the defaults: stack capacity 85, `MinGallop` 7, scratch buffer 256 |
| `Config.MakeConfig` | TimSortNet/TimSortConfig.cs:25-30 | each constructor argument is stored unchanged in its field |
| `State.NewMergeState` | TimSortNet/MergeState.cs:38-44 | both galloping thresholds start at the configured `MinGallop`; the scratch buffer has the configured length; the stack is empty with the configured capacity |
| `State.MergeGetMem` | TimSortNet/MergeState.cs:46-56 | afterwards the buffer holds at least `needed` elements; a buffer that is already large enough is kept; nothing else in the state changes |
| `State.AddPendingBlock` | TimSortNet/MergeState.cs:566-569 | the stack grows by one entry, `(offset, length)`, on top; the entries below are unchanged |
| `Gallop.GallopLeftBracket` | TimSortNet/MergeState.cs:80-134 | the exponential phase ends with `-1 <= lastofs < ofs <= n`, the element at `lastofs` (if any) `Le` the key and the element at `ofs` (if any) strictly above it |
| `Gallop.GallopLeft` | TimSortNet/MergeState.cs:79-149 | for any valid hint the result `k` splits the sorted span: everything before `k` is `Le` the key, everything from `k` on is strictly above it (after the equals); `k` is the number of elements `Le` the key |
| `Gallop.GallopRightBracket` | TimSortNet/MergeState.cs:166-220 | the exponential phase ends with `-1 <= lastofs < ofs <= n`, the element at `lastofs` (if any) strictly below the key and the key `Le` the element at `ofs` (if any) |
| `Gallop.GallopRight` | TimSortNet/MergeState.cs:165-238 | for any valid hint the result `k` splits the sorted span: everything before `k` is strictly below the key, the key is `Le` everything from `k` on (before the equals); `k` is the number of elements strictly below the key |
| `Gallop.AfterEqualsIsCountLe` | TimSortNet/MergeState.cs:136-148 | the split GallopLeft finds is unique, so its result does not depend on the hint |
| `Gallop.BeforeEqualsIsCountLt` | TimSortNet/MergeState.cs:226-237 | the split GallopRight finds is unique, so its result does not depend on the hint |
| `Gallop.GallopLeftMissesDocumentedBoundary` | TimSortNet/MergeState.cs:69-71 | on one element equal to the key, GallopLeft's result is 1, while the boundary its comment promises is 0 |
| `Merging.LoProgressStart` | TimSortNet/MergeState.cs:240-245 | two runs as MergeAt hands them over satisfy the merge-from-the-front invariant with nothing written yet |
| `Merging.LoMoveB` | TimSortNet/MergeState.cs:274-283 | moving a block from the front of B to the output keeps it sorted and below both rests, provided the block's last element may precede A's next; no element is lost |
| `Merging.LoMoveA` | TimSortNet/MergeState.cs:285-294 | moving a block from the front of A to the output keeps the invariant, provided the block's last element may precede B's next; no element is lost |
| `Merging.LoFinish` | TimSortNet/MergeState.cs:339-346 | once one run is exhausted, the output followed by the rests is sorted |
| `Merging.LoFinishLastA` | TimSortNet/MergeState.cs:348-355 | when A is down to its last element, the output, then the rest of B, then that element is sorted, and is a permutation |
| `Merging.LoGallopLeavesA` | TimSortNet/MergeState.cs:307-318 | galloping through A never empties it, because A's last element follows all of B |
| `Merging.HiProgressStart` | TimSortNet/MergeState.cs:240-245 | the same runs satisfy the merge-from-the-back invariant with nothing written yet |
| `Merging.HiMoveA` | TimSortNet/MergeState.cs:385-396 | moving a block from the back of A in front of the output keeps the invariant, provided B's last element may precede the block; no element is lost |
| `Merging.HiMoveB` | TimSortNet/MergeState.cs:397-406 | moving a block from the back of B in front of the output keeps the invariant, provided A's last element may precede the block; no element is lost |
| `Merging.HiFinish` | TimSortNet/MergeState.cs:457-464 | once one run is exhausted, the rests followed by the output are sorted |
| `Merging.HiFinishFirstB` | TimSortNet/MergeState.cs:466-474 | when B is down to its first element, that element, then the rest of A, then the output is sorted, and is a permutation |
| `Merging.HiGallopLeavesB` | TimSortNet/MergeState.cs:433-448 | galloping through B never empties it, because B's first element precedes all of A |
| `Threshold.Lowered` | TimSortNet/MergeState.cs:305 | one galloping round lowers the threshold by exactly one when it is above 1 and leaves it otherwise, so it never drops below 1 |
| `Threshold.AfterRounds` | TimSortNet/MergeState.cs:302-306 | `n` rounds lower the threshold by at most `n` and never raise it; from at least 1 it stays at least 1 |
| `Threshold.AfterRoundsClosed` | TimSortNet/MergeState.cs:302-306 | from at least 1, `n` rounds give `g - n`, floored at 1 |
| `Threshold.Session` | TimSortNet/MergeState.cs:301-337 | a galloping session ends at most one above its entry threshold, two if it leaves galloping mode; from at least 1 it stays at least 1 |
| `Threshold.SessionLeftClosed` | TimSortNet/MergeState.cs:301-337 | a session that leaves galloping mode after `n` rounds gives `g + 2 - n`, floored at 2 |
| `Threshold.Replay` | TimSortNet/MergeState.cs:246-356 | with no galloping the threshold is unchanged; from at least 1 it stays at least 1 |
| `Threshold.ReplayAppend` | TimSortNet/MergeState.cs:301-337 | one more session applies `Session` to the threshold the earlier, left sessions produced |
| `Threshold.ReplayBound` | TimSortNet/MergeState.cs:335-336 | from at least 1, each completed session raises the threshold by at most one, and the session a merge ends in by none |
| `MergeLow.LoTakeB` | TimSortNet/MergeState.cs:277 | copying `k` elements of B into place keeps MergeLo's loop invariant and shortens B's view by `k` |
| `MergeLow.LoTakeA` | TimSortNet/MergeState.cs:287 | copying `k` elements of A from the scratch buffer keeps the invariant and shortens A's view by `k` |
| `MergeLow.LoSucceedExit` | TimSortNet/MergeState.cs:339-346 | the `Succeed` exit leaves a sorted permutation of the two runs |
| `MergeLow.LoCopyBExit` | TimSortNet/MergeState.cs:348-355 | the `CopyB` exit leaves a sorted permutation of the two runs |
| `MergeLow.LoPlainPhase` | TimSortNet/MergeState.cs:271-295 | the one-at-a-time phase either finishes the merge with a sorted permutation, or hands on the invariant with strictly fewer elements left and at least two of A |
| `MergeLow.LoGallopA` | TimSortNet/MergeState.cs:304-319 | galloping through A either finishes with a sorted permutation or keeps the invariant with fewer elements left; `acount` is the number of A's elements strictly below B's first |
| `MergeLow.LoGallopB` | TimSortNet/MergeState.cs:320-333 | galloping through B either finishes with a sorted permutation or keeps the invariant with fewer elements left; `bcount` is the number of B's elements `Le` A's first |
| `MergeLow.LoGallopMode` | TimSortNet/MergeState.cs:301-337 | galloping mode finishes the merge or keeps the invariant with progress; the threshold is raised on entry, lowered (not below 1) once per round and raised again on leaving (`Session`); every completed round but the last had `acount` or `bcount` at least `MIN_GALLOP`, and the last, when it leaves, had neither |
| `MergeLow.MergeLo` | TimSortNet/MergeState.cs:246-356 | two adjacent sorted runs, with B's first element allowed before A's first and A's last allowed after all of B, end as one sorted permutation; the buffer grows to at least `na`; the new `MinGallop` is `Replay` of the old one over the merge's galloping sessions, so it stays at least 1; the stack is untouched |
| `MergeHigh.HiTakeA` | TimSortNet/MergeState.cs:389 | copying `k` elements of A into place from the back keeps MergeHi's loop invariant |
| `MergeHigh.HiTakeB` | TimSortNet/MergeState.cs:399 | copying `k` elements of B from the scratch buffer keeps the invariant |
| `MergeHigh.HiSucceedExit` | TimSortNet/MergeState.cs:457-464 | the `Succeed` exit leaves a sorted permutation |
| `MergeHigh.HiCopyAExit` | TimSortNet/MergeState.cs:466-474 | the `CopyA` exit leaves a sorted permutation |
| `MergeHigh.HiPlainPhase` | TimSortNet/MergeState.cs:382-407 | the one-at-a-time phase either finishes with a sorted permutation or hands on the invariant with fewer elements left |
| `MergeHigh.HiGallopA` | TimSortNet/MergeState.cs:417-429 | galloping through A either finishes or keeps the invariant with fewer elements left; `acount` is the number of A's elements not strictly below B's last |
| `MergeHigh.HiGallopB` | TimSortNet/MergeState.cs:430-451 | galloping through B either finishes or keeps the invariant with fewer elements left; `bcount` is the number of B's elements strictly above A's last |
| `MergeHigh.HiGallopMode` | TimSortNet/MergeState.cs:414-455 | galloping mode of MergeHi, with the same threshold rule and exit test as `LoGallopMode` |
| `MergeHigh.MergeHi` | TimSortNet/MergeState.cs:358-475 | under the same precondition as MergeLo the window ends as one sorted permutation; the buffer grows to at least `nb`; the new `MinGallop` is `Replay` of the old one over the merge's galloping sessions |
| `Collapse.StackAfterMerge` | TimSortNet/MergeState.cs:494-499 | the stack after merging entries `i` and `i + 1`: one entry shorter, entry `i` keeps its offset and has the summed length, the entry above slides down |
| `Collapse.MergedStackWellFormed` | TimSortNet/MergeState.cs:21-29 | merging two neighbours keeps the stack adjacent, its runs sorted, and the range it tiles unchanged |
| `Collapse.TrimmedMergeable` | TimSortNet/MergeState.cs:500-510 | after the two gallops trim what is in place, the remaining runs meet MergeLo's and MergeHi's precondition |
| `Collapse.MergedRunSorted` | TimSortNet/MergeState.cs:500-523 | the untouched head of A, the merged middle and the untouched tail of B together form one sorted run |
| `Collapse.MergeTrimmed` | TimSortNet/MergeState.cs:512-523 | MergeLo runs (`usedLo`) exactly when the trimmed A is no longer than the trimmed B, MergeHi otherwise; either way the result is a sorted permutation and `MinGallop` is replayed over the galloping sessions |
| `Collapse.MergeRuns` | TimSortNet/MergeState.cs:500-523 | merging two adjacent sorted runs yields a sorted permutation of both, also when A's trimmed part is empty; when all of A is strictly below B's first element the state comes back unchanged with no galloping sessions, otherwise `MinGallop` is replayed over the sessions of the merge |
| `Collapse.MergeAt` | TimSortNet/MergeState.cs:479-524 | for `i` the second or third entry from the top, the two runs become one sorted run in place; the stack shrinks by one and stays well formed; the span outside the two runs is unchanged; the trimmed head and tail are left where they were |
| `Collapse.MergeCollapse` | TimSortNet/MergeState.cs:534-549 | the stack stays well formed over the same range and ends balanced on its top three entries (`len[-2] > len[-1]`, `len[-3] > len[-2] + len[-1]`); a stack of at most one entry is left alone; the span's elements are only rearranged within that range |
| `Collapse.MergeForceCollapse` | TimSortNet/MergeState.cs:554-564 | a non-empty stack ends with exactly one run covering the whole range, which is sorted; over the whole span `CheckNoPendingLeft` then holds |
| `MinRun.MinRunLoop` | TimSortNet/TimSorter.cs:120-127 | below 64 the loop returns `n` plus the sticky bit; otherwise the result lies between 32 and 64 |
| `MinRun.MergeComputeMinRun` | TimSortNet/TimSorter.cs:108-129 | returns `n` for `n < 64` and a value in `[32, 64]` otherwise |
| `MinRun.MinRunIsCeiling` | TimSortNet/TimSorter.cs:113-114 | with `e` the number of halvings, `(k - 1) * 2^e < n <= k * 2^e`: `k` is `ceil(n / 2^e)`, so `n / k` is at most the power of two `2^e` and `n / (k - 1)` is above it |
| `MinRun.MinRunOfPowerOfTwo` | TimSortNet/TimSorter.cs:112 | for a power of two of at least 64 the result is exactly 32 |
| `Runs.RunEnd` | TimSortNet/TimSorter.cs:84-104 | the loops stop at the first neighbour pair that breaks the first step's direction, or at the end |
| `Runs.CountRun` | TimSortNet/TimSorter.cs:79-105 | fails on an empty span, gives `(1, false)` on one element, and otherwise a count between 2 and `n`, descending exactly when the second element may stand before the first, with every step inside the run going the same way and the next one (if any) breaking it |
| `Runs.CountRunIsLongest` | TimSortNet/TimSorter.cs:63-72 | the run is the longest one: any prefix length at which the pattern holds and then breaks is the count reported |
| `Runs.AscendingRunSorted` | TimSortNet/TimSorter.cs:95-104 | an ascending run is sorted |
| `Runs.DescendingRunReversedSorted` | TimSortNet/TimSorter.cs:86-94 | a descending run, reversed, is sorted |
| `Runs.CountedRunSorted` | TimSortNet/TimSorter.cs:143-147 | the run CountRun reports, reversed when descending, is sorted |
| `Runs.CountRunExamples` | TimSortNet/TimSorter.cs:79-105 | `[3,2,1]` gives `(3, true)`, `[1,2,3]` gives `(3, false)`, `[1,2,-1]` gives `(2, false)` |
| `BinaryInsertion.InsertAt` | TimSortNet/TimSorter.cs:58-59 | moving one element to an earlier position keeps the length |
| `BinaryInsertion.InsertAtPermutes` | TimSortNet/TimSorter.cs:15-16 | the slide and store lose and duplicate nothing |
| `BinaryInsertion.InsertionPoint` | TimSortNet/TimSorter.cs:24-46 | the search ends at `l` with every element of `[0, l)` strictly below the pivot and the pivot `Le` every element of `[l, start)`, i.e. before its equals |
| `BinaryInsertion.InsertExtendsSorted` | TimSortNet/TimSorter.cs:47-59 | inserting the pivot at that point extends the sorted prefix by one |
| `BinaryInsertion.InsertNext` | TimSortNet/TimSorter.cs:24-59 | one pass of the outer loop: the sorted prefix grows by one, the elements after it are untouched, nothing is lost, and what the remaining passes produce is unchanged |
| `BinaryInsertion.InsertFrom` | TimSortNet/TimSorter.cs:22-60 | from a sorted non-empty prefix of length `k`, the remaining passes leave a sorted permutation equal to the reference insertion sort |
| `BinaryInsertion.BinarySort` | TimSortNet/TimSorter.cs:18-61 | given a sorted prefix of length `start`, the span ends sorted and a permutation of the input, and equal to the reference insertion sort; `start` 0 is treated as 1 |
| `Sorter.ReverseWindow` | TimSortNet/TimSorter.cs:146 | reversing the window `[lo, end)` in place: the window holds its reverse, the rest of the span is unchanged, and no element is lost |
| `Sorter.RunWindowSorted` | TimSortNet/TimSorter.cs:143-147 | the run counted at `lo`, reversed when descending, is sorted in place |
| `Sorter.AscendingRun` | TimSortNet/TimSorter.cs:143-147 | the run CountRun reports at `lo` is reversed in place when descending and left alone otherwise; afterwards it is sorted and the rest of the span is unchanged |
| `Sorter.SortWindow` | TimSortNet/TimSorter.cs:151 | BinarySort on a window with a sorted prefix sorts the window and leaves the rest of the span alone |
| `Sorter.ExtendRun` | TimSortNet/TimSorter.cs:148-153 | a run shorter than `minrun` grows to `min(minrun, nremaining)` sorted elements; a longer one is left as it is |
| `Sorter.NextRun` | TimSortNet/TimSorter.cs:143-153 | each pushed run starts at `lo`, is sorted, is at least as long as the natural run and at least `min(minrun, nremaining)`, and is longer than the natural run only when it has exactly that length |
| `Sorter.PushRun` | TimSortNet/TimSorter.cs:154-157 | pushing the new run keeps the stack well formed and tiling `[0, lo + n)` |
| `Sorter.SortedPermutationKeys` | TimSortNet/TimSorter.cs:131-133 | two sorted rearrangements of the same items have the same keys in the same places, so every correct sort agrees with this one up to the order of equal items |
| `Sorter.Sort` | TimSortNet/TimSorter.cs:133-167 | spans shorter than two are unchanged; otherwise the result is a sorted permutation of the input; and sorting a sorted span leaves its keys where they are |
| `Stability.ReversedRunUnstable` | TimSortNet/TimSorter.cs:84-88 | on `[(1,0),(1,1)]`, a stably sorted input, CountRun reports a descending run of 2 and its reversal puts `(1,1)` first, which is not stable |
| `Stability.StrictCountRun` | TimSortNet/TimSorter.cs:63-78 | the run as the comment defines it: descending only when each element is strictly below its predecessor, otherwise ascending with equal neighbours allowed, and maximal |
| `Stability.StrictRunStable` | TimSortNet/TimSorter.cs:73-77 | with the strict definition, the run reversed when descending is stably sorted for any input whose tags increase |
| `Stability.BinarySortUnstable` | TimSortNet/TimSorter.cs:37-50 | on `[(1,0),(1,1)]` with start 1, binary insertion puts `(1,1)` before its equal `(1,0)` |
| `Stability.CountLeSplits` | TimSortNet/TimSorter.cs:47-50 | on a sorted prefix, the count of elements the pivot may follow is the slot just after its equals |
| `Stability.StableInsertStep` | TimSortNet/TimSorter.cs:47-59 | inserting after the equals keeps the prefix stably sorted |
| `Stability.StableInsertionSortIsStable` | TimSortNet/TimSorter.cs:7-16 | binary insertion after the equals ends with a stably sorted permutation |
| `Stability.StableInsertionSortOfTagged` | TimSortNet/TimSorter.cs:11 | an input whose tags increase comes out of the corrected insertion stably sorted, as the comment promises |

## Left out

- Renting and returning the scratch buffer through `ArrayPool` and
  `Dispose` (MergeState.cs:46-56, 571-579) is resource management. The model
  replaces a too-small buffer with a fresh sequence of exactly the needed
  length, whose contents are never read before they are written.
- The null-comparer exception of `IsLowerThan`: the comparer here is a
  total function.
- The `int` overflow guards of the gallops (`if (ofs <= 0) ofs = maxofs`)
  cannot fire with unbounded integers and are not modelled. Spans are
  assumed shorter than `int.MaxValue`.
- The stack capacity `MaxMergePending` is stored but never checked, so an
  overflow of the `Pending` array is not modelled. The claim that 85
  entries suffice for 2^64 elements is a performance argument and is not
  proved.
- `Collapse.MergeCollapse`: balance is stated for the top three entries
  only, because that is all the loop checks. It is not an invariant of the
  whole stack.
- `State.NewMergeState`: its precondition is that both sizes are
  non-negative, since `new T[n]` throws for negative `n`. `Sorter.Sort`
  requires this only for spans of two or more, because the merge state is
  created after the early return.
- `BinaryInsertion.BinarySort`: the model takes the documented precondition
  `start <= n`. It does not take the `Debug.Assert(start < span.Length)`
  at TimSorter.cs:20, which `Sort` violates whenever a short final run
  reaches the end of the span.
- `Sorter.ExtendRun`: it promises that the span is unchanged only when the
  run is already at least `minrun` long. When a short run already reaches
  the end, BinarySort also leaves it as it is, but that is not stated.
- `Sorter.NextRun`: it does not restate which elements of a long natural
  run were reversed; `Sorter.AscendingRun` states that.
- `MergeLow.LoGallopMode`: the per-round `counts` it reports are linked to
  the runs only through `LoGallopA` and `LoGallopB`, whose contracts give
  `acount` and `bcount` as counts over that round's rests; the mode's own
  contract does not restate that link round by round.
- `MergeHigh.HiGallopMode`: the same as `LoGallopMode`, through `HiGallopA`
  and `HiGallopB`.
- `MergeLow.MergeLo`: the session history it reports fixes the new
  `MinGallop` through `Replay`, but how many rounds each session lasts is
  not related to the input runs.
- `MergeHigh.MergeHi`: the same as `MergeLo`.
- The `Debug.Assert`s of MergeLo/MergeHi are not modelled as checks. The
  one at MergeState.cs:384 compares `pb.Length` twice where `pa.Length > 0`
  is evidently meant, and asserts nothing about A.
- The generic-argument mismatch between `new MergeState<T>` (TimSorter.cs:136)
  and `MergeState<T, TCompare>` (MergeState.cs:6) does not compile as
  written. It has no behavioural content: the comparer is the one passed to
  `Sort`.
- Comparers that are not a total preorder are out of scope. Sortedness
  and termination are argued for a total preorder only.
- The benchmark projects only time the sort and hold no logic to model.
- The test file is not modelled; its CountRun examples are restated in
  `Runs.CountRunExamples`.

Where the comments and the code disagree, the model follows the code:

- `GallopLeft`'s comment promises the slot before the equal elements
  (`a[k-1] < key <= a[k]`). The code returns the slot after them. For
  `GallopRight` it is the other way round. The contracts of
  `Gallop.GallopLeft` and `Gallop.GallopRight` state what the code does.
  `Gallop.GallopLeftMissesDocumentedBoundary` shows the difference on one
  element.
- `MergeComputeMinRun`'s comment asks for `n / k` strictly below a power
  of two. The code gives `n / k <= 2^e`, with equality when `k` divides `n`
  (for `n` = 96 it returns 48, and 96 / 48 = 2). `MinRun.MinRunIsCeiling`
  states the bound the code meets.
- The comments call the sort, BinarySort and the run reversal stable. The
  code is not stable; see the findings below. `Sorter.Sort` promises only a
  sorted permutation, and for an already sorted input the same keys in the
  same places.

## Findings

| source | as written | input that shows it | evidently intended | confidence | as-written member | corrected member |
|---|---|---|---|---|---|---|
| TimSortNet/TimSorter.cs:86-101 | CountRun tests `IsLowerThan(s[i], s[i-1])`, which is true for equal neighbours, so a pair of equal elements starts a descending run that `Sort` then reverses (TimSorter.cs:146) | `[(1,0),(1,1)]`: CountRun gives `(2, true)` and the reversal yields `[(1,1),(1,0)]`; sorting this already sorted span swaps the two | descending only when strictly decreasing (the comment at lines 69-77), so that reversal cannot reorder equal elements | not executed | `Stability.ReversedRunUnstable` | `Stability.StrictRunStable` |
| TimSortNet/TimSorter.cs:37-50 | the binary search moves `r` left whenever the pivot `Le` the probed element, so the pivot is inserted before its equals | `[(1,0),(1,1)]` with `start` 1 becomes `[(1,1),(1,0)]` | insert after the equal elements, as the comment at lines 47-50 says | not executed | `Stability.BinarySortUnstable` | `Stability.StableInsertionSortIsStable` |

Both rows come from one cause. `IsLowerThan` is a non-strict test, while the
CPython code this is ported from uses a strict less-than. The gallops and
the merge loops call the same test, so repairing these two places alone
would not make the whole sort stable. For that reason the driver and the
merges are modelled as written. The corrected definitions in `Stability`
stand beside them and show what the strict test gives.

The merge loops break the "in a stable way" of the comment at
MergeState.cs:240-241 in the same manner. MergeLo's plain loop tests
`IsLowerThan(pb[0], pa[0])` (MergeState.cs:274), so with equal keys B's
element is written before A's. That case is not modelled as a finding here.
`MergeLow.MergeLo` and `MergeHigh.MergeHi` promise only a sorted
permutation, which holds either way.
