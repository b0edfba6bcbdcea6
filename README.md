# window_median in Dafny

A model of the Rust crate `window_median`. The crate keeps the median of the
last `cap` values of a stream, behind one trait (`WindowMedian`), and offers
two engines:

- `BTreeWindow` keeps the history (a `VecDeque`) plus two ordered sets.
  `left` holds the low half of the window and `right` the high half.
  `rebalance` keeps their sizes within one of each other, and `median` reads
  the boundary.
- `VecWindow` keeps the history plus a `Vec` holding the same values in
  ascending order. When the window is full, `insert` binary-searches the new
  value's position and the oldest value's position. It then overwrites one
  slot, or shifts the span between the two positions with `copy_within`.

The element type `T: Ord + Copy` is `int` throughout.

Files:

- `window_median.dfy` (module `WindowMedian`) is the trait's contract, stated
  as values:
  - `Window(inputs, cap)` is the last `min(cap, n)` inserted values.
  - `Evict` and `Admit` are the history after one `insert`.
  - `Sort` sorts a sequence.
  - `UpperMedian` and `MedianOf` give what `median` must return. For an even
    size this is the greater middle element.
  - A rank characterisation of the upper median lets the proofs avoid sorting.
- `btree_window.rs` is modelled twice in `btree_window.dfy` (module
  `BTreeEngine`):
  - as pure functions, one per step of the source (`Placed`, `Rebalanced`,
    `Evicted`, `RemoveOldest`, `InsertStep`, `SidesMedian`), with `Run`
    folding `InsertStep` over a stream;
  - as the class `BTreeWindow`, whose methods update the fields in place and
    are proved equal to those functions.
- `vec_window.rs` is the class `VecWindow` in `vec_window.dfy` (module
  `VecEngine`):
  - The sorted `Vec` is an `array<int>` of length `cap` plus a length `size`.
  - `binary_search` and `copy_within` are methods with loops.
  - The in-place update is proved to equal "remove one copy of the oldest
    value, insert the new one at its sorted position".
- `median_examples.dfy` (module `MedianExamples`) states the crate's unit
  tests against the model.

Main results:

- Every stream:
  - `BTreeWindow`'s halves stay ordered and balanced, and store no value more
    often than the history holds it (`BTreeEngine.RunIsSound`).
  - `VecWindow`'s buffer is always the sorted history
    (`VecEngine.VecWindow.Insert`).
  - `VecWindow.Median` is the upper median of the window.
- Streams whose windows never repeat a value:
  - the halves hold the window exactly (`BTreeEngine.RunIsExact`);
  - `BTreeWindow.Median` is the upper median of the window
    (`BTreeEngine.BTreeMedianCorrect`).
- With repeated values the B-tree engine's answer can be wrong, because its
  halves are sets. `BTreeEngine.DuplicatesBreakMedian` proves this: inserting
  `a, a, a, b` (`a < b`) into a window of capacity 3 gives `b` rather than
  `a`.

## Model

| member | source | states |
|---|---|---|
| WindowMedian.Sort | src/lib.rs:9-10 | the result is sorted and has the same multiset as the input |
| WindowMedian.InsertSortedSpec | src/vec_window.rs:27-33 | inserting into a sorted sequence keeps it sorted and adds exactly one copy of the value |
| WindowMedian.SortedUnique | src/lib.rs:9-10 | two sorted sequences with the same multiset are equal, so "the sorted window" is well defined |
| WindowMedian.SortIsUnique | src/lib.rs:9-10 | any sorted permutation of `s` is `Sort(s)` |
| WindowMedian.UpperMedian | src/vec_window.rs:72-82 | the median of a non-empty window is one of its values |
| WindowMedian.MedianOf | src/lib.rs:9-10 | `None` exactly for the empty window, otherwise a value of the window |
| WindowMedian.SortedUpperMedian | src/vec_window.rs:74-82 | for an already sorted window the median is the element at index `len / 2` |
| WindowMedian.UpperMedianRank | src/lib.rs:9-10 | `m` is the upper median iff at most `len/2` values are below `m` and more than `len/2` are at most `m` (both directions) |
| WindowMedian.CountsPermutation | src/lib.rs:9-10 | the ranks of a value depend only on the multiset of the window |
| WindowMedian.SortedRank | src/vec_window.rs:80 | in a sorted sequence the element at index `k` has fewer than `k+1` values below it and more than `k` at or below it |
| WindowMedian.Window | src/lib.rs:5-7 | the window holds `min(cap, n)` values and is the stream's suffix of that length |
| WindowMedian.Evict | src/lib.rs:5-7 | the oldest value is dropped exactly when the window is full; afterwards there is room for one |
| WindowMedian.Admit | src/lib.rs:5-7 | after `insert(x)` the history holds at most `cap` values and ends with `x` |
| WindowMedian.WindowAdmit | src/lib.rs:5-7 | inserting values one at a time with a single eviction per insert keeps exactly the last `cap` values of the stream |
| WindowMedian.NotInWindow | src/btree_window.rs:8-9 | a value absent from the stream so far is absent from what survives of its window |
| WindowMedian.DistinctStreamIsWindowDistinct | src/btree_window.rs:8-9 | a stream of pairwise distinct values never meets a value inside a window that already holds it |
| BTreeEngine.SetMax | src/btree_window.rs:72 | `iter().next_back()` of a non-empty set is its greatest element |
| BTreeEngine.SetMin | src/btree_window.rs:79 | `iter().next()` of a non-empty set is its least element |
| BTreeEngine.MoveGreatest | src/btree_window.rs:44-49 | moving the `k` greatest values of `left`: `k` values leave, they join `right`, and every value left behind is below every value moved |
| BTreeEngine.MoveLeast | src/btree_window.rs:50-55 | moving the `k` least values of `right`: `k` values leave, they join `left`, and every value moved is below every value left behind |
| BTreeEngine.Surplus | src/btree_window.rs:38-41 | the move count is half the size difference, rounded down |
| BTreeEngine.Rebalanced | src/btree_window.rs:37-57 | `rebalance` leaves the union of the halves unchanged |
| BTreeEngine.Placed | src/btree_window.rs:70-86 | the new value joins exactly one half, and ordered halves stay ordered |
| BTreeEngine.Evicted | src/btree_window.rs:29-32 | the evicted value is deleted from `left` if there, else from `right`; one copy of it leaves what the halves store |
| BTreeEngine.SidesMedian | src/btree_window.rs:92-107 | `None` iff both halves are empty, otherwise a value stored in one of them |
| BTreeEngine.Fresh | src/btree_window.rs:14-21 | a new window has an empty history and empty halves |
| BTreeEngine.RemoveOldest | src/btree_window.rs:24-34 | a no-op on an empty history; otherwise exactly the front of the history leaves, and so does its copy in the halves |
| BTreeEngine.InsertStep | src/btree_window.rs:63-89 | the inserted value ends up in one of the halves |
| BTreeEngine.MoveGreatestKeeps | src/btree_window.rs:44-49 | moving the greatest values out of `left` keeps the halves ordered and what they store unchanged |
| BTreeEngine.MoveLeastKeeps | src/btree_window.rs:50-55 | moving the least values out of `right` keeps the halves ordered and what they store unchanged |
| BTreeEngine.RebalanceKeepsInvariants | src/btree_window.rs:37-57 | after `rebalance` the sizes differ by at most one, the halves stay ordered and store the same values |
| BTreeEngine.PlaceKeepsInvariants | src/btree_window.rs:70-86 | placing a value keeps the halves ordered and adds one copy of it to what they store, if it was not already stored |
| BTreeEngine.EvictKeepsSound | src/btree_window.rs:24-34 | `remove` keeps the halves ordered, balanced and within the history |
| BTreeEngine.EvictKeepsExact | src/btree_window.rs:24-34 | when the halves hold the history exactly, `remove` keeps it so |
| BTreeEngine.InsertKeepsSound | src/btree_window.rs:63-89 | `insert` admits `x` into the history and keeps the halves ordered, balanced and within the history |
| BTreeEngine.InsertKeepsExact | src/btree_window.rs:63-89 | if `x` is not in what survives of the window, `insert` keeps the halves equal to the history and disjoint |
| BTreeEngine.SoundStep | src/btree_window.rs:63-89 | one `insert` after a sound state holding the window of a stream gives a sound state holding the window of the stream extended by `x` |
| BTreeEngine.RunIsSound | src/btree_window.rs:116-127 | for every stream the history is the window and `check_sets` holds: sizes within one, `max(left) <= min(right)` |
| BTreeEngine.RunIsExact | src/btree_window.rs:8-9 | for streams whose windows never repeat a value, the halves hold exactly the window's values |
| BTreeEngine.MiddleInLeft | src/btree_window.rs:95-98 | when the low half is larger by one and the halves hold the history, the upper median is the low half's greatest element |
| BTreeEngine.MiddleInRight | src/btree_window.rs:95-104 | when the high half is the same size or larger by one, the upper median is the high half's least element |
| BTreeEngine.SidesMedianIsUpperMedian | src/btree_window.rs:92-107 | ordered, balanced, disjoint halves holding the history exactly give its upper median |
| BTreeEngine.BTreeMedianCorrect | src/btree_window.rs:92-107 | on streams whose windows never repeat a value, the engine's median is the upper median of the last `min(cap, n)` inputs |
| BTreeEngine.DuplicatesBreakMedian | src/btree_window.rs:8-9 | capacity 3, stream `a, a, a, b` with `a < b`: the halves become `{a}` and `{b}` and the engine answers `b`, while the window `[a, a, b]` has upper median `a` |
| BTreeEngine.RunSnoc | src/btree_window.rs:63-89 | one more insert applies one more `insert` step to the state |
| BTreeEngine.InsertFacts | src/btree_window.rs:63-89 | one `insert` step after a run is the run of the longer stream; its history admits `x` and its halves stay ordered, balanced and within the history |
| BTreeEngine.BTreeWindow.constructor | src/btree_window.rs:14-21 | a new window is empty and satisfies the class invariant |
| BTreeEngine.BTreeWindow.Rebalance | src/btree_window.rs:37-57 | the halves become exactly `Rebalanced` of the old halves; the history is unchanged |
| BTreeEngine.BTreeWindow.ShiftGreatest | src/btree_window.rs:44-49 | the loop leaves the halves equal to `MoveGreatest` of the old halves |
| BTreeEngine.BTreeWindow.ShiftLeast | src/btree_window.rs:50-55 | the loop leaves the halves equal to `MoveLeast` of the old halves |
| BTreeEngine.BTreeWindow.Place | src/btree_window.rs:70-86 | the halves become `Placed` of the old halves; the history is unchanged |
| BTreeEngine.BTreeWindow.Step | src/btree_window.rs:63-89 | the fields become `InsertStep` of the old state: evict at capacity, append, place, rebalance |
| BTreeEngine.BTreeWindow.Remove | src/btree_window.rs:24-34 | the new state is `RemoveOldest` of the old one |
| BTreeEngine.BTreeWindow.Insert | src/btree_window.rs:63-89 | the new state is `InsertStep` of the old one, the history is `Admit(old history, cap, x)`, and the halves are ordered, balanced and within the history |
| BTreeEngine.BTreeWindow.Median | src/btree_window.rs:92-107 | `None` iff both halves are empty; for streams whose windows never repeat a value, the upper median of the last `min(cap, n)` inserts |
| VecEngine.InsertAt | src/vec_window.rs:33 | `Vec::insert` lengthens the vector by one and puts `x` at the index |
| VecEngine.RemoveAt | src/vec_window.rs:41-66 | removing an index shortens the sequence by one |
| VecEngine.Replaced | src/vec_window.rs:41-66 | the full-window update keeps the length of `sorted` |
| VecEngine.CopiedWithin | src/vec_window.rs:54 | `copy_within` keeps the length |
| VecEngine.CopiedWithinAt | src/vec_window.rs:54 | after `copy_within(from..to, dest)` the span `dest..` holds the old `from..to`, and every other index keeps its value |
| VecEngine.InsertAtKeepsSorted | src/vec_window.rs:27-33 | inserting at an insertion point keeps `sorted` sorted and adds exactly one `x` |
| VecEngine.RemoveAtKeepsSorted | src/vec_window.rs:36-39 | removing one element keeps the buffer sorted, removes exactly one copy, and shifts an insertion point past it down by one |
| VecEngine.ReplacedKeepsSorted | src/vec_window.rs:34-66 | the full-window update keeps `sorted` sorted and replaces one copy of the evicted value with `x` |
| VecEngine.ReplacedInPlace | src/vec_window.rs:42-47 | when `rpos == ipos` the update is the single write `sorted[rpos] = x` |
| VecEngine.ReplacedShiftDown | src/vec_window.rs:48-56 | when `rpos < ipos` the update is `copy_within(rpos + 1..ipos, rpos)` then `sorted[ipos - 1] = x` |
| VecEngine.ReplacedShiftUp | src/vec_window.rs:57-65 | when `rpos > ipos` the update is `copy_within(ipos..rpos, ipos + 1)` then `sorted[ipos] = x` |
| VecEngine.ReplacedFrame | src/vec_window.rs:41-66 | indices below both positions, or above `rpos` and at or past `ipos`, are untouched |
| VecEngine.InsertAtByShift | src/vec_window.rs:33 | shifting the tail up by one and writing `x` is `Vec::insert` |
| VecEngine.BinarySearch | src/vec_window.rs:27-30 | `Found(p)` has `a[p] == x`; `NotFound(p)` has everything before `p` below `x` and everything from `p` on above it; `Found` iff `x` occurs; either way `p` is an insertion point |
| VecEngine.CopyWithin | src/vec_window.rs:54 | the array becomes `CopiedWithin` of its old contents, copying upwards or downwards as `memmove` does |
| VecEngine.VecInsert | src/vec_window.rs:33 | the first `n + 1` slots become `InsertAt` of the old first `n` |
| VecEngine.ShiftReplace | src/vec_window.rs:41-66 | the three arms of `match rpos.cmp(&ipos)` turn the buffer into `Replaced(old, rpos, ipos, x)` |
| VecEngine.ConsistentIsSorted | src/vec_window.rs:102-106 | under the class invariant the buffer is the sorted history, as `assert_sorted` checks |
| VecEngine.RoomStep | src/vec_window.rs:32-33 | the branch taken while the window has room admits `x` and keeps the buffer the sorted history |
| VecEngine.FullStep | src/vec_window.rs:34-67 | the full-window branch admits `x`, evicts the oldest value, and keeps the buffer the sorted history |
| VecEngine.VecWindow.constructor | src/vec_window.rs:14-20 | a new window is empty, with a buffer of `cap` slots |
| VecEngine.VecWindow.Insert | src/vec_window.rs:26-70 | the history becomes `Admit(old history, cap, x)`, the class invariant is kept, and the buffer is `Sort` of the history |
| VecEngine.VecWindow.InsertWithRoom | src/vec_window.rs:32-33 | below capacity, `sorted` and `items` each grow by `x` |
| VecEngine.VecWindow.ReplaceOldest | src/vec_window.rs:34-67 | at capacity, the oldest value leaves the history and `x` joins it, and the buffer stays the sorted history; the oldest value is always found in `sorted`, so the `unreachable!` arm is dead |
| VecEngine.VecWindow.Median | src/vec_window.rs:74-82 | for every stream, duplicates included, the upper median of the last `min(cap, n)` inserts; `None` iff the window is empty |
| VecEngine.VecWindow.Clear | src/vec_window.rs:85-88 | the window becomes empty and keeps its invariant, so later inserts behave as on a new window |
| VecEngine.VecWindow.Len | src/vec_window.rs:91-93 | the length is `min(cap, n)` and never exceeds `cap` |
| MedianExamples.RangeMedian | src/vec_window.rs:167-183 | a run of consecutive integers never repeats a value inside a window, and its median is the middle of its last `cap` values |
| MedianExamples.DistinctShortStream | src/btree_window.rs:135-155 | a short stream of distinct values has the value of middle rank as its median |
| MedianExamples.MedianTestStep1 | src/btree_window.rs:137-139 | after 6 the expected median is 6 |
| MedianExamples.MedianTestStep2 | src/btree_window.rs:141-142 | after 6, 1 the expected median is 6 |
| MedianExamples.MedianTestStep3 | src/btree_window.rs:144-145 | after 6, 1, 5 the expected median is 5 |
| MedianExamples.MedianTestStep4 | src/btree_window.rs:147-148 | after 6, 1, 5, 3 the expected median is 5 |
| MedianExamples.MedianTestStep5 | src/btree_window.rs:150-151 | after 6, 1, 5, 3, 2 the expected median is 3 |
| MedianExamples.MedianTestStep6 | src/btree_window.rs:153-154 | after 6, 1, 5, 3, 2, 4 the expected median is 4 |
| MedianExamples.BTreeEmptyMedian | src/btree_window.rs:129-133 | a new B-tree window has no median |
| MedianExamples.VecEmptyMedian | src/vec_window.rs:108-112 | a new sorted-buffer window has no median |
| MedianExamples.BTreeInsertAscending | src/btree_window.rs:157-165 | inserting 0 to 99 at capacity 10 keeps `check_sets` true after every insert and ends with median 95 |
| MedianExamples.VecInsertAscending | src/vec_window.rs:136-144 | inserting 0 to 99 at capacity 10 keeps the buffer sorted after every insert and ends with median 95 |
| MedianExamples.VecClearTrace | src/vec_window.rs:167-183 | 2 to 6 give median 4, `clear` gives none, 12 to 16 then give 14 |

## Left out

- `WindowMedian` is a module of specification functions, not a Dafny trait. Each engine class relates its state to those functions through a ghost `inserted` stream (the inserts since construction or the last `clear`).
- BTreeEngine.BTreeWindow.Median: the upper-median guarantee is stated only for streams whose windows never repeat a value. `left` and `right` are sets, so a repeated value is stored once. `BTreeEngine.DuplicatesBreakMedian` shows the answer can then be wrong. For every stream the contract still gives `None` iff empty.
- `BTreeWindow` has no `clear` and no `len`. The trait requires both (src/lib.rs:12-16), but the impl in src/btree_window.rs:60-108 defines neither, so they are not modelled for that engine.
- BTreeEngine.BTreeWindow.constructor requires `cap >= 1`. With capacity 0, `remove` finds an empty history and returns, so that window never evicts and grows without bound.
- VecEngine.VecWindow.Insert requires `cap >= 1`. With capacity 0 the source's `pop_front().unwrap()` panics on the first insert.
- VecEngine.BinarySearch: which index `binary_search` returns among equal matches is not modelled. The standard library leaves it unspecified, and the contract allows any match.
- `rebalance` first collects the `diff` boundary elements, then moves them. The model moves the current boundary element `diff` times, which moves the same elements.
- Integer widths: `usize` lengths and the `isize` cast in `rebalance` are unbounded integers.
- `Vec::with_capacity` is an array of exactly `cap` slots. The `Vec` never holds more than `cap` values, so no reallocation is modelled.
- The engines' tests with random inputs (`insert_random`) are left out: their seeded generator is outside the model, and the invariants they check are proved for every stream.
- The `insert_descending` tests iterate over `100..0`, an empty range, so they insert nothing. They are not modelled.
- The `median` tests' expected values are proved on the model's window (`MedianTestStep1` to `MedianTestStep6`). The engines' `Median` contracts give those values for these streams; the six inserts are not replayed against the classes.
- benches/wm_benchmark.rs measures running time only and is not part of this model.
