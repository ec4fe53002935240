# index-pool, modelled in Dafny

`index-pool` is a small allocator of unique `usize` indices, a kind of
pseudo-memory allocator. An `IndexPool` keeps three things:

- a frontier `next_id`: every index at or above it is free (not in use);
- a counter `in_use`;
- a free list of the free indices below the frontier: those handed back, and
  those `request_id` skipped over.

`new_id` hands out the lowest free index, or the frontier when nothing below
it is free. `request_id` reserves a chosen index. `return_id` takes an index
back, then pulls the frontier down over any free range that ends just below
it. An `IndexIter` walks `[0, next_id)` and jumps over each free range, so it
yields exactly the indices in use, in ascending order.

The project has six modules:

- `Wrappers` (`wrappers.dfy`): `Option` and `Outcome`, the model's `Option`
  and `Result<(), E>`.
- `Ranges` (`ranges.dfy`): the free list as a value. It is a sequence of
  closed ranges `[min, max]` kept by the invariant `Coalesced`: every range
  is well formed, and any two stored ranges have at least one used index
  between them. So the ranges are sorted, pairwise disjoint and pairwise
  non-adjacent. `Points(rs)` is the set of free points the ranges stand for.
  Each free-list operation the pool needs is a function here whose contract
  says what it does to `Points` and that it keeps `Coalesced`.
- `FreeList` (`free_ranges.dfy`): the class `FreeRanges` that the pool owns
  and mutates. Its methods are the free-list calls made in `src/lib.rs`. Each
  is specified by its effect on the ghost set `FreeSet()`.
- `Iter` (`iter.dfy`): the class `IndexIter`, with its cursor over the
  ranges. Also `Collect`, which drains a fresh iterator and proves the output
  is exactly `[0, end)` minus the free points, strictly ascending.
- `Pool` (`index_pool.dfy`): the pool in two layers.
  - The datatype `State` is the pool's fields, with the free list seen as
    its set of free points. Each kind of update is a function on `State`
    (`Extend`, `Take`, `Jump`, `Release`, `Collapse`). A lemma proves once
    what each does to the set of indices in use, `UsedOf`, and to the
    invariants `Counted` and `Settled`.
  - The class `IndexPool` updates its fields in place. `NewId`, `RequestId`
    and `CollapseNext` tie their new state to one of those functions of
    their old state. `ReturnId` runs the collapse loop, so it states its
    effect through the indices in use, `in_use` and `IsFree` instead.
- `Scenarios` (`scenarios.dfy`): the two tests of `tests/basic_test.rs`,
  replayed against the contracts. Every assertion they make about the pool
  is checked here, as an `assert` or as the `ensures` of a helper method.

The pool's representation invariant, `IndexPool.Valid()`, says:

- the free list is coalesced;
- every free point is below `next_id`;
- `in_use + base == next_id - |free points|`;
- when `next_id > 0`, the index `next_id - 1` is in use. This is what the
  frontier-collapse loop establishes.

Here `base` is a ghost field holding the index the pool was built with. It
is 0 for `new()` and after `clear()`. The code at `src/lib.rs:64-70` starts
`in_use` at 0 whatever the initial index, so the indices below the initial
index count as in use but are not counted by `in_use`. The doc comment at
`src/lib.rs:62-63` says instead that `in_use()` includes them. The model
follows the code, and the ghost `base` keeps the counting invariant exact.

`FreeRanges` comes from the external `free_ranges` crate. Its source is not
part of this model. It is modelled here by the abstract contract above,
which says nothing about how the crate stores ranges internally.

## Model

| member | source | states |
|---|---|---|
| Ranges.First | src/lib.rs:79 | the lowest free point, which is the first range's `min`; `None` exactly when nothing is free |
| Ranges.Remove | src/lib.rs:105 | marking `v` used removes exactly `v` from the free points, keeps the list coalesced, and never lowers the first range's start |
| Ranges.SplitFirst | src/lib.rs:105 | splitting the range that holds `v` around `v` leaves exactly the free points minus `v`, still coalesced |
| Ranges.Insert | src/lib.rs:97-100 | marking a range free adds exactly its points, merges what it overlaps or touches so the list stays coalesced, and the first range starts at the lower of the old first start and the new range's start |
| Ranges.Last | src/lib.rs:172 | the last stored range: it is well formed, all of it is free, no free point lies above its `max`, and the index just below its `min` is not free, so its `min` starts the highest run of free indices; `None` exactly when nothing is free |
| Ranges.DropLast | src/lib.rs:174 | dropping the highest range removes exactly its points, and every remaining free point lies below it with at least one used index in between |
| Ranges.PointsCovers | src/lib.rs:156 | a point is in the free set exactly when some stored range contains it |
| Ranges.PointsCard | src/iter.rs:16-56 | the number of free points is the sum of the range lengths |
| Ranges.BoundedPoints | src/lib.rs:162 | every range ends below `end` exactly when every free point is below `end` |
| Ranges.FirstIsLowest | src/lib.rs:79 | in a coalesced list the first range's `min` is free and no free point is lower |
| Ranges.LastIsHighest | src/lib.rs:172 | in a coalesced list the last range's `max` is free, no free point is higher, and every free point below its `min` lies at least two below it |
| FreeList.FreeRanges.constructor | src/lib.rs:68 | a new free list is empty and coalesced |
| FreeList.FreeRanges.SetFirstUsed | src/lib.rs:79 | returns `None` exactly when nothing is free, leaving the list unchanged; otherwise returns the lowest free point (the first range's `min`) and removes exactly it |
| FreeList.FreeRanges.SetRangeFree | src/lib.rs:97-100 | the free set grows by exactly the points of the range, and the list stays coalesced |
| FreeList.FreeRanges.SetUsed | src/lib.rs:105 | reports whether `v` was free; afterwards `v` is not free and nothing else changed; on `false` the stored ranges are unchanged |
| FreeList.FreeRanges.SetFree | src/lib.rs:125 | reports whether `v` was used (false on a double free); afterwards `v` is free and nothing else changed; on `false` the stored ranges are unchanged |
| FreeList.FreeRanges.IsFree | src/lib.rs:128 | true exactly when `v` is in the free set |
| FreeList.FreeRanges.LastRange | src/lib.rs:172 | the last range of the ordered set, or `None` exactly when nothing is free; all of it is free, no free point lies above it, and the index just below its `min` is not free |
| FreeList.FreeRanges.RemoveLastContiguous | src/lib.rs:174 | drops the highest range and exactly its points; the list stays coalesced |
| FreeList.FreeRanges.Clear | src/lib.rs:185 | the free list becomes empty |
| Iter.IndexIter.constructor | src/iter.rs:16-34 | for coalesced ranges below `end`, the cursor is valid with nothing yielded: a range starting at 0 is already jumped over, so no index below the starting index is in use |
| Iter.IndexIter.Next | src/iter.rs:40-56 | at `end` returns `None` and changes nothing; otherwise returns the current index, which is in use, strictly increases `index` without passing `end`, and keeps the cursor invariant, so the yielded values stay ascending and are exactly the uncovered indices below `index` |
| Iter.IndexIter.NotCovered | src/iter.rs:45 | below `end`, the index the cursor stands on lies in no range, because the next range starts above it and the ranges behind it end below it |
| Iter.BehindJump | src/iter.rs:49-51 | after the jump to `range.max + 1`, all fetched ranges lie below the index and the following range starts strictly above it, because ranges are non-adjacent |
| Iter.Collect | src/iter.rs:40-56 | draining a fresh iterator yields a strictly ascending sequence whose elements are exactly the indices below `end` that no range covers |
| Iter.YieldCount | src/iter.rs:16-56 | the number of indices yielded is `end` minus the total length of the ranges |
| Iter.AscendingUnique | src/iter.rs:45-53 | two ascending sequences with the same elements are equal, so the yielded sequence is fixed by the set of indices in use |
| Iter.AscendingCard | src/iter.rs:45-53 | an ascending sequence has as many distinct elements as entries |
| Pool.UsedCount | src/lib.rs:149-151 | in a counted state the number of indices in use is `in_use` plus the initial index |
| Pool.ExtendUsed | src/lib.rs:83-85 | handing out the frontier adds exactly the old frontier to the indices in use; it was not in use before, and the new state keeps both invariants |
| Pool.TakeUsed | src/lib.rs:79-80 | handing out a free index adds exactly it to the indices in use; it was not in use before, and the new state keeps both invariants |
| Pool.JumpUsed | src/lib.rs:96-104 | requesting `id` past the frontier frees exactly the gap `[next_id, id - 1]`, adds exactly `id` to the indices in use, and keeps both invariants |
| Pool.ReleaseUsed | src/lib.rs:122-131 | giving back an index in use removes exactly it from the indices in use and keeps the count, whether the frontier retreats or the index is freed |
| Pool.CollapseUsed | src/lib.rs:171-177 | moving the frontier down over a free range flush with it changes no index in use, keeps the count and strictly lowers the frontier |
| Pool.NoCollapseSettled | src/lib.rs:172-180 | when no free range ends just below the frontier, the index below the frontier is in use |
| Pool.IndexPool.constructor | src/lib.rs:53-55 | the pool starts valid, at frontier 0 with nothing in use and an empty free list |
| Pool.IndexPool.WithInitialIndex | src/lib.rs:64-70 | the pool starts valid at frontier `index` with `in_use` 0 and an empty free list; exactly `[0, index)` counts as taken |
| Pool.IndexPool.NewId | src/lib.rs:76-86 | returns an index that was free and is not free afterwards, and every lower index was in use. With a free range it returns that range's `min` and leaves the frontier alone; with none it returns the old frontier and advances it. The indices in use grow by exactly the returned one, `in_use` by one, and the pool stays valid |
| Pool.IndexPool.RequestId | src/lib.rs:90-111 | at the frontier: succeeds and advances it. Past it: succeeds, frees exactly the gap `[next_id, id - 1]` and sets the frontier to `id + 1`. Below it: succeeds exactly when `id` was free. On success `id` becomes used and `in_use` grows by one; on `AlreadyInUse` the frontier, counter and free list are unchanged; the pool stays valid |
| Pool.IndexPool.ReturnId | src/lib.rs:117-136 | fails with `AlreadyReturned` exactly when `id` was free (at or above the frontier, or in the free list), changing nothing. On success `id` is free, `in_use` drops by one, exactly `id` leaves the indices in use, the frontier never rises, and after the collapse loop the index below the frontier is in use |
| Pool.IndexPool.CollapseNext | src/lib.rs:171-181 | collapses exactly when the last free range ends just below the frontier; then the frontier moves to that range's `min` and the range leaves the free list; otherwise nothing changes and the pool is valid. The indices in use never change |
| Pool.IndexPool.Maximum | src/lib.rs:143-145 | every index in use is below the result, and when it is nonzero the result minus one is in use: it is the highest index in use plus one, or 0 |
| Pool.IndexPool.InUse | src/lib.rs:149-151 | `in_use` plus the initial index is the number of indices in use |
| Pool.IndexPool.IsFree | src/lib.rs:155-157 | true exactly when the index is not in use |
| Pool.IndexPool.Clear | src/lib.rs:184-188 | the pool returns to the state `new` builds: frontier 0, nothing in use, empty free list |
| Pool.IndexPool.AllIndices | src/lib.rs:161-163 | builds a valid iterator over the free list's ranges that stops at the frontier, with nothing yielded yet |
| Pool.CollectIndices | src/lib.rs:159-163 | the pool's iterator yields the indices in use, strictly ascending, one per index counted by `in_use` plus the initial index |
| Scenarios.Observe | tests/basic_test.rs:58-60 | a pool whose indices in use are the elements of an ascending sequence yields exactly that sequence, reports it as `in_use` and has maximum its last element plus one |
| Scenarios.AllocateNext | tests/basic_test.rs:62-66 | `new_id` on a pool whose indices in use include all of `[0, n)` but not `n` returns `n`, which is then not free, and `in_use` grows by one |
| Scenarios.AllocateOne | tests/basic_test.rs:6-22 | the first `new_id` on a new pool returns 0, leaving exactly `{0}` in use and `in_use` at 1 |
| Scenarios.AllocateTwo | tests/basic_test.rs:24-31 | the second `new_id` returns 1, leaving exactly `{0, 1}` in use and `in_use` at 2 |
| Scenarios.AllocateThree | tests/basic_test.rs:33-42 | the three calls return `[0, 1, 2]`, leaving exactly `{0, 1, 2}` in use and `in_use` at 3 |
| Scenarios.ReturnMiddle | tests/basic_test.rs:52-60 | returning 1 from a pool holding `{0, 1, 2}` leaves exactly `{0, 2}` in use and `in_use` at 2 |
| Scenarios.ReallocateMiddle | tests/basic_test.rs:62-73 | on a pool holding `{0, 2}`, the next `new_id` hands 1 out again |
| Scenarios.ObserveThree | tests/basic_test.rs:35-42 | on a pool holding exactly `{0, 1, 2}`, none of 0, 1, 2 is free, the maximum and `in_use` are both 3, and the pool yields `[0, 1, 2]` |
| Scenarios.BasicScenario | tests/basic_test.rs:5-74 | the three first `new_id` calls return `[0, 1, 2]`, and after returning 1 the next `new_id` returns 1, so `[a, c, p] == [0, 2, 1]` |
| Scenarios.SpecificValuesScenario | tests/basic_test.rs:76-92 | after `request_id(1)` and `request_id(5)` on a new pool, `return_id(1)` and then `return_id(5)` both succeed |
| Scenarios.RequestTwo | tests/basic_test.rs:78-88 | requesting 1 and then 5 on a new pool both succeed, leaving exactly `{1, 5}` in use |

## Left out

- The error types' `Display` and `description` strings (`src/lib.rs:199-227`) are presentation only. `AlreadyReturned` and `AlreadyInUse` are plain datatypes, returned through `Outcome`.
- The internals of the `free_ranges` crate (its `BTreeSet` of ranges and the comparator that treats overlapping ranges as equal) are not part of this model. Its methods are specified only by their effect on the set of free points. The model's merge-on-insert and split-on-remove is one implementation that meets that contract.
- The value `set_range_free` returns is ignored by the pool at `src/lib.rs:97`, so the model's `SetRangeFree` returns nothing.
- `all_indices_after` and `IndexAfterIter` (`src/lib.rs:165-168`) are left out. The body of `IndexAfterIter` is not part of this model.
- `usize` overflow: indices are unbounded `nat`s. Only the `id < usize::MAX` assertion of `request_id` (`src/lib.rs:91`) is kept, as a precondition, with `usize::MAX` taken as 2^64 - 1. The wrap-around of `next_id += 1` (`src/lib.rs:84`) and of `in_use += 1` is not modelled.
- Pool.IndexPool.ReturnId: requires `in_use == 0 ==> IsFree(id)`. This excludes the underflow of `in_use -= 1` (`src/lib.rs:131`), which a pool built by `with_initial_index(k)` reaches when an index below `k` is returned while `in_use` is 0. The model does not say what the overflow-checked or wrapping subtraction does there. For pools built by `new()` or reset by `clear()` the precondition always holds.
- Pool.IndexPool.InUse: states `in_use + base == |Used()|` rather than `in_use == |Used()|`. The code does not count the indices below the initial index, which the doc comment at `src/lib.rs:62-63` says it does.
- FreeList.FreeRanges.RemoveLastContiguous: on an empty free list it is a no-op. The pool only calls it after finding a last range, so that case is never reached from the pool.
- In the iterator, the source's `Cloned<btree_set::Iter>` is modelled as the sequence of ranges not yet fetched. The ghost fields `all`, `consumed` and `yielded` exist only for the proof.
- `Default`, `#[derive(Clone, Debug)]`, lifetimes and borrows are not modelled, and neither are the test's `eprintln!` output, its `data` vector of strings (`tests/basic_test.rs:44-49`, `tests/basic_test.rs:63`, `tests/basic_test.rs:72`), or its closing `panic!()` (`tests/basic_test.rs:94`).
