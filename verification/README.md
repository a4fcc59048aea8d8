# bit-vector: word-packed bits and word-aligned split views

A Dafny model of the core of the Rust crate `bit-vector`. A `BitVector<S>`
packs bits into a buffer of unsigned words of type `S` (`u8`, `u16`, `u32`,
`u64`). Bit `i` lives in word `i / W` at in-word offset `i % W`, where
`W = storage_size() = 8 × size_of::<S>()`, and is read with
`(word & (1 << r)) != 0` and written with `|= 1 << r` / `&= !(1 << r)`.
The vector hands out views: `BitSlice` (read-only) and `BitSliceMut`
(read-write). Each view is only a start word and a capacity in bits over the
one shared buffer. `split_at` / `split_at_mut` cut a view, or the vector
itself, at a bit index `k`:
- they panic unless `k` is a multiple of `W`;
- otherwise they return the children `(start, k)` and `(start + k / W, capacity − k)`.

The library declares `BitSliceMut` and its `Iter` `Send` and `Sync` so that
threads can write through disjoint children at once. The model proves the
sequential facts that claim rests on:
- aligned splits give children with disjoint word footprints that together
  cover the parent's;
- a write through a view changes no word outside its footprint;
- hence writes through disjoint views commute, and every view afterwards
  reads exactly what was written through it.

Modules, one per source file plus two:

| module | file | models |
|---|---|---|
| `Outcomes` | outcomes.dfy | `Option`, and `Result` for the two panics (`IndexOutOfBounds`, `IndexNotOnStorageBound`) |
| `BitStorage` | bit_storage.dfy | `storage_size`, the index/offset decomposition (symbolic in `w > 0`), the `u8` word get/set, and `Flatten`, the reference meaning of a store as one LSB-first bit sequence |
| `Views` | views.dfy | the view value, footprints, `compute_capacities` / `compute_pointers`, the storage-bound check, splitting and repeated peeling |
| `BitSlice` | bit_slice.dfy | read-only views: `get`, `Index`, `split_at`, and reading through split children |
| `BitSliceMut` | bit_slice_mut.dfy | `set`, framing, commuting writers, `split_at`, `split_at_mut`, `reborrow`, `Iter::next` |
| `BitVector` | bit_vector.dfy | the owning vector: `with_capacity`, `get`, `set`, `Index`, `split_at`, `split_at_mut`, `iter` |
| `Scenarios` | scenarios.dfy | the library's own usage scenarios: the ten-bit split read and the four parallel writers |

A store is an immutable `seq<bv8>`, and `set` returns the new store.
Three reference definitions, not operations of the library, give the
contracts something independent to be stated against:
- `BitStorage.Flatten`: the store's words as one bit sequence, least
  significant bit of word 0 first;
- `BitSlice.Contents`: a view's bits in index order, read through
  `get_unchecked`;
- `BitSliceMut.Overlay`: what a run of writes leaves over some bits, namely
  at each index the last value written there, or the old bit.

Word contents are modelled for `u8`, the word type of almost every scenario. The
view and split arithmetic is symbolic in the width `w`, which covers the
`u32` peeling scenario too.

The source files disagree with each other in places, and the model picks one
coherent meaning:
- `src/bit_vector.rs` builds slices with a `storage_size` field that the view
  structs do not have.
- `src/bit_slice_mut.rs` calls `S::compute_data_index_and_remainder`, `S::get`,
  `S::set` and `S::compute_data_index`. None of these are defined by
  `src/bit_storage.rs`. The model gives them the meaning of the vector's
  inline code: `i / W`, `i % W`, and the shift-and-mask get/set.
- `with_capacity` takes a capacity only and zero-fills. The tests call a
  two-argument `with_capacity(capacity, fill)`. `BitVector.WithCapacity`
  follows the code; `BitVector.WithCapacityFill` is the tests' form, and with
  `fill = false` it is the same vector.
- The tests call `vec.iter()`, which the vector does not define. It is
  modelled as iterating the vector's whole view.

## Model

| member | source | states |
|---|---|---|
| BitStorage.StorageSize | src/bit_storage.rs:35-37 | the word width is positive, a multiple of 8, and 8 bits per byte of the word type |
| BitStorage.DataIndexAndRemainder | src/bit_vector.rs:110-128 | the (word index, offset) pair of `i` has offset below `W` and recomposes to `i` |
| BitStorage.DataIndexIsFloor | src/bit_vector.rs:116-119 | `compute_data_index` is floor division: `d` is the word of bit `i` exactly when `d * w <= i < d * w + w` |
| BitStorage.DataRemainderIsOffset | src/bit_vector.rs:121-128 | `compute_data_remainder` is the only offset `r < w` with `(i / w) * w + r == i` |
| BitStorage.AddressRoundTrip | src/bit_vector.rs:116-128 | decomposing `d * w + r` with `r < w` gives back `d` and `r`: the decomposition is unique |
| BitStorage.OffsetFitsWord | src/bit_slice.rs:70-75 | the in-word offset is below `W < 2^W`, so casting it into the word type cannot fail |
| BitStorage.OnStorageBoundIsWhole | src/bit_vector.rs:147-152 | the storage-bound check accepts `k` exactly when `k` is a whole number of words, `(k / w) * w == k` |
| BitStorage.U8StorageBounds | src/bit_slice_mut.rs:139-143 | for `u8`, the split points 0, 8 and 16 are on a storage bound and 4 is not |
| BitStorage.WordBitsRoundTrip | src/bit_vector.rs:104-107 | the eight reads `(word & (1 << r)) != 0` of a word, packed back with masks, give the word: reading loses nothing |
| BitStorage.BitsWordRoundTrip | src/bit_slice.rs:51-55 | every pattern of eight bits is what the reads of the word packed from it give |
| BitStorage.SetBit | src/bit_vector.rs:49-54 | setting an offset makes it read the new value and leaves the other seven offsets of the word as they were |
| BitStorage.SetBitLastWins | src/bit_vector.rs:49-54 | a second write to the same offset overrides the first |
| BitStorage.FlattenIndex | src/bit_vector.rs:104-107 | bit `j` of the store's flat bit sequence is offset `j % W` of word `j / W`: the addressing rule matches the reference meaning |
| BitStorage.FlattenUpdate | src/bit_vector.rs:46-55 | the shift-and-mask write to word `j / W` changes exactly bit `j` of the flat sequence |
| Views.SpanIsCeiling | src/bit_slice.rs:51-55 | the footprint length is the ceiling of `capacity / w` |
| Views.BitsWithinStore | src/bit_slice.rs:51-55 | a view whose footprint fits the store addresses only bits of the store |
| Views.IndexInFootprint | src/bit_slice.rs:51-55 | every index below the capacity reads a word of the view's footprint |
| Views.ComputeCapacities | src/bit_slice.rs:79-81 | for `k <= capacity`, the left capacity is `k` and the two capacities add up to the parent's |
| Views.ComputeCapacitiesWrapping | src/bit_slice.rs:79-81 | the unguarded subtraction modulo 2^64; it equals the guarded version whenever `k <= capacity` |
| Views.SplitPastCapacityWraps | src/bit_slice.rs:37-48 | an 8-bit `u8` view split at 16 passes the storage-bound check; `compute_pointers` and the wrapping `compute_capacities` give a right child at word 2 of 2^64 − 8 bits, whose capacities do not add up and which lies past the 2 words `with_capacity(8)` allocates |
| Views.Split | src/bit_slice.rs:37-48 | panics with "not on storage bound" iff `k % w != 0`; otherwise the children start at the parent's bit 0 and bit `k`, their capacities add up, and their footprints are disjoint and cover exactly the parent's |
| Views.PointersMeetAtCut | src/bit_slice.rs:84-88 | at an aligned cut `k`, `compute_pointers` keeps the parent's pointer on the left, and the right pointer's first bit is the parent's bit `k` |
| Views.AlignedSpans | src/bit_slice.rs:84-88 | an aligned cut spends `k / w` words on the left and the parent's remaining words on the right |
| Views.SplitWithinStore | src/bit_vector.rs:63-65 | both children of a view that fits the store fit it too |
| Views.SplitAssociative | src/bit_slice.rs:37-48 | cutting at `k1` and then the left child at `k2` gives the same three pieces as cutting at `k2` and then the right child at `k1 − k2` |
| Views.SplitIntoSlices | tests/lib.rs:221-235 | peeling at increasing indices succeeds iff every cut is aligned, and then gives one more piece than indices; the capacities add up, the pieces are contiguous, and their footprints are pairwise disjoint and inside the parent's |
| Views.PeelStep | tests/lib.rs:221-235 | the left child of a cut followed by a peeling of the right child is a peeling of the parent |
| Views.PeelThousandBitsU32 | tests/lib.rs:212-219 | a 1000-bit `u32` vector cut at 128, 224, …, 928 yields 10 pieces with pairwise disjoint footprints and capacities adding up to 1000 |
| BitSlice.GetUnchecked | src/bit_slice.rs:51-55 | reads bit `pointer * W + i` of the store's flat bit sequence |
| BitSlice.Get | src/bit_slice.rs:26-31 | never panics: `None` iff `i >= capacity`, otherwise the view's bit `i` of the store |
| BitSlice.Index | src/bit_slice.rs:110-117 | panics with "out of bounds" iff `i >= capacity`, otherwise returns what `get` returns |
| BitSlice.SplitAt | src/bit_slice.rs:37-48 | panics iff `k` is not aligned, otherwise the children partition the view |
| BitSlice.ContentsIsFlatRun | src/bit_slice.rs:51-55 | a view shows exactly its own run of the store's flat bit sequence |
| BitSlice.SameRunSameContents | src/bit_slice.rs:51-55 | two views with the same start bit and capacity show the same bits |
| BitSlice.AdjacentRuns | src/bit_slice.rs:37-48 | two views whose bit runs meet read, one after the other, what the view spanning both reads |
| BitSlice.SplitAtReads | src/bit_slice.rs:152-202 | after an aligned split, the left child reads the parent's bits `0 .. k`, the right child its bits `k ..`, and their contents concatenate to the parent's |
| BitSlice.NestedSplitReads | src/bit_slice.rs:228-282 | splitting both halves again: the four quarters read the parent's bits from `0`, `kl`, `k` and `k + kr` on |
| BitSlice.ContentsDependOnFootprint | src/bit_slice.rs:51-55 | what a view shows depends only on the words of its footprint |
| BitSlice.FromPointerIsLsbFirst | src/bit_slice.rs:128-150 | bytes `0b11001111, 0b01001001` read, least significant bit first, as `1,1,1,1,0,0,1,1,1,0,0,1,0,0,1,0` |
| BitSliceMut.Set | src/bit_slice_mut.rs:38-45 | panics iff `i >= capacity`; otherwise exactly the view's bit `i` of the store changes, and no word outside the footprint |
| BitSliceMut.SetThenGet | src/bit_slice_mut.rs:295-333 | after `set(i, v)`, `get(i)` is `Some(v)` and every other index reads as before |
| BitSliceMut.SetLastWins | src/bit_slice_mut.rs:335-363 | setting an index twice leaves the store as setting it once to the second value |
| BitSliceMut.SetLocal | src/bit_slice_mut.rs:19-20 | a write's effect on the footprint depends only on the footprint's words |
| BitSliceMut.ApplyWrites | src/bit_slice_mut.rs:373-380 | a run of `set` calls panics iff one of its indices is out of bounds, and otherwise changes no word outside the footprint |
| BitSliceMut.ApplyWritesReads | src/bit_slice_mut.rs:335-363 | after a run of in-bounds writes, each index reads the last value written to it, or its old bit |
| BitSliceMut.ApplyWritesContents | src/bit_slice_mut.rs:38-45 | a view's contents after a run of writes are those writes laid over its old contents |
| BitSliceMut.ApplyWritesLocal | src/bit_slice_mut.rs:19-20 | a run of writes depends only on the words of its own footprint |
| BitSliceMut.WritesCommute | src/bit_slice_mut.rs:19-20 | two writers on views with disjoint footprints give the same store in either order |
| BitSliceMut.RunJobsCharacterised | src/bit_slice_mut.rs:19-20 | after writers on pairwise disjoint views have all run, each footprint holds what its writer alone would leave, and every other word is untouched |
| BitSliceMut.RunJobsInside | src/bit_slice_mut.rs:19-20 | each word of a writer's view ends up as that writer alone would leave it |
| BitSliceMut.RunJobsOutside | src/bit_slice_mut.rs:19-20 | words outside every writer's view keep their value |
| BitSliceMut.RunJobsOrderIrrelevant | src/bit_slice_mut.rs:19-20 | the order in which disjoint writers run does not change the resulting store |
| BitSliceMut.RunJobsVisibility | tests/lib.rs:108-210 | each writer's view afterwards reads exactly what that writer alone would leave there |
| BitSliceMut.SplitAt | src/bit_slice_mut.rs:51-62 | read-only children of a mutable view: same panic rule and same cut as `split_at_mut` |
| BitSliceMut.SplitAtMut | src/bit_slice_mut.rs:64-75 | panics iff `k` is not aligned; otherwise mutable children with disjoint footprints whose bits continue the parent's one to one |
| BitSliceMut.Reborrow | src/bit_slice_mut.rs:77-83 | the reborrowed view has the same start bit, capacity and footprint |
| BitSliceMut.ReborrowReadsAgree | src/bit_slice_mut.rs:578-608 | a reborrowed view reads exactly what the original reads |
| BitSliceMut.SplitWritesUnion | src/bit_slice_mut.rs:489-568 | after writes through both mutable children, in either order, the parent reads the left child's result followed by the right child's |
| BitSliceMut.AdjacentWritersUnion | src/bit_slice_mut.rs:489-568 | two writers on adjacent disjoint views leave the spanning view reading the first one's result followed by the second one's |
| BitSliceMut.AdjacentWritersCommute | src/bit_slice_mut.rs:19-20 | two writers on disjoint views may run in either order with the same resulting store |
| BitSliceMut.IterOf | src/bit_slice_mut.rs:85-93 | a fresh iterator walks the view from index 0 |
| BitSliceMut.Advance | src/bit_slice_mut.rs:187-191 | moving past one bit carries into the word counter and raises `calculate_index` by one |
| BitSliceMut.CountersAddressIndex | src/bit_slice_mut.rs:205-207 | `calculate_index` inverts the decomposition: the two counters are the word index and offset of `calculate_index`, inside the footprint |
| BitSliceMut.NextAsWritten | src/bit_slice_mut.rs:179-194 | every call of `next` as written reads the word at the counters, the final `None` call included, and it yields `None` iff the index has reached the capacity |
| BitSliceMut.Next | src/bit_slice_mut.rs:179-194 | `next`: `None` iff the index reached the capacity, and then the iterator stays put; otherwise `get(index)` and one step on; it reads only footprint words |
| BitSliceMut.NextAgreesWithWritten | src/bit_slice_mut.rs:179-194 | both versions of `next` yield the same items and states and differ only in the final call's read |
| BitSliceMut.NextAsWrittenReadsSibling | src/bit_slice_mut.rs:164-165 | the final call of `next` as written on a left child reads the right sibling's first word |
| BitSliceMut.LeftIteratorOverreads | src/bit_slice_mut.rs:180-185 | for a 16-bit store split at 8, the left iterator's ninth call yields `None` but reads word 1 |
| BitSliceMut.DrivenToEnd | src/bit_slice_mut.rs:186-191 | after all `capacity` items the counters are the word index and offset of the capacity |
| BitSliceMut.FinalWordInFootprint | src/bit_slice_mut.rs:180-181 | word `capacity / W` of a view is one of its words exactly when the capacity is not a whole number of words |
| BitSliceMut.FinalReadAsWritten | src/bit_slice_mut.rs:179-194 | after all items, the final call of `next` as written yields `None` but reads word `pointer + capacity / W`, which lies outside the view iff the capacity is a whole number of words |
| BitSliceMut.WholeIteratorOverreadsBuffer | src/bit_slice_mut.rs:220-222 | a 16-bit view over exactly the two bytes of the `from_pointer` test: the final call of `next` as written reads word 2, past the end of the buffer |
| BitSliceMut.Drive | src/bit_slice_mut.rs:179-194 | `n` calls of `next` within the capacity advance the index by exactly `n` |
| BitSliceMut.ExhaustedAfterCapacity | src/bit_slice_mut.rs:610-651 | after `capacity` items the iterator yields `None` and stays put |
| BitSliceMut.Collect | src/bit_slice_mut.rs:179-194 | the remaining items are the view's contents from the current index on |
| BitSliceMut.CollectAsWritten | src/bit_slice_mut.rs:179-194 | collecting with `next` as the library writes it yields exactly what the corrected `next` yields |
| BitSliceMut.IterYieldsContents | src/bit_slice_mut.rs:610-651 | iterating a view, with either version of `next`, yields exactly its contents, the `i`-th item being `get(i)` |
| BitSliceMut.IterSplitConcat | src/bit_slice_mut.rs:610-651 | iterating the two children of an aligned split one after the other yields the parent's iteration |
| BitVector.WithCapacity | src/bit_vector.rs:29-37 | allocates `capacity / W + 1` words, all zero, so every index below the capacity reads `false` |
| BitVector.WithCapacityFill | tests/lib.rs:8 | the tests' two-argument constructor: every index reads the fill value, and filling with `false` is `with_capacity` |
| BitVector.AllocationCovers | src/bit_vector.rs:31 | every index below the capacity has an allocated word, and every aligned `k <= capacity` is a valid cut of the buffer |
| BitVector.AllocationSlack | src/bit_vector.rs:31 | the allocation covers the bits with at most one spare word, which is there iff the capacity is aligned |
| BitVector.WholeView | src/bit_vector.rs:61-80 | the vector's whole view fits its buffer, starts at bit 0 and has the vector's capacity |
| BitVector.GetUnchecked | src/bit_vector.rs:104-107 | reads bit `i` of the buffer's flat bit sequence |
| BitVector.Get | src/bit_vector.rs:39-44 | never panics: `None` iff `i >= capacity`, otherwise bit `i` |
| BitVector.Index | src/bit_vector.rs:19-26 | panics with "out of bounds" iff `i >= capacity`, otherwise equals `get(i)` |
| BitVector.Set | src/bit_vector.rs:46-55 | panics iff `i >= capacity`; otherwise exactly bit `i` takes the new value and the capacity is kept |
| BitVector.SetThenGet | src/bit_vector.rs:46-55 | after `set(i, v)`, `get(i)` is `Some(v)` and every other index, the other bits of the same word included, reads as before |
| BitVector.SetEach | tests/lib.rs:8-44 | a run of `set(i, v)` panics iff one index is out of range; otherwise the set indices read `v` and all others as before |
| BitVector.VectorIsWholeView | src/bit_vector.rs:39-55 | the vector's `get` and `set` are those of the view of its whole buffer |
| BitVector.SplitAt | src/bit_vector.rs:61-80 | panics iff `k` is not aligned; otherwise the children partition the whole view and fit the buffer |
| BitVector.SplitAtMut | src/bit_vector.rs:82-101 | the same cut handed out as two mutable views |
| BitVector.SplitAtReads | src/bit_vector.rs:61-80 | the left child reads the vector's bits `0 .. k` and the right child its bits `k .. capacity` |
| BitVector.Iter | src/bit_slice_mut.rs:640-651 | iterating the vector yields its whole contents |
| BitVector.IterSplitConcat | src/bit_slice_mut.rs:610-651 | the vector's iteration is the left child's followed by the right child's |
| BitVector.WholeIterFinalReadAllocated | src/bit_vector.rs:31 | on the whole vector the final read of `next` as written stays inside the allocation, thanks to the extra word |
| Scenarios.SetEachOnClear | src/bit_slice.rs:152-165 | setting some in-range indices of an all-`false` vector makes exactly those indices read `true` |
| Scenarios.TenBitsSetsHalves | src/bit_slice.rs:152-202 | setting bits 1, 3, 5, 7, 11, 13, 17, 19, 23, 29 gives the two sixteen-bit halves the scenario reads |
| Scenarios.SplitHalvesRead | src/bit_slice.rs:152-226 | the halves of a 32-bit vector split at 16 read its bits in order, and the right half answers `None` for, and panics on, index 16 |
| Scenarios.TenBitsSplitAtSixteen | src/bit_slice.rs:152-202 | on a fresh 32-bit vector with the ten bits set, the halves read the expected sixteen bits each |
| Scenarios.WritesOf | tests/lib.rs:120-168 | a worker's writes store `bits[k]` at offset `k`, in order |
| Scenarios.LastWriteOfWritesEach | tests/lib.rs:120-168 | when each offset is written once in order, the last write to offset `i` stored `bits[i]` |
| Scenarios.WorkerViewsFromSplits | tests/lib.rs:112-116 | the four workers' views are the quarters the nested splits of a 32-bit vector hand out |
| Scenarios.WorkerReads | tests/lib.rs:120-168 | a worker that overwrites every offset of its view leaves it reading exactly its values |
| Scenarios.WholeFromQuarters | tests/lib.rs:175-209 | a store whose four quarters read the workers' values reads their concatenation as a whole |
| Scenarios.QuarterReads | tests/lib.rs:108-210 | after all four workers have run, each quarter reads exactly its worker's values |
| Scenarios.QuarterJobsResult | tests/lib.rs:108-210 | four quarter workers leave a 32-bit vector reading their values in order, whatever it held before |
| Scenarios.ParallelWorkersResult | tests/lib.rs:108-210 | the four workers fit and are disjoint, and afterwards the vector reads each worker's eight values in its quarter |

## Left out

- Threads, `crossbeam::scope` and `join`: writers are run one after the other. The lemmas prove that the order does not matter, and no interleaving within a call is modelled.
- Raw pointers, `unsafe`, `PhantomData`, lifetimes and the consumption of `self` by `split_at_mut`. A pointer is a word offset into one store; the borrow checker's guarantee appears only as disjoint footprints and framing.
- Word contents of `u16`, `u32` and `u64`: the get/set code is modelled on `u8` words only. The addressing and split arithmetic is symbolic in the width, and `StorageSize` gives every width.
- `num::cast` of the offset into the word type: it is the identity on offsets below `W` (`BitStorage.OffsetFitsWord`).
- `src/lib.rs`: `bool_ref!` and the static `TRUE` / `FALSE` only let `Index` return `&bool`.
- `Debug` derives and their tests, and the `IntoIterator` plumbing beyond `iter()`.
- Allocation failure, and the `usize` / `isize` limits of pointer `offset`. Only the capacity subtraction's wrap-around is modelled.
- `capacity()` on the vector and views: it returns the stored field, which each view value carries as `capacity`.
- Borrows: `reborrow` takes `&self`, so two reborrows of one mutable view are two writers with the same footprint (`BitSliceMut.Reborrow` keeps the footprint). The model has no notion of a live borrow, so the lemmas about writers only cover writers the caller keeps disjoint.
- `get` and `Index` on `BitSliceMut`: they are the read-only view's, and the model reuses `BitSlice.Get` / `BitSlice.Index`.
- The concurrent read-only scenario (tests/lib.rs:6-106): reading quarters through nested read-only splits is covered in general by `BitSlice.NestedSplitReads`.
- Views.Split, BitSlice.SplitAt, BitSliceMut.SplitAt, BitSliceMut.SplitAtMut, BitVector.SplitAt, BitVector.SplitAtMut: these require `k <= capacity`, which the library does not check. The unchecked behaviour is modelled separately (see Findings).
- BitSliceMut.Next: this is the corrected `next`, which checks the end before reading. The library's read order is `BitSliceMut.NextAsWritten` (see Findings).
- BitVector.WithCapacityFill: the fill value of the two-argument constructor is assumed to mean all-ones words for `true`, since no source defines it.

## Findings

| source | as written | input that shows it | evidently intended | confidence | as-written member | corrected member |
|---|---|---|---|---|---|---|
| src/bit_slice.rs:79-81 | `split_at(k)` subtracts `capacity - k` with no check that `k <= capacity` (the same in src/bit_slice_mut.rs:108-110 and src/bit_vector.rs:131-133) | an 8-bit view of `u8` split at 16: 16 is aligned, and the right capacity wraps to 2^64 − 8 in a build without overflow checks (a panic otherwise) | reject `k > capacity`, so the capacities add up to the parent's | not executed | Views.SplitPastCapacityWraps | Views.ComputeCapacities |
| src/bit_slice_mut.rs:179-194 | `next` reads the word at the counters before checking for the end | the left child `(0, 8)` of a 16-bit view split at 8: after eight items, the ninth call yields `None` but reads word 1, the right child's word, which another thread may be writing. A view made by `from_pointer` over exactly two bytes with capacity 16 reads word 2 on its seventeenth call, past the end of the buffer (`BitSliceMut.WholeIteratorOverreadsBuffer`) | check the end first and read only inside the view's footprint, as the `Send`/`Sync` claim needs | not executed | BitSliceMut.LeftIteratorOverreads | BitSliceMut.Next |
