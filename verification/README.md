# impatient — a Dafny model of the vectorization engine

`impatient` walks a slice (or a pair of slices in lockstep) one SIMD
vector at a time. `create` splits a slice of length `len` into
`len / LANES` full blocks and a remainder of `len % LANES` elements; the
remainder is copied into the first lanes of a caller-supplied padding
vector, and without one an unaligned slice is a panic. A stateless
vectorizer hands out block `i` on request (`get`): a vector value for a
read-only slice, a `MutProxy` write-back guard for a mutable one, a pair
of those for a tuple. `VectorizedIter` holds a `[left, right)` cursor over
the full blocks plus an optional tail block; it is double-ended, exact-size
and fused. Dropping a `MutProxy` copies its first `restore.len()` lanes
back into the slice.

The model, module by module:

- `Wrappers` — `Option` and `Result`.
- `Blocks` — remainder, main part and full-block count of a length; block
  `i` of a buffer; the padded tail block; reassembly of a buffer from its
  blocks.
- `Proxies` — `MutProxy` as a local block plus a restore window
  `[start, start + len)`; dropping it is a splice into the buffer.
- `Vectorizers` — sources (`Slice(access, buf, lanes, elemSize)` or
  `Pair(fst, snd)`), paddings, yielded items, vectorizers; `create` for
  read-only slices, mutable slices and pairs; `get`; dropping a yielded
  item into its source.
- `Iter` — the cursor with `next`, `next_back`, `size_hint`, `count`,
  `last`, `nth`, `vectorize`, `vectorize_pad`, and properties of whole
  runs of forward and backward steps. Its reference denotation is
  `Pending(it)`: the blocks `[left, right)` fetched in order, then the
  tail block if one is held. The cursor also carries a log `fetched` of
  every index passed to `get`. The Rust iterator has no such field: the
  log is a specification-only record, there so that the accessor's usage
  contract (index in range, each index at most once) is stated and proved
  about every step. It is a plain field rather than `ghost` because the
  step functions return the cursor as a value.
- `Scenarios` — the two usage examples in the tests of `impatient`, stated for every
  length and lane count and then instantiated: summing a zero-padded
  read-only buffer, and writing `data + 1` through a (mutable, read-only)
  pair.

Panics become `Err` values: `NotDivisible(lanes, len)` for an unaligned
slice without padding, `DifferentLengths` for a pair whose sides have
different block counts, and `PaddingsMismatch` for a pair where only one
side yields a tail block. The "slice too huge" assertion
(`len * size_of::<B>() <= isize::MAX`) is a precondition (`WellFormed`),
since a Rust slice can never span more than `isize::MAX` bytes.

The panic at src/lib.rs:516 speaks of paddings not provided by both
sides, but a pair's padding is always a pair, so both sides always get
one; the condition checked is exactly one side producing a tail block
(src/lib.rs:512-517), and `PaddingsMismatch` models that condition.

## Model

| member | source | states |
|---|---|---|
| Blocks.Decomposition | src/lib.rs:388-410 | The remainder is below the lane count, main plus remainder is the length, the block count `main / LANES` equals `len / LANES` and covers exactly `main` elements, and the remainder is zero exactly when main is the whole length. |
| Blocks.PadTail | src/lib.rs:395-397 | The tail block has `LANES` lanes: its first `rest` lanes are the slice's last `rest` elements and the others are the padding vector's own lanes. |
| Blocks.Reassemble | src/lib.rs:388-411 | All full blocks laid end to end, followed by the first `rest` lanes of the tail block, reproduce the slice exactly. |
| Proxies.Release | src/lib.rs:146-154 | Dropping a proxy keeps the buffer's length, writes the first `len` local lanes into the window and leaves every position outside the window unchanged. |
| Proxies.PaddingNeverWritten | src/lib.rs:152-154 | Lanes past `restore.len()` (the padding lanes of a tail proxy) never reach the buffer: proxies agreeing on the first `len` lanes release identically. |
| Proxies.UntouchedReleaseIsIdentity | src/lib.rs:152-154 | A proxy whose local block was not modified leaves the buffer as it was. |
| Proxies.DisjointReleasesCommute | src/lib.rs:433-438 | Two proxies over disjoint windows can be dropped in either order with the same result. |
| Vectorizers.CreateShared | src/lib.rs:387-411 | For a read-only slice: success exactly when aligned or padded, else `NotDivisible(LANES, len)`; the count is `len / LANES`; block `i` exists exactly for `i < count`; a tail exists exactly when `len % LANES != 0` and holds the slice's remainder then the padding lanes. |
| Vectorizers.CreateExclusive | src/lib.rs:451-479 | For a mutable slice: as for a read-only one, and the tail is a proxy whose restore window is exactly `[main, len)`. |
| Vectorizers.Create | src/lib.rs:501-519 | For any source: success exactly when every pair is balanced and, with padding, both sides of each pair agree on leaving a remainder (without padding, every slice is aligned); the count, block range, accessor shape and tail content follow the source. |
| Vectorizers.CreateErrors | src/lib.rs:507-517 | Which error a failing `create` reports: `NotDivisible(LANES, len)` for a slice; for a pair, the first side's own failure, else the second side's, else different block counts, else a tail on one side only. |
| Vectorizers.AlignedHasNoRest | src/lib.rs:329-331 | When `create(None)` succeeds no tail block exists, so the assertion in `vectorize` never fires. |
| Vectorizers.GetRead | src/lib.rs:372-375 | Block `i` of a read-only slice is the `LANES` elements starting at `LANES * i`. |
| Vectorizers.GetWrite | src/lib.rs:432-439 | Block `i` of a mutable slice is a proxy holding those elements whose restore window is `[LANES * i, LANES * i + LANES)`, inside the slice. |
| Vectorizers.Get | src/lib.rs:487-490 | A pair vectorizer's block `i` is the pair of both sides' block `i`. |
| Vectorizers.GetFits | src/lib.rs:433-438 | Every in-range block can be dropped back into the source it was fetched from. |
| Vectorizers.ReleaseItem | src/lib.rs:146-154 | Dropping an item writes its proxy back into a mutable slice (the slice becomes `Release(buf, proxy)`), leaves a read-only slice as it was, drops both halves of a pair item into their own sides, and keeps the source's shape and well-formedness. |
| Vectorizers.UnusedTailReleasesNothing | src/lib.rs:146-154 | Dropping the tail block `create` produced without writing to it leaves the source unchanged: its window still holds the slice's remainder and the padding lanes are never written. |
| Vectorizers.ReleaseKeepsOtherBlock | src/lib.rs:433-438 | Dropping a proxy over a window disjoint from block `i` does not change what `get(i)` reads afterwards. |
| Vectorizers.TailAfterBlocks | src/lib.rs:460-465 | The tail window `[main, len)` lies after every full block. |
| Iter.Next | src/lib.rs:245-255 | `next` keeps the cursor valid; it fetches only when a block is pending, and then an in-range index never fetched before. |
| Iter.NextYieldsHead | src/lib.rs:245-255 | `next` yields the first pending item and leaves the rest pending; with nothing pending it yields nothing and changes nothing (fused). |
| Iter.NextBack | src/lib.rs:297-306 | `next_back` keeps the cursor valid; it fetches only when no tail is held and a block is pending, and then an in-range index never fetched before. |
| Iter.NextBackYieldsEnd | src/lib.rs:297-306 | `next_back` yields the last pending item (the tail first) and leaves the others pending. |
| Iter.SizeHint | src/lib.rs:258-261 | Both bounds equal the number of items still to come. |
| Iter.Count | src/lib.rs:266-268 | `count` is the number of items still to come. |
| Iter.Last | src/lib.rs:271-273 | `last` is the final item in forward order, or nothing. |
| Iter.Nth | src/lib.rs:277-287 | `nth` keeps the cursor valid and fetches at most block `left + n`, never the skipped ones. |
| Iter.NthYieldsNth | src/lib.rs:277-287 | `nth(n)` yields the item `n` places on and leaves what follows pending; past the end it yields nothing and leaves nothing pending. |
| Iter.DroppedTailChangesNothing | src/lib.rs:283-285 | The tail held by a fresh padded iterator, dropped unused (as `nth` past the end does with `take_partial`), leaves the source unchanged. |
| Iter.NthIsAdvanceThenNext | src/lib.rs:277-287 | `nth(n)` yields the same item and leaves the same cursor as `n` discarded `next` calls followed by `next`, with a fetch log that is a subset. |
| Iter.Vectorize | src/lib.rs:329-339 | `vectorize` succeeds exactly for aligned, balanced sources and yields blocks `0 .. count` in order with no tail. |
| Iter.VectorizePad | src/lib.rs:342-351 | `vectorize_pad` succeeds exactly for balanced sources whose pairs agree on a remainder; it yields every full block, then the padded tail when the length is unaligned. |
| Iter.Drain | src/lib.rs:245-255 | Calling `next` until it yields nothing produces exactly the pending items, in order. |
| Iter.DrainBack | src/lib.rs:297-306 | Calling `next_back` until it yields nothing produces the pending items in reverse, tail first. |
| Iter.BothDirectionsAgree | src/lib.rs:290-306 | Forward and backward draining yield the same multiset of items; the tail comes last forward and first backward. |
| Iter.StepCounts | src/lib.rs:309-319 | A step in either direction yields something exactly when the count is positive, and the count then drops by one. |
| Iter.StepKeepsItems | src/lib.rs:290-306 | The item a step yields plus the items still pending afterwards are the items pending before. |
| Iter.RunYieldsExactlyCount | src/lib.rs:309-319 | Under any mix of `next` and `next_back`, exactly the first `count` steps yield something (exact size, fused), and the fetch log only grows. |
| Iter.RunYieldsEachItemOnce | src/lib.rs:221-226 | Under any mix of `next` and `next_back`, every pending item is yielded at most once, and an item not yet yielded is still pending. |
| Scenarios.ReadLanesReproduceSource | src/lib.rs:387-411 | Draining a padded read-only slice and laying the blocks end to end gives the slice, followed by the padding lanes past the remainder. |
| Scenarios.ZeroPaddedSumIsSourceSum | src/lib.rs:528-535 | With a zero padding vector, the sum of every lane of every yielded block is the sum of the slice. |
| Scenarios.ElevenNumbersInEightLanesSumTo55 | src/lib.rs:528-535 | `0..=10` in eight lanes with zero padding yields two blocks whose lanes add up to 55. |
| Scenarios.IncrementThroughPair | src/lib.rs:537-549 | Walking a padded (mutable destination, read-only data) pair and assigning `ones + s` to every proxy leaves the destination equal to `data + 1` element by element and the data untouched, for any length and lane count. |
| Scenarios.ThirtyThreeElementsIncremented | src/lib.rs:537-549 | The same with 33 elements and four lanes: the destination ends up holding `1..=33`. |

## Left out

- The `Repr` implementations and the sealed `inner` module (src/lib.rs:27-110): element types are a type parameter `T`.
- Concrete SIMD operations — `splat`, `gather_load`, `scatter_store`, `horizontal_sum`, `horizontal_product` and lane-wise arithmetic (src/lib.rs:178-191): the usage examples use `Sum` over lanes and `AddOne` in their place.
- `Vector::new` and `new_unchecked` (src/lib.rs:161-176): a block is built from the slice directly and always has `LANES` lanes.
- `Send`/`Sync` impls (src/lib.rs:363-364, 423-424): threads are not modelled.
- Raw pointers, lifetimes and `Deref`/`DerefMut` on `MutProxy` (src/lib.rs:123-144): a vectorizer holds the slice contents instead of a start pointer; `ReleaseKeepsOtherBlock` shows that dropping other blocks never changes what a later `get` reads, so the snapshot reads what the live slice would.
- The "slice too huge" assertion: a precondition (`WellFormed`) rather than an error path, because no Rust slice can violate it.
- Integer widths: lengths and indices are unbounded, and the element arithmetic of the usage examples (`u16`, `u32` with wrap-around) is on unbounded integers; none of the example values come near an overflow.
- Both sides of a pair share one element type `T`; in the Rust implementation each side may have its own base and vector type.
- The `Partial` trait (src/lib.rs:195-219): the tail slot is an `Option` in both iterators; the `()` implementation used by `vectorize` corresponds to a slot that is always `None`.
- The write-back of a tail proxy that is dropped without being yielded — by `nth` past the end (src/lib.rs:284), by `count`, or when the iterator itself is dropped: the iterator steps do not carry the source. `Iter.DroppedTailChangesNothing` shows that such a drop leaves the source unchanged, as long as nothing wrote to the tail, which nothing can while the iterator holds it.
- Iterator adaptors inherited from `Iterator` (`sum`, `zip`, `for` loops) are modelled only as the drain and the loop body in `Scenarios`.
