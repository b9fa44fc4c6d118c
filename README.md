# Resizeable resource hashtable — growth and rehash, in Dafny

This project models the growable chained hashtable of HotSpot's
`resizeableResourceHash.hpp`. It covers two parts:

- The bucket-array storage: `_table_size` and the zero-filled array of bucket heads in `_table`.
- The growth machinery on top of it:
  - `calculate_resize` picks the next size from a fixed table of 18 preferred sizes.
  - `maybe_grow` is the integer load-factor trigger, capped at `_max_size`.
  - `resize` relinks every node into a fresh bucket array.
  - `verify` reports the longest chain.

Files and modules:

- `storage.dfy` (`Storage`) holds the following:
  - A node is the value `Node(key, value, hash)`. `hash` is the cached hash.
  - A chain is the sequence of its nodes, head first.
  - `AllocTable` allocates and clears the bucket array.
  - The base table's `number_of_entries()` is modelled as `TotalLength`: the total length of all chains.
  - `Bag` is the multiset of all nodes.
  - `Placed` says that every node sits in bucket `hash % size`.
- `rehash.dfy` (`Rehashing`) describes what `resize` computes, as functions on bucket contents:
  - `Push` links a node in at the head of its target bucket.
  - `Relink` does this for one chain, head to tail.
  - `RelinkAll` does it for every bucket, first to last.
  - `Rehash` does it starting from empty buckets.
  - Lemmas show that no node is lost, duplicated or invented, and that every node lands in bucket `hash % new_size`.
- `growth.dfy` (`GrowthPolicy`) holds the growth rules:
  - the preferred-size table;
  - the first-fit search, as `FirstFitIndex`, `FirstFit` and `NextSize`;
  - the trigger, as `GrowthTarget`;
  - their properties, including that no series of `maybe_grow` calls lifts the size above the cap.
- `table.dfy` (`ResizeableHash`) holds the class `ResizeableResourceHashtable<K, V>`:
  - Its fields are `tableSize`, `table: array<seq<Node>>`, `maxSize` and the allocation regime.
  - A ghost log `freed` records the bucket arrays released in the C-heap regime.
  - Its methods follow the source's loops.
  - Each method's postcondition ties the new state to the functions above.

The storage base class and the table class are merged into one Dafny class,
because Dafny classes cannot extend classes. Its `tableSize` and `table`
fields play the part of the base class's `table_size()` and `table()`
accessors.

Facts of the code that shape the model:

- The constructor asserts only that both sizes are at most `0x3fffffff`
  (resizeableResourceHash.hpp:116). It does not check `size <= max_size`, so
  the model does not either. The cap is therefore stated relative to the
  start: a table that starts at or below `maxSize` stays there (`MaybeGrow`,
  `SizeAfterCapped`).
- Growth uses integer division (:124). With 107 buckets and load factor 8,
  857 entries do not trigger growth, because 857 / 107 = 8. The first entry
  count that triggers it is 963 (`GrowthExamples`).
- 963 entries request 1926 buckets. 1009 is below that request, so the
  choice is 2017 (`NextSizeSmallExamples`).
- `maybe_grow`'s defaults, load factor 8 and the small-size search (:119),
  are the default parameter values of `MaybeGrow`.

## Model

| member | source | states |
|---|---|---|
| Storage.AllocTable | src/hotspot/share/utilities/resizeableResourceHash.hpp:52-61 | a freshly allocated array of exactly `n` buckets, every one empty |
| ResizeableHash.ResizeableResourceHashtable.constructor | src/hotspot/share/utilities/resizeableResourceHash.hpp:114-117 | requires both sizes at most `0x3fffffff` (and not `size <= max_size`); the table has `size` empty buckets, the given cap and regime, and nothing freed |
| Storage.NoEntriesIffAllEmpty | src/hotspot/share/utilities/resizeableResourceHash.hpp:161-179 | the entry count is zero exactly when every bucket is empty |
| Storage.BagSize | src/hotspot/share/utilities/resizeableResourceHash.hpp:137-151 | the entry count is the size of the multiset of nodes |
| GrowthPolicy.LargeTableSizesAscending | src/hotspot/share/utilities/resizeableResourceHash.hpp:93-98 | the preferred-size table has 18 entries in strictly ascending order |
| GrowthPolicy.FirstFitIndex | src/hotspot/share/utilities/resizeableResourceHash.hpp:104-109 | the scan stops at the first index from the start on whose size is at least the request; every size skipped is smaller |
| GrowthPolicy.FirstFitIsSmallest | src/hotspot/share/utilities/resizeableResourceHash.hpp:104-109 | over an ascending table the first fit is at least the request, is an entry from the start index on, and is no larger than any fitting entry from there on: the smallest fitting entry |
| GrowthPolicy.FirstFitSpec | src/hotspot/share/utilities/resizeableResourceHash.hpp:101-110 | the result is at least the request; no entry from the start on fits exactly when the result is the request and the request is not itself an entry from the start on; otherwise it is the smallest fitting entry |
| GrowthPolicy.NextSizeSpec | src/hotspot/share/utilities/resizeableResourceHash.hpp:90-111 | `calculate_resize` returns at least `2 * entries`; it returns `2 * entries` once that exceeds 78643219; otherwise it returns the smallest preferred size from index 0 or 8 on that is at least `2 * entries` |
| GrowthPolicy.NextSizePositive | src/hotspot/share/utilities/resizeableResourceHash.hpp:101-110 | the chosen size is never zero, so `resize`'s modulo is defined |
| GrowthPolicy.NextSizeLargeExample | src/hotspot/share/utilities/resizeableResourceHash.hpp:102-108 | with large sizes, a request of 50000 yields 76831 |
| GrowthPolicy.NextSizeSmallExamples | src/hotspot/share/utilities/resizeableResourceHash.hpp:96-108 | 963 entries yield 2017; an empty table yields 107 |
| GrowthPolicy.NextSizeFallbackExample | src/hotspot/share/utilities/resizeableResourceHash.hpp:110 | a request of 80000000, beyond the table, is returned unchanged |
| ResizeableHash.ResizeableResourceHashtable.CalculateResize | src/hotspot/share/utilities/resizeableResourceHash.hpp:90-111 | the loop returns exactly the first-fit size of `NextSize` for the current entry count |
| GrowthPolicy.GrowthTarget | src/hotspot/share/utilities/resizeableResourceHash.hpp:119-131 | a growth target is never zero and never above `max_size` |
| GrowthPolicy.GrowthTargetSpec | src/hotspot/share/utilities/resizeableResourceHash.hpp:119-131 | growth happens exactly when `size < max_size` and `entries / size > load_factor` (integer division); the target is the smaller of `calculate_resize`'s choice and `max_size`; with a non-negative load factor it is larger than the old size |
| GrowthPolicy.NoGrowthAtCap | src/hotspot/share/utilities/resizeableResourceHash.hpp:120-123 | at or above the cap, `maybe_grow` never grows |
| GrowthPolicy.GrowthExamples | src/hotspot/share/utilities/resizeableResourceHash.hpp:124-125 | with 107 buckets and load factor 8: 857 and 962 entries do not grow; 963 entries grow to 2017, or to the cap 1500 when that is lower |
| GrowthPolicy.SizeAfterCapped | src/hotspot/share/utilities/resizeableResourceHash.hpp:119-131 | for any series of `maybe_grow` calls, a table starting at or below `max_size` never exceeds it |
| ResizeableHash.ResizeableResourceHashtable.MaybeGrow | src/hotspot/share/utilities/resizeableResourceHash.hpp:119-131 | with defaults load factor 8 and small sizes, reports growth exactly as `GrowthTarget` decides; when it grows, the new size is the target and the buckets are the rehash of the old ones; when it does not, the table is untouched; the cap is kept and the entry count is unchanged |
| ResizeableHash.ResizeableResourceHashtable.Resize | src/hotspot/share/utilities/resizeableResourceHash.hpp:133-158 | the new size is `new_size`; the new fresh array holds exactly the rehash of the old buckets; the old array is logged as freed only in the C-heap regime; every node sits in bucket `hash % new_size` and the multiset of nodes is unchanged |
| Rehashing.Push | src/hotspot/share/utilities/resizeableResourceHash.hpp:142-146 | linking one node in keeps the bucket count |
| Rehashing.Relink | src/hotspot/share/utilities/resizeableResourceHash.hpp:139-149 | relinking one chain keeps the bucket count |
| Rehashing.RelinkAll | src/hotspot/share/utilities/resizeableResourceHash.hpp:137-151 | relinking every bucket keeps the bucket count |
| Rehashing.Rehash | src/hotspot/share/utilities/resizeableResourceHash.hpp:133-151 | the rehashed table has exactly `new_size` buckets |
| Rehashing.PushBag | src/hotspot/share/utilities/resizeableResourceHash.hpp:145-146 | linking a node in adds exactly that node to the multiset |
| Rehashing.RelinkBag | src/hotspot/share/utilities/resizeableResourceHash.hpp:139-149 | relinking a chain adds exactly the chain's nodes |
| Rehashing.RelinkAllBag | src/hotspot/share/utilities/resizeableResourceHash.hpp:137-151 | relinking every bucket adds exactly the old table's nodes |
| Rehashing.RehashPreservesNodes | src/hotspot/share/utilities/resizeableResourceHash.hpp:137-151 | no node is lost, duplicated or added, and the entry count is unchanged |
| Rehashing.PushPlaced | src/hotspot/share/utilities/resizeableResourceHash.hpp:142-146 | linking a node at the head of bucket `hash % n` keeps every node in its own bucket |
| Rehashing.RelinkPlaced | src/hotspot/share/utilities/resizeableResourceHash.hpp:140-149 | relinking a chain keeps every node in bucket `hash % n` |
| Rehashing.RelinkAllPlaced | src/hotspot/share/utilities/resizeableResourceHash.hpp:137-151 | relinking every bucket keeps every node in bucket `hash % n` |
| Rehashing.RehashPlaced | src/hotspot/share/utilities/resizeableResourceHash.hpp:142-146 | after a rehash into `n` buckets, every node lies in bucket `hash % n` |
| Rehashing.RehashMembership | src/hotspot/share/utilities/resizeableResourceHash.hpp:137-151 | a node is in the new table exactly when it was in the old one, and then in bucket `hash % n` |
| Rehashing.RehashFiveToThree | src/hotspot/share/utilities/resizeableResourceHash.hpp:142-146 | going from 5 to 3 buckets, nodes with hashes 3 and 8 land in buckets 0 and 2 |
| ResizeableHash.ResizeableResourceHashtable.Verify | src/hotspot/share/utilities/resizeableResourceHash.hpp:161-179 | returns the longest chain length: no chain is longer, and some chain has that length; it is 0 exactly when the table holds no node |

## Left out

- The base table's insert, lookup, remove and iteration, and its hash and equality defaults, are not part of this model. Its `number_of_entries()` is derived from the chains instead of read from a counter.
- Memory management is left out: the C-heap and resource-area allocators, `MemTag` accounting and allocation failure. Freeing has no observable effect. The ghost log `freed` records which arrays the C-heap regime releases. The destructor, which frees the current array in the C-heap regime, is left out.
- Raw `_next` pointers are left out. A chain is a sequence, and relinking is prepending to a sequence. In the source, relinking rewrites the old chains' links; in the model the old array's contents stay as they were.
- The `#ifdef ASSERT` guard on `verify` is left out: the method is always present.
- `Storage.Node`'s `hash` is an unbounded natural number rather than an unsigned 32-bit value. The modulo is the same for every value the source can hold.
- ResizeableHash.ResizeableResourceHashtable.CalculateResize: requires at most `0x3fffffff` entries instead of modelling the signed 32-bit overflow of `2 * number_of_entries()`.
- ResizeableHash.ResizeableResourceHashtable.MaybeGrow: requires at most `0x3fffffff` entries for the same reason. It also requires a non-zero table size whenever the table is below its cap, because the source divides by the size in that case.
