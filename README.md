# Count-min sketch and the CPC `u32_table`, modelled in Dafny

This project models two pieces of the DataSketches C++ library.

**The count-min frequency sketch** (`count_min_sketch<T>`). The sketch is a
flat, row-major table of `num_hashes * num_buckets` counters plus a running
total weight.

- An item is hashed once with MurmurHash3_x64_128 into two 64-bit halves
  `h1` and `h2`.
- Row `i` then uses the running double hash `h1 + 0*h2 + 1*h2 + ... + i*h2`,
  computed on `uint64_t`, modulo `num_buckets`.
- `update` adds the weight to the total and to the item's cell in every row.
- `get_estimate` and `get_lower_bound` return the least of the item's cells.
- `merge` adds another sketch of the same configuration cell by cell.

The model is a class `CountMin.CountMinSketch` whose array of counters is
updated in place. Its ghost field `History` is the stream of weighted items
the sketch summarises. The invariant `Valid()` states two things:

- the table is what ingesting that stream into a zeroed table gives
  (`CountMinSpec.Ingest`);
- the total is the sum of the stream's weights.

The properties proved on top of this:

- every location is in bounds, one per row, and no two coincide;
- the wrap-around of the running hash is harmless: each row's hash is the
  unbounded running sum modulo 2^64;
- an update touches exactly one cell per row;
- the estimate is the minimum of the item's cells and never undercounts when
  weights are non-negative;
- merging two sketches gives the table of the concatenated stream, so merge
  commutes.

**The CPC `u32_table`.** This is an open-addressed hash table of 32-bit
items in `2^lg_size` slots. In this model the slot value `0xFFFFFFFF` marks
a free slot; that marker is a choice of the model (see "Left out").

- `maybe_insert` adds an item if it is new. When the load then exceeds 3/4,
  the table is rebuilt at twice the size.
- `maybe_delete` removes an item if it is present. When the load then falls
  below 1/4, the table is rebuilt at half the size, but in this model never
  below 4 slots.
- `unwrapping_get_items` lists every item once.
- The static `merge` writes the two-pointer merge of two ranges into a third
  array.

The model is a class `U32Table.U32Table` whose slot array and counts are
fields. Its ghost field `Contents` is the set of stored items.
`U32TableSpec` holds the probe invariant and proves it on values: every
stored item sits at the end of an unbroken run of occupied slots starting at
its home slot. `SortedMerge` is the merge on sequences, with proofs that it:

- is a permutation of its inputs;
- keeps ascending runs ascending;
- merges two strictly ascending, disjoint runs into their strictly ascending
  union.

The header `cpc/include/u32_table.hpp` declares the class; its method bodies,
in `u32_table_impl.hpp`, are not part of this model. The free-slot marker and
the probe and delete strategy are therefore choices made by this model (see
"Left out").

## Model

| member | source | states |
|---|---|---|
| `CountMin.CountMinSketch.constructor` | count/include/count_min_impl.hpp:9-15 | requires `num_buckets >= 3`; the table has `num_hashes * num_buckets` cells, all zero, the configuration is stored, the total weight is 0, and the invariant ties the table to the empty stream |
| `CountMin.CountMinSketch.GetNumHashes` | count/include/count_min_impl.hpp:17-20 | returns the stored `num_hashes` |
| `CountMin.CountMinSketch.GetNumBuckets` | count/include/count_min_impl.hpp:22-25 | returns the stored `num_buckets` |
| `CountMin.CountMinSketch.GetSeed` | count/include/count_min_impl.hpp:27-30 | returns the stored `seed` |
| `CountMin.CountMinSketch.GetConfig` | count/include/count_min_impl.hpp:37-42 | the configuration vector has 3 entries: `num_hashes`, `num_buckets`, `seed` |
| `CountMin.CountMinSketch.GetSketch` | count/include/count_min_impl.hpp:32-35 | the copy has `num_hashes * num_buckets` cells and is the ingestion of the whole stream into a zeroed table |
| `CountMin.CountMinSketch.GetTotalWeight` | count/include/count_min_impl.hpp:49-52 | the total weight is the sum of every weight of the stream |
| `CountMin.CountMinSketch.GetHashes` | count/include/count_min_impl.hpp:83-105 | the loop returns the item's locations under the running double hash; it returns one location per row, location `i` in `[i*num_buckets, (i+1)*num_buckets)`, all in bounds and pairwise distinct |
| `CountMinSpec.LocationsOnePerRow` | count/include/count_min_impl.hpp:91-103 | for any hash: `num_hashes` locations, the `i`-th inside row `i`, hence inside the table and pairwise distinct |
| `CountMinSpec.RowHashClosedForm` | count/include/count_min_impl.hpp:96-98 | the `uint64_t` running hash of row `i` equals `h1 + 0*h2 + ... + i*h2` computed without bound, reduced modulo 2^64 |
| `CountMin.CountMinSketch.Update` | count/include/count_min_impl.hpp:153-165 | adds the weight to the total and to each of the item's locations; the new table is the old one with the item added, and the stream grows by this item |
| `CountMin.CountMinSketch.AddToCells` | count/include/count_min_impl.hpp:161-164 | the loop adds the weight to exactly the given distinct cells, and no other cell changes |
| `CountMinSpec.UpdateTouchesOneCellPerRow` | count/include/count_min_impl.hpp:159-164 | within each row an update changes only the item's cell, by the weight; every other cell of the row keeps its value |
| `CountMin.CountMinSketch.UpdateU64` | count/include/count_min_impl.hpp:130-133 | an integer item is updated as its 8 bytes, with the given weight |
| `CountMin.CountMinSketch.UpdateU64Unit` | count/include/count_min_impl.hpp:135-139 | an integer item is updated as its 8 bytes, with weight 1 |
| `CountMin.CountMinSketch.UpdateString` | count/include/count_min_impl.hpp:141-145 | the empty string changes neither the table, the total nor the stream; any other string is updated with the given weight |
| `CountMin.CountMinSketch.UpdateStringUnit` | count/include/count_min_impl.hpp:147-151 | the empty string changes nothing; any other string is updated with weight 1 |
| `CountMin.CountMinSketch.GetEstimate` | count/include/count_min_impl.hpp:116-128 | the estimate is at most every location's cell and equal to one of them; with non-negative weights it is at least the item's true weight |
| `CountMinSpec.MinOf` | count/include/count_min_impl.hpp:126 | `*std::min_element`: the result is an element and no element is smaller |
| `CountMinSpec.EstimateIsMinimumCell` | count/include/count_min_impl.hpp:121-126 | the estimate of any table is at most each of the item's cells and equal to one of them |
| `CountMinSpec.EstimateNeverUndercounts` | count/include/count_min_impl.hpp:116-128 | with non-negative weights, the estimate from the ingested stream is at least the item's true cumulative weight |
| `CountMinSpec.CellsAtLeastTrueWeight` | count/include/count_min_impl.hpp:159-164 | with non-negative weights, every one of an item's cells gains at least the item's true weight over the stream |
| `CountMin.CountMinSketch.GetEstimateU64` | count/include/count_min_impl.hpp:107-108 | the estimate of an integer item is the estimate of its 8 bytes |
| `CountMin.CountMinSketch.GetEstimateString` | count/include/count_min_impl.hpp:110-114 | 0 for the empty string without reading the table, the estimate otherwise |
| `CountMin.CountMinSketch.GetLowerBound` | count/include/count_min_impl.hpp:195-201 | the lower bound is the estimate, and with non-negative weights it is at least the true weight |
| `CountMin.CountMinSketch.GetLowerBoundU64` | count/include/count_min_impl.hpp:186-187 | the lower bound of an integer item is the estimate of its 8 bytes |
| `CountMin.CountMinSketch.GetLowerBoundString` | count/include/count_min_impl.hpp:189-193 | 0 for the empty string, the estimate otherwise |
| `CountMin.CountMinSketch.Merge` | count/include/count_min_impl.hpp:203-221 | self-merge and a different configuration fail and leave the receiver unchanged; otherwise every cell becomes the sum of both cells, the totals add up, the receiver summarises both streams, and the argument is unchanged |
| `CountMinSpec.MergeIsIngestingBoth` | count/include/count_min_impl.hpp:217-221 | the cell-wise sum of two ingested tables is the table of the concatenated stream |
| `CountMinSpec.MergeCommutes` | count/include/count_min_impl.hpp:217-220 | merging A into B and B into A give the same table |
| `CountMinSpec.IngestFromAnyTable` | count/include/count_min_impl.hpp:218-220 | ingesting a stream into any table adds the same amount as ingesting it into a zeroed table |
| `CountMinSpec.IngestAppend` | count/include/count_min_impl.hpp:159-164 | ingesting two streams one after the other is ingesting their concatenation |
| `CountMinSpec.TotalWeightAppend` | count/include/count_min_impl.hpp:221 | the total weight of a concatenated stream is the sum of both totals |
| `U32Table.U32Table.constructor` | cpc/include/u32_table.hpp:43 | requires `lg_size` at least the model's floor of 2; the table has `2^lg_size` slots, all free, and no items, and it keeps `num_valid_bits` |
| `U32Table.U32Table.GetNumItems` | cpc/include/u32_table.hpp:45 | `num_items` is the number of distinct stored items, and it is below the slot count |
| `U32Table.U32Table.GetSlots` | cpc/include/u32_table.hpp:46 | there are `2^lg_size` slot words, and the non-free ones are exactly the stored items |
| `U32Table.U32Table.GetLgSize` | cpc/include/u32_table.hpp:47 | the slot array has `2^lg_size` slots, with `lg_size` at least the floor |
| `U32Table.U32Table.Clear` | cpc/include/u32_table.hpp:48 | every slot becomes free, nothing is stored, and the size is kept |
| `U32Table.U32Table.MaybeInsert` | cpc/include/u32_table.hpp:50-51 | returns true exactly when the item is not the free-slot marker `0xFFFFFFFF` and was not stored; then the item is added, `num_items` grows by 1, and the size doubles when the load now exceeds 3/4; otherwise nothing changes |
| `U32Table.U32Table.MaybeDelete` | cpc/include/u32_table.hpp:52-53 | returns true exactly when the item was stored; then it is removed, `num_items` drops by 1, and the size halves when the load is now below 1/4 and the size is above the floor; otherwise nothing changes |
| `U32Table.U32Table.UnwrappingGetItems` | cpc/include/u32_table.hpp:57 | every stored item exactly once: `num_items` entries, pairwise distinct, holding exactly the contents |
| `U32Table.U32Table.Merge` | cpc/include/u32_table.hpp:59-63 | writes `length_a + length_b` words from `start_c`: the two-pointer merge of the two input ranges; no other cell of `arr_c` changes |
| `U32Table.U32Table.Lookup` | cpc/include/u32_table.hpp:72 | the probe ends at the item or at a free slot after a full run without it; it ends at the item exactly when the item is stored |
| `U32Table.U32Table.MustInsert` | cpc/include/u32_table.hpp:73 | an absent item is stored, the probe invariant is kept, and exactly that item is added |
| `U32Table.U32Table.Rebuild` | cpc/include/u32_table.hpp:74 | a fresh array of `2^new_lg_size` slots holds exactly the same items, and the probe invariant holds in it |
| `U32Table.UpsizeFits` | cpc/include/u32_table.hpp:32-33 | after the insertion that crosses 3/4, the doubled table has a free slot and is at most 3/4 full |
| `U32Table.DownsizeFits` | cpc/include/u32_table.hpp:35-36 | below 1/4 load, the halved table has a free slot and is at most 3/4 full |
| `U32TableSpec.ProbeStopDecides` | cpc/include/u32_table.hpp:72 | in a well-formed slot array, where a probe stops decides membership: it stops at the item exactly when the item is stored |
| `U32TableSpec.PlaceAtProbeStop` | cpc/include/u32_table.hpp:73 | writing an absent item into the free slot where its probe stopped keeps the array well formed and adds exactly that item |
| `U32TableSpec.ClearedRunProbeInvariant` | cpc/include/u32_table.hpp:52-53 | freeing a slot and the run of occupied slots after it leaves every remaining item reachable from its home slot |
| `U32TableSpec.ClearedRunItems` | cpc/include/u32_table.hpp:52-53 | after freeing a slot and its run, the items split into those left, the deleted one and the run's items; no item is in two parts and the count drops by one |
| `U32TableSpec.FreeSlotExists` | cpc/include/u32_table.hpp:32-33 | a duplicate-free slot array storing fewer items than slots has a free slot, so every probe stops |
| `U32TableSpec.NonEmptyContents` | cpc/include/u32_table.hpp:57 | the occupied slots read in order give each stored item exactly once |
| `U32TableSpec.RotatedSameItems` | cpc/include/u32_table.hpp:57 | reading the slot array circularly from any slot sees the same items, still without repeats |
| `SortedMerge.MergeIsPermutation` | cpc/include/u32_table.hpp:59-63 | the merge holds every input word as often as the two inputs together, and has length `length_a + length_b` |
| `SortedMerge.MergeSorted` | cpc/include/u32_table.hpp:59-63 | merging two ascending runs gives an ascending run |
| `SortedMerge.MergeDisjointIsUnion` | cpc/include/u32_table.hpp:59-63 | two strictly ascending runs with no common word merge into a strictly ascending run of exactly their union |
| `SortedMerge.MergeMembers` | cpc/include/u32_table.hpp:59-63 | a word is in the merge exactly when it is in one of the inputs |

## Left out

- MurmurHash3_x64_128 is declared as a fixed but unspecified function (`CountMinSpec.Murmur3`), and every property holds for any hash. Its code is not part of this model.
- The `std::cout` debug output in `get_hashes` and in `update(uint64_t)` has no effect on state and is left out.
- `get_relative_error`, `get_upper_bound`, `suggest_num_buckets` and `suggest_num_hashes` compute in floating point (`exp`, `log`, `ceil`) and are left out. `get_upper_bound` of the empty string returns 0 without any floating point; that guard is not modelled separately either.
- The counter type `T` is modelled as unbounded `int`. An integral `T` that overflows, and a floating-point `T`, are not modelled.
- The flat locations are unbounded integers. `i * num_buckets + bucket` is computed on `uint64_t` in the source; it is below `num_hashes * num_buckets`, so it does not wrap as long as that product is below 2^64 (see the constructor line below).
- The `auto i = 0` (`int`) counter of `merge`'s loop would overflow for tables of 2^31 cells or more: the body still runs at `i == INT_MAX`, and the `++i` after it is signed overflow (count_min_impl.hpp:218). The model's counter is unbounded.
- `CountMin.CountMinSketch.constructor`: the table has exactly `num_hashes * num_buckets` cells, computed without bound. The source computes that product on `uint64_t` (count_min_impl.hpp:13), so when it reaches 2^64 it wraps, `resize` gets the wrapped, smaller size (2^32 hashes of 2^32 buckets give size 0), and the later `sketch[hash_location] += weight` writes out of bounds (undefined behaviour). The model does not reproduce that wrap.
- `CountMin.CountMinSketch.constructor`: `total_weight` is set to 0. The constructor at count_min_impl.hpp:9-15 does not initialise it, and the header declaring the field is not part of this model.
- `CountMin.CountMinSketch.GetEstimate`: requires `num_hashes > 0`. With no rows, `*std::min_element` of an empty vector is undefined behaviour, so the source gives no answer to model. The same applies to `GetEstimateU64`, `GetLowerBound` and `GetLowerBoundU64`, and to the non-empty strings of `GetEstimateString` and `GetLowerBoundString`.
- `CountMin.CountMinSketch.Merge`: requires that two different sketches do not share their counter array, as C++ vectors never do. A failed merge is returned as `Failed(...)` instead of throwing `std::invalid_argument`.
- The byte layout of `update(uint64_t)` is a parameter: `Words.U64Bytes` gives 8 bytes in little-endian order. The hash is opaque, so nothing depends on that order.
- The `u32_table` method bodies are not part of this model. The header gives only the declarations and their comments, so these behaviours are choices of this model:
  - the home slot is `item mod 2^lg_size`, and probing is linear with wrap-around;
  - a delete frees the item's slot, takes out the whole run of occupied slots after it, then inserts those items again;
  - export starts after a free slot and goes once round the array;
  - the word `0xFFFFFFFF` marks a free slot, so it cannot itself be stored.

  The library's own choices of these may differ, and so may the exact export order. The contracts state only what the header promises: contents, counts and sizes.
- `U32Table.U32Table.MaybeInsert`: the free-slot marker `0xFFFFFFFF` cannot be stored, so inserting it returns false and changes nothing. The header does not say how that word is handled.
- `num_valid_bits` is stored and kept by every operation, but no probe uses it in this model.
- The floor of 4 slots (`MIN_LG_SIZE = 2`) is a choice of this model. The header names no floor.
- `U32Table.U32Table.constructor`: requires `lg_size >= 2` because of the model's 4-slot floor. The header's `u32_table(uint8_t lg_size, uint8_t num_valid_bits)` states no such limit, so tables of 1 or 2 slots are not modelled.
- The default constructor `u32_table()` and `make_from_pairs` are left out. The latter's sizing from `lg_k` lives in implementation code that is not part of this model.
- The allocator parameter `A` and `vector_u32` are library plumbing. Slots are a Dafny `array<u32>`.
- `U32Table.U32Table.Merge`: requires that `arr_c` is a different array from `arr_a` and `arr_b`; overlapping ranges are not modelled. The header calls the first two arrays inputs and the third the output, and gives no output length. The model therefore writes exactly `length_a + length_b` words, taking from `arr_b` on ties, and does not collapse equal words. For strictly ascending, disjoint inputs, `SortedMerge.MergeDisjointIsUnion` shows that the output is their union without repeats.
- Inputs and outputs of `size_t` and `uint8_t` type (`lg_size`, `num_items`, indices) are modelled as `nat`. Their bounds are not modelled.
