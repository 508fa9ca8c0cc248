# Verified models of the hash tables, filters and readers

Dafny models of the data structures and algorithms at the core of this repository, with proofs of
what they promise. The project verifies with `dafny verify dfyconfig.toml`.

What is modelled:

- **Three open-addressing hash tables** (hopscotch, Robin Hood, sparse), each a class whose methods
  change buckets and counters in place as the C++ does. A ghost finite map is the abstract state;
  every operation is specified on it, every reachable table satisfies the layout invariant, and every
  run of operations answers as the finite map does, up to the length errors, whose conditions are
  stated; within a bound on the number of elements there are none. Keys have an arbitrary type with
  equality, the hash is an arbitrary function, load factors are exact reals, bucket counts are powers
  of two.
- **The CSV reader**: the worker handshake as a state machine over all interleavings; the three-block
  sliding window on top of it, with an arbitrary fair scheduler of the worker, against the lines of
  the input; the field splitter in the window's own buffer; and the round trip of whole files with
  fields in quotes, as section 2 of RFC 4180 writes them (without line breaks inside fields), or bare,
  and padded with trim characters.
- **Entropy-driven position selection**, in exact collision sums, of which the Renyi entropy is a
  decreasing function.
- **Four Bloom filters** and **the portable 64 by 64 bit multiplication** of wyhash.

Machine words are naturals read bit by bit (`Bits`), with wrap-around written out where it matters.
Loops are methods proved against functions on sequences; the properties are lemmas about those
functions and invariants the methods keep.

Layout: `Bits`, `GrowthPolicy`, `LoadFactor`, `FiniteFacts`, `Options`, `MapRuns`, `RunBounds` are shared;
`Hopscotch*` with `MapCells`, `Robin*`, `Sparse*` with `PopCount*` and `ProbeSequence` are the
tables; `Csv*` the reader; `Collisions` and `EntropySelector` the selector; `Bloom*` and `LibBloom`
the filters; `WyMum` the multiplication.

Results that differ from what a caller might expect:

- Range erase of the Robin Hood table stops compacting at the end of the array, so entries that wrap
  around may become unreachable. `RobinErase.EraseRange` proves exactly when: `Restores` is a test on
  the buckets before the call.
- `find_guaranteed` may return another key's entry for an absent key, when one stored hash matches on
  the probe path; and since it keeps bucket indices in an `int` (tsl/robin_hash.h:1215, 1225), it loses
  entries from bucket 2^31 on. `RobinGuaranteed.AnswersAsFind` is the exact condition.
- The asynchronous reader waits forever if `finish_read` is called after it has reported the end of
  the input, and only then (`CsvAsync.ReturnsIff`, with a run in `CsvAsync.CanWaitForever`); the line
  reader never does so.
- `next_line` looks at `buffer[line_end]` before it compares `line_end` with `data_end`
  (include/csv.h:466), so it may read the first byte of the block that the worker is filling. The
  model reads in the same order; the value read does not matter to the result.
- The sparse table deserialised with `hash_compatible = true` rejects every table of 1 to 63 buckets
  (tsl/sparse_hash.h:2053) and drops the tombstones of arrays without values
  (tsl/sparse_hash.h:594-597), after which keys may not be found. `SparseCompatible.RoundTrip` proves
  exactly when: `AllInUse` is a test on the table before it is written. The next insert rehashes and
  brings the keys back (`SparseCompatible.ReadThenInsert`).
- The hopscotch table can end an insert or a rehash with a length error in the middle of a refill
  (`HopscotchLimits.CanBeInterrupted`); `HopscotchTable.Table.InsertValue` bounds the sizes at which
  this may happen.
- The register-blocked filter tests one bit even with zero hashes, so it has no false negatives
  exactly when it has at least one hash, which its constructor asserts.
- `formPartialString` also reads the chunk just past the last whole one (`<=` at
  include/entropyEstimation/entropy_estimators.hh:111, against the comment above it). The model takes
  what is read there as an arbitrary function of the string, so the results hold for the comment's
  zero as well as for any other value.

## Model

| member | source | states |
|---|---|---|
| `HopscotchBuckets.SetOverflow` | tsl/hopscotch_hash.h:295-302 | the overflow bit alone changes; occupancy and every neighbour bit stay |
| `HopscotchBuckets.Toggle` | tsl/hopscotch_hash.h:312-316 | exactly one neighbour bit flips; occupancy and overflow bits stay |
| `HopscotchBuckets.SetValue` | tsl/hopscotch_hash.h:337-344 | the value is stored and the occupancy bit set; overflow and neighbour bits stay |
| `HopscotchBuckets.RemoveValue` | tsl/hopscotch_hash.h:358-363 | the value is gone and the occupancy bit clear; overflow and neighbour bits stay |
| `HopscotchBuckets.NeighborhoodInfos` | tsl/hopscotch_hash.h:291-293 | bit i of the shifted word is neighbour bit i, for every i |
| `HopscotchBuckets.EditHood` | tsl/hopscotch_hash.h:1388-1395 | storing or removing one value together with one toggle of its home keeps the whole neighbourhood invariant: bit i of bucket h is set exactly when bucket h + i holds a value of home h |
| `HopscotchBuckets.StoredHood` | tsl/hopscotch_hash.h:1522-1534 | insert_in_bucket keeps the neighbourhood invariant |
| `HopscotchBuckets.ErasedHood` | tsl/hopscotch_hash.h:1388-1395 | erase_from_bucket keeps the neighbourhood invariant |
| `HopscotchBuckets.SwappedHood` | tsl/hopscotch_hash.h:1571-1586 | a displacement swap, with its two toggles, keeps the neighbourhood invariant and all overflow flags |
| `HopscotchLoops.FindInBuckets` | tsl/hopscotch_hash.h:1685-1710 | the bitmap scan finds the key exactly when some bucket of the array stores it, and reads occupied buckets only |
| `HopscotchLoops.FindInOverflow` | tsl/hopscotch_hash.h:1714-1720 | the first element with the key, or the end exactly when there is none |
| `HopscotchLoops.FindEmptyBucket` | tsl/hopscotch_hash.h:1505-1514 | the first empty bucket within 12 neighbourhoods, everything before it full; or the array size, with everything up to the limit full |
| `HopscotchLoops.ScanHome` | tsl/hopscotch_hash.h:1567-1591 | the bitmap scan of one home finds its first value that may move to the empty bucket, or shows there is none |
| `HopscotchLoops.SwapEmptyBucketCloser` | tsl/hopscotch_hash.h:1562-1595 | on success the first movable value (by home, then position) moves to the empty bucket, the empty index strictly falls and stays within the neighbourhood, contents, flags and invariant are kept; it fails exactly when no value may move |
| `HopscotchLoops.BringEmptyCloser` | tsl/hopscotch_hash.h:1447-1461 | the displacement loop ends; contents, flags and invariant are kept; either an empty bucket is in the neighbourhood of the home, or all NeighborhoodSize buckets from the home are occupied |
| `HopscotchLoops.WillNeighborhoodChange` | tsl/hopscotch_hash.h:1479-1499 | true exactly when some value of the full neighbourhood gets another home at the next bucket count |
| `HopscotchSteps.StoredSound` | tsl/hopscotch_hash.h:1522-1534 | insert_in_bucket adds exactly the new key to the finite map and keeps bitmaps, occupancy and overflow flags exact |
| `HopscotchSteps.ErasedSound` | tsl/hopscotch_hash.h:1388-1395 | erase_from_bucket removes exactly that key and keeps everything else exact |
| `HopscotchSteps.RearrangedSound` | tsl/hopscotch_hash.h:1562-1595 | displacement changes neither the finite map nor the overflow flags |
| `HopscotchSteps.OverflowSound` | tsl/hopscotch_hash.h:1537-1544 | insert_in_overflow adds exactly the new key; afterwards every overflow flag is set exactly when some overflow element has that home |
| `HopscotchSteps.AnySpill` | tsl/hopscotch_hash.h:1370-1377 | the flag re-check loop: whether some overflow element has that home |
| `HopscotchSteps.EraseFromOverflow` | tsl/hopscotch_hash.h:1361-1381 | the element leaves the list and the map, and the flag of its home is cleared exactly when no other element belongs there |
| `HopscotchSteps.MarkOverflow` | tsl/hopscotch_hash.h:1259-1267 | after the overflow list moves to empty buckets, flags are exact and the table stands for the list |
| `HopscotchSteps.SizeIsSum` | tsl/hopscotch_hash.h:1522-1544 | the number of keys is the number of occupied buckets plus the length of the overflow list |
| `HopscotchSteps.Located` | tsl/hopscotch_hash.h:1643-1678 | a key of the map is in a bucket, or in the overflow list behind a set flag, never in both |
| `HopscotchTable.Table.Create` | tsl/hopscotch_hash.h:596-631 | an empty table of the least power of two that is at least the request, with clamped load factor; length_error exactly when that is above the maximum bucket count |
| `HopscotchTable.Table.Find` | tsl/hopscotch_hash.h:1657-1678 | a position holding the key and its value when the finite map has it, the end otherwise; also for a table without buckets |
| `HopscotchTable.Table.EraseKey` | tsl/hopscotch_hash.h:988-1009 | 1 and the key is gone from the finite map, or 0 and nothing changed |
| `HopscotchTable.Table.EraseAt` | tsl/hopscotch_hash.h:955-968 | erase by iterator, from its bucket or from the overflow list: exactly the key there is gone |
| `HopscotchTable.Table.GrowIfLoaded` | tsl/hopscotch_hash.h:1442-1445 | rehashes to at least the next bucket count exactly when the values in buckets have reached the maximum load, same finite map; length_error exactly when the buckets then asked for are too many, and nothing changed; a nested rehash fails only when growth factor times (10 * size + 9) exceeds the maximum |
| `HopscotchTable.Table.TryPlace` | tsl/hopscotch_hash.h:1447-1467 | the key goes to a bucket of its neighbourhood; only when the neighbourhood is full does it go to the overflow list (below the minimum load, or when a rehash would change no home there) or is a rehash called for (in all other cases); length_error exactly when that question needs a next bucket count above 2^63; nothing else changes |
| `HopscotchTable.Table.InsertValue` | tsl/hopscotch_hash.h:1441-1473 | insert with rehash and retry, nested rehashes included, terminates, adds exactly the new key and returns its position; every bucket count asked for on the way is at most growth factor times (10 * size + 9), so it fails only when that exceeds the maximum bucket count; a first growth that is too large leaves the table untouched; while growing would move every element, the overflow list does not grow past the minimum threshold |
| `HopscotchTable.Table.PutInBucket` | tsl/hopscotch_hash.h:1522-1534 | the table with the value in that bucket, valid again |
| `HopscotchTable.Table.PutInOverflow` | tsl/hopscotch_hash.h:1537-1544 | the table with the value at the end of the overflow list, valid again |
| `HopscotchTable.Table.GrowTo` | tsl/hopscotch_hash.h:1189-1192 | the same finite map in at least the requested number of buckets; length_error exactly when the rounded request is above the maximum, and nothing changed; interrupted by a nested length_error only when the growth bound exceeds the maximum |
| `HopscotchTable.Table.RehashImpl` | tsl/hopscotch_hash.h:1256-1318 | moving the overflow list and re-inserting every value into a new table, which may itself rehash, terminates and yields the same finite map; it fails only when the growth bound exceeds the maximum bucket count |
| `HopscotchTable.Table.NextIsMore` | tsl/hopscotch_hash.h:1441-1445 | the next bucket count is a power of two, at least twice as large, and stays within the growth bound |
| `HopscotchTable.Table.GrowthStep` | tsl/hopscotch_hash.h:1183-1187 | a rehash only happens when bucket_count <= 10 * size + 9, and then at least doubles it; what it asks for stays within the growth bound |
| `HopscotchTable.Table.Insert` | tsl/hopscotch_hash.h:1425-1438 | a present key is left as it is, a new key is added, and the returned position holds the key; it succeeds for every new key when the growth bound of size + 1 is within the maximum bucket count, and below the load thresholds in any case; a first growth that is too large gives length_error and leaves the table untouched |
| `HopscotchTable.Table.InsertOrAssign` | tsl/hopscotch_hash.h:1400-1407 | afterwards the key has the value and every other key is unchanged; length_error as for insert |
| `HopscotchTable.Table.Clear` | tsl/hopscotch_hash.h:804-811 | the empty map, the same number of buckets |
| `HopscotchTable.Table.Rehash` | tsl/hopscotch_hash.h:1189-1192 | the same finite map in at least count buckets; length_error exactly when the rounded request is too large, and nothing changed; interrupted only when the growth bound exceeds the maximum bucket count; when there are as many buckets as asked for and growing would move every element, the overflow list is no longer than before or than the minimum threshold |
| `HopscotchLimits.CanBeInterrupted` | tsl/hopscotch_hash.h:1256-1318 | a valid table of seven elements whose rehash to the maximum of 16 buckets is interrupted by a nested length_error |
| `HopscotchTable.Table.Reserve` | tsl/hopscotch_hash.h:1194-1196 | enough buckets for count elements at the maximum load, same finite map; errors as for rehash |
| `HopscotchTable.Table.SetMaxLoad` | tsl/hopscotch_hash.h:1183-1187 | the load factor asked for, or the limit 0.1 or 0.95 beyond it, and both thresholds; same finite map |
| `HopscotchRuns.Do` | tsl/hopscotch_hash.h:804-1009 | one operation, erase by iterator included, answers and acts as the finite map does; which operations must end in length_error and which may, in terms of the load factor, the number of elements and the maximum bucket count; a refused one changes nothing |
| `HopscotchRuns.Run` | tsl/hopscotch_hash.h:804-1009 | every run of operations answers as the finite map does, except for refused operations, each of which the trace shows to be allowed to be refused; unless a rehash is interrupted the run ends in a valid table standing for that map |
| `HopscotchRuns.RunBounded` | tsl/hopscotch_hash.h:804-1009 | when growth factor times (10 * elements + 10) fits, no operation of the run is refused or interrupted, every answer is the one of the finite map and so is the table at the end |
| `HopscotchRuns.OneFits` | tsl/hopscotch_hash.h:1189-1196 | within that bound no single operation can be refused, nested rehashes included |
| `HopscotchRuns.ValidMeans` | tsl/hopscotch_hash.h:140-154 | in every valid table: neighbour bit i of bucket h iff bucket h + i stores a value of home h; occupancy bit iff a value is stored; overflow flag iff some overflow element has that home; count = occupied + overflow |
| `GrowthPolicy.RoundUpToPowerOfTwo` | tsl/robin_growth_policy.h:139-154 | the bit-smearing loop returns the least power of two that is at least the request, for every request up to 2^63 |
| `GrowthPolicy.PowerOfTwoTest` | tsl/robin_growth_policy.h:156-158 | value & (value - 1) == 0 (and value != 0) exactly for the powers of two |
| `GrowthPolicy.BucketForHash` | tsl/robin_growth_policy.h:107-109 | masking is the remainder modulo the bucket count |
| `GrowthPolicy.NextIndex` | tsl/robin_hash.h:1162-1166 | the masked successor walks around the ring of buckets |
| `GrowthPolicy.TruncationKeepsBucket` | tsl/robin_hash.h:396-408 | truncating a hash to 2^b does not change its bucket among 2^a buckets when a <= b |
| `RunBounds.NextFits` | tsl/robin_growth_policy.h:111-121 | a table that grows has reached its threshold, so the next bucket count is within growth factor times (10 * elements + 10) |
| `RunBounds.ReserveFits` | tsl/robin_hash.h:1115-1122 | so are the requests of rehash and reserve, when what the user asks for is itself not too large |
| `LoadFactor.Threshold` | tsl/robin_hash.h:1109-1113 | the load threshold is the floor of buckets * factor and leaves at least one bucket |
| `LoadFactor.Clamp` | tsl/robin_hash.h:1104-1113 | the value itself within the limits, the nearer limit outside them |
| `LoadFactor.BucketsFor` | tsl/robin_hash.h:1115-1122 | the least bucket count that keeps count elements within the load factor |
| `LoadFactor.MoreIsEnough` | tsl/robin_hash.h:1120-1122 | any larger bucket count is enough as well |
| `LoadFactor.EnoughIsThreshold` | tsl/robin_hash.h:1109-1122 | buckets within the load factor for count elements have a threshold of at least count |
| `RobinBuckets.EarlyExit` | tsl/robin_hash.h:1184-1200 | once the probe distance exceeds the distance in the bucket, the key is nowhere in the table |
| `RobinBuckets.PlaceKeepsOrdered` | tsl/robin_hash.h:1340-1365 | putting an entry of larger distance into a bucket keeps dist(next) <= dist + 1 around the ring |
| `RobinLoops.Probe` | tsl/robin_hash.h:1184-1200 | the early-exit probe finds the key exactly when the table stores it; otherwise it stops where the key may be inserted; terminates |
| `RobinLoops.ProbeAgain` | tsl/robin_hash.h:1289-1297 | the probe after a rehash stops where a new key may be inserted |
| `RobinLoops.SettleSound` | tsl/robin_hash.h:1340-1365 | a displacement walk with an empty bucket ahead keeps exact distances, the probe order, distinct keys and the finite map at every step of the way |
| `RobinLoops.Displace` | tsl/robin_hash.h:1340-1365 | the displacement loop terminates and computes the settling walk, with the new entry in the stolen bucket; it asks for growth exactly when a displaced entry steals a bucket at distance 4096 or more |
| `RobinLoops.CrowdsMeans` | tsl/robin_hash.h:1340-1365 | growth is asked for exactly when the insertion leaves some entry other than the new one in a bucket it took from another, at a distance of 4096 or more |
| `RobinTable.FarMeansMany` | tsl/robin_hash.h:1184-1200 | an entry at distance d has more than d elements in the table |
| `RobinTable.CrowdsMany` | tsl/robin_hash.h:1340-1365 | growth on displacement is asked for only in tables with more than 4096 elements |
| `RobinLoops.Place` | tsl/robin_hash.h:1300-1307 | the new entry ends in its stop bucket, by the empty bucket or by stealing, with the settling walk as the result |
| `RobinLoops.InsertSound` | tsl/robin_hash.h:1300-1307 | inserting at a stop position adds exactly the new key and keeps the probe invariant |
| `RobinLoops.SettleFrom` | tsl/robin_hash.h:1400-1417 | insert_value_on_rehash terminates and computes the settling walk |
| `RobinLoops.Fill` | tsl/robin_hash.h:1368-1387 | re-inserting every entry yields a table for the same finite map, equal bucket for bucket to filling with full hashes |
| `RobinLoops.StoredHashSuffices` | tsl/robin_hash.h:396-408 | for at most 2^32 buckets the stored 32 bits give the same bucket and the same stored hash as the full hash |
| `RobinLoops.RehashFromStoredHash` | tsl/robin_hash.h:1368-1417 | rehash from stored hashes builds, bucket for bucket, the table built from full hashes |
| `RobinErase.EraseFromBucket` | tsl/robin_hash.h:1245-1269 | backward-shift deletion terminates, removes exactly that key and restores exact distances and the probe order |
| `RobinErase.ClearRange` | tsl/robin_hash.h:853-864 | the entries of the range, and no others, leave the finite map |
| `RobinErase.EraseRange` | tsl/robin_hash.h:847-901 | exactly the range is removed, distances stay exact, the entry at last is at the returned position; the probe order is restored, and every remaining key stays findable, if and only if a condition on the table before the call holds |
| `RobinErase.OrderedFindable` | tsl/robin_hash.h:1184-1200 | under the probe order every stored key is reached by the early-exit probe |
| `RobinErase.WrappedEntryLost` | tsl/robin_hash.h:879-893 | an entry in bucket 0 away from its home, behind an empty last bucket, is not found |
| `RobinErase.FindableOrLost` | tsl/robin_hash.h:847-901 | after a range erase, all keys are findable exactly when the probe order holds |
| `RobinGuaranteed.PresentIsCandidate` | tsl/robin_hash.h:1208-1243 | the bucket of a present key is among those whose stored hash matches on the probe path |
| `RobinGuaranteed.CandidateIff` | tsl/robin_hash.h:1208-1243 | the matches are the buckets on the probe path whose stored hash is the one of the key, each once |
| `RobinGuaranteed.Collect` | tsl/robin_hash.h:1211-1230 | the scan collects the matching buckets in order, each index as the int it is stored in, or reports eight or more |
| `RobinGuaranteed.FindGuaranteed` | tsl/robin_hash.h:1208-1243 | answers as find if and only if a condition on the buckets holds: eight or more matches; or one, of a present key below bucket 2^31; or several of which those that are read, through the indices as stored, name occupied buckets, and one of them the bucket of the key when it is present; a single match is returned whatever its key |
| `RobinGuaranteed.UpTo32Bits` | tsl/robin_hash.h:1208-1243 | with at most 2^32 buckets that is: the key is present or has not exactly one match, and, up to seven matches, no index that is read or returned is 2^31 or more |
| `RobinGuaranteed.UpTo31Bits` | tsl/robin_hash.h:1208-1243 | with at most 2^31 buckets that is: the key is present or has not exactly one match |
| `RobinTable.Table.Create` | tsl/robin_hash.h:562-592 | an empty table of the least power of two at or above the request, load factors clamped; length_error exactly when that is above the maximum bucket count |
| `RobinTable.Table.Find` | tsl/robin_hash.h:1184-1200 | the bucket of the key with its value when the finite map has it, the end otherwise |
| `RobinTable.Table.FindGuaranteed` | tsl/robin_hash.h:1208-1243 | answers as find if and only if that condition holds; with at most 2^31 buckets, if and only if the key is present or does not have exactly one hash match on its probe path |
| `RobinTable.Table.RehashImpl` | tsl/robin_hash.h:1368-1387 | the same finite map in the rounded number of buckets, filled as with full hashes |
| `RobinTable.Table.RehashOnExtremeLoad` | tsl/robin_hash.h:1428-1446 | grows, shrinks or leaves the buckets exactly as the flags, the threshold and the minimum load say; same finite map; afterwards there is room for one more entry; fails exactly when the count asked for is too large |
| `RobinTable.Table.NextIsMultiple` | tsl/robin_growth_policy.h:111-121 | the next bucket count is the bucket count times the growth factor, or the growth factor for a table without buckets |
| `RobinTable.Table.Insert` | tsl/robin_hash.h:1272-1316 | a present key is left as it is, a new key is added at the returned position; length_error exactly when growth is needed and impossible, and then the finite map is unchanged |
| `RobinTable.Table.PlaceNew` | tsl/robin_hash.h:1300-1315 | the new entry in the table, valid again |
| `RobinTable.Table.InsertOrAssign` | tsl/robin_hash.h:773-781 | afterwards the key has the value and every other key is unchanged |
| `RobinTable.Table.EraseKey` | tsl/robin_hash.h:910-921 | 1 and the key is gone, or 0 and nothing changed |
| `RobinTable.Table.EraseBucket` | tsl/robin_hash.h:1245-1269 | exactly the key of that bucket is gone |
| `RobinTable.Table.EraseAt` | tsl/robin_hash.h:827-841 | the entry is gone and the returned position is the first occupied bucket at or after it |
| `RobinTable.Table.EraseRange` | tsl/robin_hash.h:847-901 | exactly the range is gone; the table is valid again if and only if the checkable condition held before |
| `RobinTable.Table.Clear` | tsl/robin_hash.h:721-733 | the empty map |
| `RobinTable.Table.ClearAndShrink` | tsl/robin_hash.h:1389-1398 | the empty map and no buckets |
| `RobinTable.Table.Rehash` | tsl/robin_hash.h:1115-1118 | the same finite map in at least count buckets, or length_error |
| `RobinTable.Table.Reserve` | tsl/robin_hash.h:1120-1122 | enough buckets for count elements, or length_error |
| `RobinTable.Table.SetMinLoad` | tsl/robin_hash.h:1104-1107 | the minimum load factor asked for, or the limit 0 or 0.15 beyond it |
| `RobinTable.Table.SetMaxLoad` | tsl/robin_hash.h:1109-1113 | the maximum load factor asked for, or the limit 0.2 or 0.95 beyond it, and its threshold |
| `RobinRuns.Do` | tsl/robin_hash.h:721-921 | one operation, range erase, min_load_factor and find_guaranteed included, answers and acts as the finite map does, or ends in length_error exactly when the bucket count it asks for is too large; how it changes bucket count, load factors and growth flags |
| `RobinRuns.EraseBetween` | tsl/robin_hash.h:847-901 | erasing between two iterators removes exactly the keys of the buckets between them, when they are in order and the range passes the restoring condition, and leaves a valid table |
| `RobinRuns.Run` | tsl/robin_hash.h:721-921 | every run of such operations answers as the finite map does, except that an operation ends in length_error exactly when it asks for too many buckets, which the trace of bucket counts, load factors and flags says for every step; it ends in a valid table standing for the map |
| `RobinRuns.RunSmall` | tsl/robin_hash.h:721-921 | in a run of at most 4096 elements with room for growth factor times (10 * elements + 10) buckets nothing is refused, every answer is the one of the finite map and so is the table at the end |
| `RobinRuns.RangeEraseCanLoseKeys` | tsl/robin_hash.h:879-893 | a valid four-bucket table and a range that fails the condition |
| `RobinRuns.GuaranteedCanMislead` | tsl/robin_hash.h:1232-1234 | a valid table and an absent key with exactly one hash match |
| `RobinRuns.GuaranteedCanStray` | tsl/robin_hash.h:1215-1225 | a valid table of 2^32 buckets and a present key that find_guaranteed does not find |
| `PopCountParallel.FallbackIsCount` | tsl/sparse_hash.h:87-101 | the bit-parallel population count of a 64-bit word is its number of set bits |
| `PopCountParallel.PopCountLL` | tsl/sparse_hash.h:179-181 | the count that index_to_offset uses is the number of set bits |
| `PopCount.MaskedCount` | tsl/sparse_hash.h:667-670 | counting the masked word gives the number of set bits below the index |
| `PopCount.RankOrder` | tsl/sparse_hash.h:667-670 | the ranks of two set bits are in the order of their positions, so offsets are distinct |
| `PopCount.RankSetBit` | tsl/sparse_hash.h:511-526 | setting one bit raises the ranks above it by one and leaves those below |
| `SparseArray.IndexToOffset` | tsl/sparse_hash.h:667-670 | the offset of an index, by the bit-parallel count of the masked bitmap, is the number of values before it |
| `SparseArray.OffsetToIndex` | tsl/sparse_hash.h:673-694 | the bit-shifting search inverts index_to_offset on set bits |
| `SparseArray.InsertAtOffset` | tsl/sparse_hash.h:738-788 | the value at its offset, the values from there on moved by one |
| `SparseArray.EraseAtOffset` | tsl/sparse_hash.h:840-849 | the value at the offset is gone, the later ones moved back by one |
| `SparseArray.Set` | tsl/sparse_hash.h:511-526 | as a partial map on 0..63: the index now has the value, every other index is unchanged; bitmaps stay disjoint and the count is the population count |
| `SparseArray.SetValue` | tsl/sparse_hash.h:497-505 | the value of an occupied index changes, nothing else |
| `SparseArray.Erase` | tsl/sparse_hash.h:534-550 | as a partial map: the index becomes a tombstone, every other index is unchanged |
| `SparseArray.Value` | tsl/sparse_hash.h:497-505 | the value of an occupied index |
| `ProbeSequence.NextBucketIsProbe` | tsl/sparse_hash.h:1714-1737 | stepping with next_bucket walks the probe sequence |
| `ProbeSequence.ProbeNumbers` | tsl/sparse_hash.h:1714-1723 | probe j is at h + j, or at h + j * (j + 1) / 2, modulo the bucket count |
| `ProbeSequence.ProbesDistinct` | tsl/sparse_hash.h:1714-1723 | among 2^k buckets the first 2^k probes are pairwise different, linear or quadratic |
| `ProbeSequence.ProbesCover` | tsl/sparse_hash.h:1714-1723 | every bucket is visited exactly once in the first 2^k probes |
| `SparseSlots.FreeEndsSearch` | tsl/sparse_hash.h:1889-1910 | a free bucket on the probe path proves the key absent, when every bucket before a stored key is occupied or a tombstone |
| `SparseSlots.UpdateReachable` | tsl/sparse_hash.h:1838-1879 | storing where allowed, or leaving a tombstone, keeps every stored key reachable |
| `SparseLoops.Seek` | tsl/sparse_hash.h:1889-1910 | the probe loop ends within bucket_count probes and finds the key exactly when probing meets it before a free bucket, in any table that has one |
| `SparseSlots.MetIsStored` | tsl/sparse_hash.h:1889-1910 | when every bucket before a stored key is occupied or a tombstone, that is exactly when the key is stored |
| `SparseLoops.SeekForInsert` | tsl/sparse_hash.h:1800-1834 | the key is found exactly when stored; otherwise the target is the first tombstone of the path, or the free bucket that ends it when there is none, and putting the key there keeps it reachable |
| `SparseLoops.SeekFree` | tsl/sparse_hash.h:1957-1984 | the first free bucket of the path, within bucket_count probes |
| `SparseLists.ValuesAreEntries` | tsl/sparse_hash.h:1920-1934 | the values of all arrays, in storage order, are the entries of the buckets |
| `SparseTable.Put` | tsl/sparse_hash.h:1838-1847 | the entry in that bucket: exactly the key is added, the tombstone count falls by one when a tombstone was reused |
| `SparseTable.Remove` | tsl/sparse_hash.h:1864-1870 | a tombstone in that bucket: exactly the key is gone, the tombstone count rises by one |
| `SparseTable.Refill` | tsl/sparse_hash.h:1920-1934 | re-inserting every value yields the same finite map without tombstones |
| `SparseTable.Table.Create` | tsl/sparse_hash.h:1090-1137 | an empty table of the least power of two at or above the request; length_error exactly when that is above the maximum bucket count |
| `SparseTable.Table.Find` | tsl/sparse_hash.h:1889-1910 | the bucket of the key with its value when the finite map has it |
| `SparseTable.Table.ValueAt` | tsl/sparse_hash.h:1897-1901 | the value stored in an occupied bucket |
| `SparseTable.Table.MakeRoom` | tsl/sparse_hash.h:1776-1781 | grow or clear tombstones as the thresholds say; same finite map; then the table is valid, and values and tombstones leave at least two free buckets; fails exactly when growth is needed and impossible, and then nothing changed |
| `SparseTable.Table.NextIsMultiple` | tsl/sparse_growth_policy.h:80-90 | the next bucket count is the bucket count times the growth factor, or the growth factor for a table without buckets |
| `SparseTable.Table.Insert` | tsl/sparse_hash.h:1775-1835 | a present key is left as it is, a new key is added at the returned bucket; reusing a tombstone never duplicates a key; a table whose arrays only list the map, and whose thresholds are zero, becomes valid on the way |
| `SparseTable.Table.PlaceNew` | tsl/sparse_hash.h:1820-1830 | the new entry in place, counters exact, valid again |
| `SparseTable.Table.InsertOrAssign` | tsl/sparse_hash.h:1378-1385 | afterwards the key has the value and every other key is unchanged |
| `SparseTable.Assign` | tsl/sparse_hash.h:1378-1385 | assigning through the found position changes that value alone |
| `SparseTable.Table.EraseKey` | tsl/sparse_hash.h:1854-1879 | 1 and the key is gone leaving one tombstone more, or 0 and nothing changed |
| `SparseTable.Table.EraseAt` | tsl/sparse_hash.h:1432-1454 | erase by iterator: a tombstone in that bucket, exactly its key gone |
| `SparseTable.Table.RehashImpl` | tsl/sparse_hash.h:1920-1934 | from arrays that list the finite map, reachable or not: the same map in the rounded number of buckets, valid, no tombstones |
| `SparseTable.Table.Clear` | tsl/sparse_hash.h:1331-1338 | the empty map, no tombstones, the same number of buckets |
| `SparseTable.Table.Rehash` | tsl/sparse_hash.h:1653-1656 | the same finite map in at least count buckets, or length_error |
| `SparseTable.Table.Reserve` | tsl/sparse_hash.h:1658-1660 | enough buckets for count elements, or length_error |
| `SparseTable.Table.SetMaxLoad` | tsl/sparse_hash.h:1644-1651 | the load factor asked for, or the limit 0.1 or 0.8 beyond it, and both thresholds |
| `SparseTable.WithDeleted` | tsl/sparse_hash.h:1648-1650 | the load factor that counts tombstones is halfway between the load factor and one |
| `SparseSerial.Serialize` | tsl/sparse_hash.h:1987-2010 | the token stream: version 1, bucket count, number of arrays, elements, tombstones and load factor, then each array with its size, bitmaps and values |
| `SparseSerial.ReadArray` | tsl/sparse_hash.h:622-636 | reading one array of a written stream inserts exactly its values, and never fails in a table with room for all of them |
| `SparseSerial.Deserialize` | tsl/sparse_hash.h:2013-2043 | reading a written stream into an empty table consumes all of it and gives the same finite map, unless the buckets that so many elements need are too many, exactly when it gives length_error |
| `SparseSerial.RoundTrip` | tsl/sparse_hash.h:1987-2043 | serialise and deserialise with hash_compatible = false, whatever the two hash functions: length_error exactly when the buckets for that many elements are too many for the reader, otherwise the whole stream is consumed and the finite map is the same |
| `SparseCompatible.ReadArray` | tsl/sparse_hash.h:585-616 | reading one written array with hash_compatible = true gives it back as it was, except that one without values loses its tombstones |
| `SparseCompatible.Deserialize` | tsl/sparse_hash.h:2013-2069 | the exact outcome of reading a written stream with hash_compatible = true (an error for 1 to 63 buckets, or when the load exceeds the load factor), and the whole state of the table after a success, with zero thresholds |
| `SparseCompatible.FoundIff` | tsl/sparse_hash.h:594-597 | in the arrays read back, the search finds a key exactly when it was stored and every array on its probe path held a value |
| `SparseCompatible.NothingLostIff` | tsl/sparse_hash.h:594-597 | the finite map survives if and only if every probe path of a stored key was in use, which it is when there are no tombstones |
| `SparseCompatible.RoundTrip` | tsl/sparse_hash.h:1987-2069 | serialise and deserialise with hash_compatible = true: the stream written, the exact error conditions, and otherwise a table in which the search finds the same finite map if and only if all probe paths of the writer were in use |
| `SparseCompatible.FindReadBack` | tsl/sparse_hash.h:1889-1910 | find on a table that was read back: the key with its value, exactly when it was stored and every array on its probe path held a value |
| `SparseCompatible.KeptValues` | tsl/sparse_hash.h:585-616 | the arrays read back have the values of those written, in the same order |
| `SparseCompatible.ReadThenInsert` | tsl/sparse_hash.h:1775-1835 | the first insert after such a read rehashes: unless that asks for too many buckets, it ends in a valid table for the whole finite map of the writer, lost keys included, and the new key |
| `SparseCompatible.CanLoseKeys` | tsl/sparse_hash.h:594-597 | a valid table of 128 buckets with one key that is not found after reading back |
| `SparseRuns.Do` | tsl/sparse_hash.h:1331-1484 | one operation, erase by iterator included, answers and acts as the finite map does, or ends in length_error exactly when the bucket count it asks for is too large; how it changes bucket count and load factor |
| `SparseRuns.Run` | tsl/sparse_hash.h:1331-1484 | every run answers as the finite map does, except that an operation ends in length_error exactly when it asks for too many buckets, which the trace of bucket counts and load factors says for every step; it ends in a valid table standing for the map |
| `SparseRuns.RunBounded` | tsl/sparse_hash.h:1331-1484 | in a run with room for growth factor times (10 * elements + 10) buckets nothing is refused, every answer is the one of the finite map and so is the table at the end |
| `CsvLines.LineReader.constructor` | include/csv.h:347-362 | the text left to return is the input without its byte order mark, whatever fair scheduler runs the worker; a third block is being read when there may be more |
| `CsvLines.LineReader.FinishRead` | include/csv.h:251-263 | in whatever interleaving with the worker, the third block is filled with the next bytes of the source; called only while the worker is there |
| `CsvLines.LineReader.BeginRead` | include/csv.h:243-249 | a read of the third block is outstanding |
| `CsvLines.LineReader.NextNeverStuck` | include/csv.h:444-463 | when next_line calls finish_read, no interleaving of the call waits on a worker that has exited, and while it sleeps the next step of the worker ends the wait |
| `CsvLines.LineReader.MoveBlock` | include/csv.h:453-460 | one block is copied and nothing else changes |
| `CsvLines.LineReader.Slide` | include/csv.h:453-463 | moving the blocks keeps the text and brings its start into the first block; finish_read is never asked of a worker that has left |
| `CsvLines.LineReader.Refill` | include/csv.h:457-462 | the read bytes continue the window; the text is unchanged |
| `CsvLines.LineReader.FindNewline` | include/csv.h:465-468 | the scan within the window finds the end of the line whenever the line fits a block |
| `CsvLines.LineReader.Cut` | include/csv.h:477-492 | the line is terminated and stepped over; the third block is not touched |
| `CsvLines.LineReader.CutLine` | include/csv.h:477-492 | in the buffer, the line becomes a NUL-terminated string and the text behind it is the rest of the text |
| `CsvLines.LineReader.Terminate` | include/csv.h:477-488 | a NUL for the newline and for a carriage return before it |
| `CsvLines.LineReader.Next` | include/csv.h:444-493 | the next line of the text without its line break, NUL-terminated, in every interleaving with the worker; the end exactly when no text is left; the length error exactly when the line and its newline do not fit a block |
| `CsvLines.ReadAll` | include/csv.h:444-493 | calling next_line to the end returns exactly the lines of the input (byte order mark skipped, carriage returns dropped, last newline optional), whatever the block length and the scheduling of the worker, up to the first line that does not fit |
| `CsvLines.LinesOfUnlines` | include/csv.h:465-482 | the lines of a text written line by line are those lines |
| `CsvLines.LastNewlineMissing` | include/csv.h:477-484 | also when the last newline is missing |
| `CsvLines.CarriageReturn` | include/csv.h:486-488 | a carriage return before the newline is dropped |
| `CsvAsync.StepKeepsInv` | include/csv.h:204-263 | every critical section of worker or caller, whatever the caller does, spurious wake-ups and failing reads included, keeps the protocol invariant |
| `CsvAsync.StepKeepsSynchronous` | include/csv.h:204-263 | every step keeps the correspondence with synchronous reads |
| `CsvAsync.RunKeeps` | include/csv.h:204-263 | both hold after every interleaving |
| `CsvAsync.EveryInterleaving` | include/csv.h:204-263 | in every interleaving, whatever the caller does: finish_read waits on a worker that has exited exactly when an earlier call reported the end; otherwise the next worker step ends the wait; and the outcomes so far are those of synchronous reads |
| `CsvAsync.NoDeadlock` | include/csv.h:251-274 | until the destructor has joined, unless finish_read was called after the end, some thread can take a real step, and a worker being joined exits in its next step |
| `CsvAsync.StuckForever` | include/csv.h:251-263 | a finish_read on a worker that has exited without a result never returns, in any interleaving |
| `CsvAsync.ReturnsIff` | include/csv.h:243-263 | a call of finish_read can return if and only if no earlier call has reported the end of the input |
| `CsvAsync.CanWaitForever` | include/csv.h:204-263 | a run on an empty input after which finish_read is stuck |
| `CsvAsync.FinishReturns` | include/csv.h:251-263 | every interleaving in which a call of finish_read returns makes it return the next bytes of the source |
| `CsvAsync.CallNeverStuck` | include/csv.h:251-263 | before the end was reported, no interleaving of a call waits on a worker that has exited |
| `CsvAsync.PromptIsFair` | include/csv.h:204-263 | a scheduler under which every such call returns exists |
| `CsvQuote.FindNextColumnEnd` | include/csv.h:771-787 | the nested loops find the first separator outside quotes, and throw exactly when a quote stays open |
| `CsvQuote.ColumnEndIs` | include/csv.h:771-787 | that separator, or the end, is the first one preceded by an even number of quotes; none exactly when the line ends inside quotes |
| `CsvQuote.Trim` | include/csv.h:701-707 | only trim characters are cut off at both ends, and what is left, if anything, neither starts nor ends with one; terminated, nothing else changed |
| `CsvQuote.Unescape` | include/csv.h:789-807 | in place: a quoted text loses its quotes and its doubled quotes become single, nothing outside is written; any other text, and the whole buffer, is left as it is |
| `CsvQuote.CollapseInPlace` | include/csv.h:795-803 | the in-place copy loop computes the text with doubled quotes made single |
| `CsvQuote.CollapseRuns` | include/csv.h:795-803 | of n quotes in a row half are left, rounded up, and other characters stay |
| `CsvParse.ChopNextColumn` | include/csv.h:847-862 | the column ends at the first separator outside quotes, which becomes a NUL; the rest of the line follows it |
| `CsvParse.Extract` | include/csv.h:877-880 | trim then unescape leaves the field as a NUL-terminated string inside the column |
| `CsvParse.NextColumn` | include/csv.h:874-881 | one column is processed without touching what is before it or behind its end |
| `CsvParse.ParseColumn` | include/csv.h:871-882 | one turn of the loop keeps all earlier columns in place |
| `CsvParse.ParseLine` | include/csv.h:865-885 | all requested columns are in place where sorted_col points, as strings, and nothing outside the line is touched; or exactly the error that splitting the line meets first |
| `CsvParse.SplitIff` | include/csv.h:865-885 | splitting into m columns succeeds exactly on m closed columns joined by separators, and gives those columns |
| `CsvParse.SplitCounts` | include/csv.h:865-885 | a line of k closed columns has too few when more are asked for and too many when fewer are |
| `CsvParse.SplitOpen` | include/csv.h:865-885 | a line of k closed columns and one with an open quote: too many when at most k are asked for, otherwise the open quote is reported |
| `CsvParse.RowRoundTrip` | include/csv.h:769-885 | fields, each written in quotes with inner quotes doubled or bare, and padded with trim characters, split and extract to themselves; `CsvRows.ReadBack` says so of the buffer |
| `CsvParse.CellRestores` | include/csv.h:701-707 | a field written in quotes or bare, between trim characters, is what trimming and unescaping give back |
| `CsvRows.ReadRow` | include/csv.h:1237-1266 | next_line and then parse_line on the same buffer, under the no_comment policy: the fields of the next line are in place as strings, or exactly the error of splitting it, and the text still to be read is untouched |
| `CsvRows.ReadTable` | include/csv.h:1237-1266 | reading rows to the end gives the table that the text stands for, whatever the block length and the scheduling of the worker |
| `CsvRows.FileRoundTrip` | include/csv.h:769-885 | the table that a file of such rows stands for is the fields that were written |
| `CsvRows.ReadBack` | include/csv.h:444-885 | rows whose fields are written in quotes or bare, with padding, behind a byte order mark or not, are read back unchanged by next_line and parse_line, when their lines fit a block |
| `CsvRows.MarkSkipped` | include/csv.h:354-356 | the bytes EF BB BF at the start are skipped, and nothing else is |
| `Collisions.FinerIsFewer` | include/entropyEstimation/entropy_estimators.hh:64-79 | a finer partition has no larger sum of c * (c - 1) |
| `Collisions.PairsFull` | include/entropyEstimation/entropy_estimators.hh:64-79 | the sum is that of all pairs exactly when all strings are alike |
| `Collisions.PairsWithout` | include/entropyEstimation/entropy_estimators.hh:64-79 | taking one value out takes out its c * (c - 1) pairs |
| `Collisions.Frequencies` | include/entropyEstimation/entropy_estimators.hh:140-147 | the frequency map has every key with its number of occurrences |
| `Collisions.FallingPower` | include/entropyEstimation/entropy_estimators.hh:52-62 | the falling power modulo 2^64, also when factors wrap around |
| `Collisions.FallingFactorial` | include/entropyEstimation/entropy_estimators.hh:52-62 | the falling power of x is x! / (x - k)!, and zero for k > x |
| `Collisions.CollisionSum` | include/entropyEstimation/entropy_estimators.hh:64-79 | the sum over the frequency map, in any order of its keys, is the number of ordered pairs of equal strings |
| `EntropySelector.FormPartialString` | include/entropyEstimation/entropy_estimators.hh:101-117 | chunk k is the string from the k-th position on, zero for missing chunks and beyond the number of chunks as an int; then follows the decimal numeral of the length |
| `EntropySelector.TellsApart` | include/entropyEstimation/entropy_estimators.hh:101-117 | two strings that differ in one whole chunk get different partial strings if and only if that chunk is selected |
| `EntropySelector.SameWithMore` | include/entropyEstimation/entropy_estimators.hh:101-117 | strings that agree on more positions agree on fewer |
| `EntropySelector.MoreIsFewer` | include/entropyEstimation/entropy_estimators.hh:101-117 | on every dataset one more position never raises the collision sum |
| `EntropySelector.EvaluateSum` | include/entropyEstimation/entropy_estimators.hh:174-181 | the collision sum of a dataset under the positions |
| `EntropySelector.ChooseBestPosition` | include/entropyEstimation/entropy_estimators.hh:119-159 | the first unused position with the fewest collisions; -1 exactly when every unused position leaves all strings together; for no strings, whose entropy is infinite, the first unused position |
| `EntropySelector.HopelessIff` | include/entropyEstimation/entropy_estimators.hh:119-159 | every unused position leaves all strings together exactly when there are strings and each unused position gives all of them the same partial string |
| `EntropySelector.StaysHopeful` | include/entropyEstimation/entropy_estimators.hh:119-159 | once two strings are told apart, an unused position is never refused |
| `EntropySelector.SelectStopK` | include/entropyEstimation/entropy_estimators.hh:205-244 | each position is the best at its turn; the recorded sums, on training or validation data, never go up, so the entropies never go down; the run meets the -1 position exactly when its first step does |
| `BloomBits.MultReduce` | include/self_block_bloom.hh:189-192 | the 32-bit hash scaled to n and rounded down: r * 2^32 <= hash * n < (r + 1) * 2^32, so below n |
| `BloomBits.ReductionReaches` | include/self_block_bloom.hh:189-192 | every position below n is the reduction of some hash |
| `BloomBits.DoubleHashNext` | include/self_block_bloom.hh:222-226 | adding the second hash once more gives the next double hash, in 32-bit arithmetic |
| `BloomBits.SetBitIn` | include/self_block_bloom.hh:172-177 | exactly one bit of the array is set |
| `BloomBits.TestBitIn` | include/self_block_bloom.hh:181-186 | the mask test reads that bit |
| `BloomBits.AddedFound` | include/self_block_bloom.hh:196-231 | what was added is found, and what was found before is found still |
| `BloomBits.FilledAnswers` | include/self_block_bloom.hh:213-231 | when the bits set are exactly the positions of the values added, all positions of a value are set exactly when each is one of theirs |
| `BloomFilters.BlockBloom512.constructor` | include/self_block_bloom.hh:74-97 | an empty filter of whole 64-byte blocks |
| `BloomFilters.BlockBloom512.AddValue` | include/self_block_bloom.hh:196-209 | exactly the probes of the value are set, in bounds; everything added so far still tests positive |
| `BloomFilters.BlockBloom512.TestValue` | include/self_block_bloom.hh:213-231 | true exactly when every position of the value, written out in numbers, is a position of some added value, hence for every added value, although positions are accumulated differently |
| `BloomFilters.PlainBloom.constructor` | include/self_reg_bloom.hh:58-74 | an empty filter of whole bytes, none for no bits |
| `BloomFilters.PlainBloom.AddValue` | include/self_reg_bloom.hh:169-182 | exactly the probes of the value are set, in bounds |
| `BloomFilters.PlainBloom.TestValue` | include/self_reg_bloom.hh:186-202 | true exactly when every position of the value, written out in numbers, is a position of some added value, hence for every added value |
| `BloomRegisters.AddWord` | include/register_blocked_bloom.hh:187-195 | the word of numHashes marked positions |
| `BloomRegisters.TestWord` | include/register_blocked_bloom.hh:208-218 | the same word, although the loop is one turn shorter; with no hash it has one bit all the same |
| `BloomRegisters.MaskTest` | include/register_blocked_bloom.hh:219-219 | the masked comparison holds exactly when every marked bit is set |
| `BloomRegisters.RegisterBloom.constructor` | include/register_blocked_bloom.hh:75-99 | an empty filter of whole words |
| `BloomRegisters.RegisterBloom.AddValue` | include/register_blocked_bloom.hh:180-197 | exactly the marked bits of one word are added |
| `BloomRegisters.RegisterBloom.TestValue` | include/register_blocked_bloom.hh:201-220 | true exactly when every position of the value, written out in numbers, is one of a value added to the same word; for an added value, if and only if there is at least one hash; with none, false for every value |
| `LibBloom.TestBitSetBit` | libbloom.cpp:31-46 | whether the bit was set; afterwards it is set when asked for, nothing else changes |
| `LibBloom.Bloom.Walk` | libbloom.cpp:57-78 | the hits equal the hash count exactly when all probes were set before, even when probes coincide |
| `LibBloom.Bloom.CheckAdd` | libbloom.cpp:49-78 | -1 when not ready; otherwise 1 exactly when every position of the buffer, written out in numbers, is a position of a buffer added before; adding sets exactly the probes |
| `LibBloom.Bloom.Check` | libbloom.cpp:117-120 | changes nothing; 1 exactly when every position is one of a buffer added, hence for everything added |
| `LibBloom.Bloom.Add` | libbloom.cpp:123-126 | answers what check would have answered on the prior state |
| `WyMum.Multiply` | include/hash/wyhash.hh:47-59 | A * B == hi * 2^64 + lo for all 64-bit inputs, both carries accounted for, no overflow in hi |
| `WyMum.Assemble` | include/hash/wyhash.hh:54-57 | the shifted additions and carries rebuild the product from its four parts |
| `WyMum.ReduceToRange` | include/hash/wyhash.hh:150-150 | a number below k for every k > 0, namely r * k / 2^64 |

## Left out

- HopscotchTable.Table.RehashImpl: does not model the erasing of the old buckets while they are moved (they are dropped at the end), nor the rollback when a length_error stops the refill, so nothing is promised of an interrupted table, here or in the operations that call it; the condition under which that may happen is proved necessary and shown to be met by one table, not proved sufficient.
- HopscotchRuns.Run: ends at an interrupted refill, for the same reason.
- HopscotchTable.Table.Insert: the maximum bucket count is a parameter up to 2^63; that std::vector refuses earlier for want of memory is not modelled.
- RobinTable.Table.EraseRange: assumes that both positions are occupied buckets or the end, as iterators are.
- SparseSerial.RoundTrip: covers hash_compatible = false; the other case is `SparseCompatible.RoundTrip`.
- SparseCompatible.Deserialize: promises nothing about the table after an error, when the static `deserialize` of the map (tsl/sparse_map.h:702-707) returns no table, nor about streams that no table wrote, which the program checks only in part.
- RobinRuns.Run: a range that is out of order or fails the restoring condition is not passed on to the table, whose state after it is given by `RobinTable.Table.EraseRange`.
- CsvLines.LineReader.constructor: the byte source reads short only at the end of its input, as the file, stream and string sources do; the block length is any number from 2 up, 2^20 in the program.
- CsvLines.LineReader.FinishRead: the byte source does not throw; `CsvAsync` covers sources that do, where next_line passes the exception on.
- EntropySelector.SelectStopK: stops where the program would append the position -1; going on would read before the start of the strings. The dataset is not empty, as the quantile at its start demands.
- EntropySelector.ChooseBestPosition: compares exact collision sums; rounding of the floating-point entropies could break ties differently.
- EntropySelector.EvaluateSum: asks for fewer than 2^31 strings, since the frequencies are of type int.
- Collisions.FallingPower: asks for a power below 2^32; the 32-bit counter of the loop would never reach a larger one.
- BloomRegisters.AddWord: `1 << positionInBlock` is taken as the intended 64-bit mask; as a C++ int shift it sets bits 31 to 63 at position 31 and has no meaning beyond.
- BloomRegisters.TestWord: takes the same shift as the intended 64-bit mask.
- BloomFilters.PlainBloom.AddValue: asks for a filter with bits; in one without, the program writes outside an empty array.
- Hopscotch tables that store truncated hashes (StoreHash), overflow containers other than a list, the copying variant of rehash_impl, erase by range (which repeats erase by iterator) and range insert.
- The 16-bit width of Robin Hood distances, the marker of the last bucket, and the storage order seen by iterators.
- Capacity growth and reallocation inside sparse arrays (a vector of values stands for them), exception safety variants, the iterator returned by sparse erase, and sparse erase by range, which repeats erase by iterator.
- Prime and modulo growth policies; map and set wrappers; copy, move and swap; allocators; iterator constness.
- Column headers, comments, number conversion and file names of the CSV reader.
- greedyRenyiSelectorStopEntropy, which differs only in its stopping rule; formPartialStringDefaultToFull; quantiles and timing.
- Floating-point false-positive rates and filter sizing: bit and hash counts are parameters. bloom_reset, whose clearing call is commented out.
- The hash functions themselves (XXH3, CRC, murmur, wyhash beyond its multiplication), benchmark drivers, workload generation and file I/O.
