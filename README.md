# CacheTable.Net core in Dafny

This project models the core of CacheTable.Net. The library is a fixed-size, set-associative key/value cache with random replacement:
- A table of `rows * columns` slots is split into rows of `columns` consecutive slots.
- A key lives only in the row its hash code selects: the sign bit is masked off, then the result is taken modulo `rows`.
- Setting a new key into a full row overwrites the pair in a column chosen by the cache's random generator: xorshift32 in `CacheTable`, and one `System.Random` per stripe in `ConcurrentCacheTable`.

The model has seven modules, one per layer of the source:

- `Arith` (arith.dfy): the C# integer behaviour the source relies on. It covers the `int` range, `h & 0x7FFFFFFF`, and the C# `%`, which truncates toward zero.
- `Prng` (prng.dfy): `XorShiftRandom`. It is a class whose `state: bv32` is advanced in place by `Next`. It also has the `GetNonZeroSeed` retry loop and the pure step function `XorShift32` that specifies them.
- `Layout` (layout.dfy): the specification of the row engine on slot sequences.
  - Row addressing: `RowOf`, `FindIn`, `FirstEmpty`, `LookupIn`, `SetTarget`, `SetIn` and `RemoveIn`.
  - The table invariant `WellFormed`: every stored key lies in its own row, and no key is stored twice.
  - The abstract state `View`: the map the slots stand for.
  - Lemmas relating each operation to the invariant, the view and the occupied-slot count.
- `Engine` (engine.dfy): `CacheTableInternal`, a class over an `array` of optional pairs. Each method is proved to compute the corresponding `Layout` function of the array's old contents.
- `Cache` (cache.dfy): the single-threaded `CacheTable`.
  - It keeps the engine, the running `count` and one generator.
  - Its invariant says that `count` is the number of occupied slots and that the generator's state is not zero, the one state xorshift32 never leaves.
  - Every operation is stated against the map `Contents()`.
- `Stripes` (stripes.dfy): the specification of the thread-safe façade's bookkeeping. This covers the per-row counters, their sum, and the stripe-by-stripe row order of the enumerator. The enumerator's order is proved to be a permutation of the table's rows.
- `Concurrent` (concurrent.dfy): `ConcurrentCacheTable` run one operation at a time.
  - It has the `counts` array, with one counter per row, and one generator per stripe (`row % concurrency`).
  - Every lock is a no-op.
  - The stripe a row's lock comes from is still computed, and it is proved to be a valid index.

The xorshift generator's draw is not left arbitrary in the model. `Engine.CacheTableInternal.Set` is given the generator object itself. The column it evicts is `NextValue(state, columns)`, and the generator advances exactly when Set evicts.

In the full-row case Set returns `false` (CacheTable/CacheTableInternal.cs:124-129), so neither cache's count changes when a key is evicted.

## Model

| member | source | states |
|---|---|---|
| Arith.MaskSign | CacheTable/CacheTableInternal.cs:30 | `h & 0x7FFFFFFF` is in `[0, 2^31 - 1]`; it is `h` for a non-negative `h` and `h + 2^31` for a negative one |
| Arith.CRem | CacheTable/XorShiftRandom.cs:30 | C#'s `%`: the remainder differs from the dividend by a multiple of the divisor, is smaller than the divisor in magnitude and has the sign of the dividend, which fixes it uniquely |
| Arith.CRemUnique | CacheTable/XorShiftRandom.cs:30 | uniqueness of C#'s `%`: any value that differs from the dividend by a multiple of the divisor, is smaller than the divisor in magnitude and has the dividend's sign equals `CRem` |
| Prng.XorShift32 | CacheTable/XorShiftRandom.cs:25-29 | the 13/17/5 xorshift step maps a non-zero state to a non-zero state |
| Prng.NextValue | CacheTable/XorShiftRandom.cs:23-31 | the value `Next(max)` returns is non-negative and below the magnitude of `max` |
| Prng.XorShiftRandom.constructor | CacheTable/XorShiftRandom.cs:17-20 | the seeded constructor's state is exactly the seed |
| Prng.XorShiftRandom.FromSeedSource | CacheTable/XorShiftRandom.cs:13-15 | the default constructor starts from a non-zero value drawn from the seed source |
| Prng.XorShiftRandom.Next | CacheTable/XorShiftRandom.cs:23-31 | the state advances by one xorshift32 step; the result is `NextValue` of the old state; a non-zero state stays non-zero |
| Prng.GetNonZeroSeed | CacheTable/XorShiftRandom.cs:33-43 | returns the first non-zero draw of the seed source, skipping zeros |
| Layout.RowOf | CacheTable/CacheTableInternal.cs:28-32 | every hash code, negative ones included, selects a row in `[0, rows)` |
| Layout.RowFits | CacheTable/CacheTableInternal.cs:34-39 | the range of a valid row lies inside the table |
| Layout.RowsDisjoint | CacheTable/CacheTableInternal.cs:34-39 | the ranges of distinct rows do not overlap |
| Layout.InRowIsQuotient | CacheTable/CacheTableInternal.cs:34-39 | slot `i` lies in row `row` exactly when `i / columns == row` |
| Layout.RowRangeIsRow | CacheTable/CacheTableInternal.cs:34-39 | a row's range holds exactly the slots whose quotient by `columns` is that row |
| Layout.FindIn | CacheTable/CacheTableInternal.cs:41-53 | -1 exactly when no slot of the range holds the key; otherwise the first slot that does |
| Layout.FirstEmpty | CacheTable/CacheTableInternal.cs:98-114 | -1 exactly when the row is full; otherwise the first empty slot of the row |
| Layout.LookupIn | CacheTable/CacheTableInternal.cs:55-68 | a value exactly when some slot of the row holds the key, and then the value stored with it |
| Layout.SetTarget | CacheTable/CacheTableInternal.cs:93-130 | Set writes the slot holding the key; failing that, the first empty slot; failing that, column `r` |
| Layout.SetIn | CacheTable/CacheTableInternal.cs:93-130 | only the target slot changes and it holds the new pair; nothing outside the row changes; `true` exactly when the key was absent and the row had an empty slot |
| Layout.RemoveIn | CacheTable/CacheTableInternal.cs:70-80 | `true` exactly when the row holds the key; the table is unchanged otherwise; exactly the key's slot is emptied |
| Layout.Empty | CacheTable/CacheTableInternal.cs:20-26 | every slot is empty and the length is unchanged |
| Layout.OccupiedEntries | CacheTable/CacheTableInternal.cs:82-91 | the enumeration yields one pair per occupied slot |
| Layout.FullIsAllOccupied | UnitTests/CacheTableTests.cs:142-167 | a table whose occupied count equals its size has every slot occupied |
| Layout.FullHasNoRoom | UnitTests/CacheTableTests.cs:142-167 | in a full table no row has an empty slot, so a new key must evict |
| Layout.EmptyHoldsNothing | CacheTable/CacheTable.cs:71-75 | an all-empty table has count 0, an empty map and an empty enumeration |
| Layout.ViewSize | CacheTable/CacheTable.cs:32 | with unique keys, the number of stored keys is the number of occupied slots |
| Layout.EntriesAreView | CacheTable/CacheTable.cs:91-94 | with unique keys, the enumeration yields exactly the key/value pairs of the map |
| Layout.LookupIsView | CacheTable/CacheTable.cs:129-132 | scanning only the key's row answers for the whole table |
| Layout.RowSliceKeyInRow | CacheTable/CacheTableInternal.cs:28-39 | a key held in a slot of the key's row is in the map and hashes to that row |
| Layout.RowKeyInRowSlice | CacheTable/CacheTableInternal.cs:28-39 | a key of the map that hashes to the key's row is held in a slot of that row |
| Layout.RowSliceKeys | CacheTable/CacheTableInternal.cs:28-39 | the keys held in a row's slots are exactly the map's keys that hash to that row |
| Layout.RoomIsNotFull | CacheTable/CacheTableInternal.cs:110-122 | a range has an empty slot exactly when fewer of its slots are occupied than its length |
| Layout.RoomIsRowKeys | CacheTable/CacheTableInternal.cs:110-129 | a row has an empty slot exactly when fewer than `columns` of the map's keys hash to it, and it never holds more than `columns` of them; so colliding keys are evicted only once `columns` of them are stored |
| Layout.SetInWellFormed | CacheTable/CacheTableInternal.cs:93-130 | Set keeps every key in its row and stored at most once |
| Layout.SetInView | CacheTable/CacheTableInternal.cs:93-130 | after Set the key maps to the value; it is an insertion exactly when the key is new and the row has room; otherwise a new key evicts the other key in column `r` |
| Layout.EvictedFromKeyRow | CacheTable/CacheTableInternal.cs:124-129 | the key stored in column `r` of a full row hashes to the same row as the key being set, so only a key of that row can be evicted |
| Layout.SetInRowUpdates | CacheTable/CacheTableInternal.cs:100-108 | a stored key only has its value replaced |
| Layout.SetInRowInserts | CacheTable/CacheTableInternal.cs:116-122 | a new key put into an empty slot is only added |
| Layout.SetInRowEvicts | CacheTable/CacheTableInternal.cs:124-129 | a new key in a full row replaces exactly the key of column `r` |
| Layout.SetInCount | CacheTable/CacheTable.cs:59-65 | the occupied count goes up by one exactly when Set reports an insertion, and otherwise stays |
| Layout.RemoveInView | CacheTable/CacheTableInternal.cs:70-80 | Remove reports whether the key was stored, and afterwards exactly that key is gone |
| Layout.RemoveInWellFormed | CacheTable/CacheTableInternal.cs:70-80 | Remove keeps the table invariant |
| Layout.RemoveInCount | CacheTable/CacheTable.cs:107-116 | the occupied count goes down by one exactly when Remove reports a removal |
| Engine.CacheTableInternal.constructor | CacheTable/CacheTableInternal.cs:13-18 | a fresh `rows * columns` array with every slot empty |
| Engine.CacheTableInternal.Clear | CacheTable/CacheTableInternal.cs:20-26 | every slot is empty afterwards, and the array is kept |
| Engine.CacheTableInternal.FindRow | CacheTable/CacheTableInternal.cs:28-32 | a valid row for every key; `hash % rows` when the hash code is non-negative |
| Engine.CacheTableInternal.GetRowRange | CacheTable/CacheTableInternal.cs:34-39 | the range is `columns` long and lies inside the table; it is exactly the slots of `row` |
| Engine.CacheTableInternal.FindEntry | CacheTable/CacheTableInternal.cs:41-53 | the loop returns `FindIn` of the row |
| Engine.CacheTableInternal.TryGetValue | CacheTable/CacheTableInternal.cs:55-68 | returns `LookupIn` of the row |
| Engine.CacheTableInternal.Remove | CacheTable/CacheTableInternal.cs:70-80 | the array and the result become `RemoveIn` of the old array |
| Engine.CacheTableInternal.GetEnumerator | CacheTable/CacheTableInternal.cs:82-91 | the loop yields the occupied slots' pairs in slot order |
| Engine.CacheTableInternal.Set | CacheTable/CacheTableInternal.cs:93-130 | the array and the result become `SetIn` of the old array with column `NextValue(state, columns)`; the generator advances only when Set evicts |
| Cache.SetCounted | CacheTable/CacheTable.cs:59-65 | one Set keeps the invariant; it adds one to the occupied count exactly on an insertion, never when the table is full; the map changes as Set promises, and an evicted key belongs to the key's row |
| Cache.CacheTable.constructor | CacheTable/CacheTable.cs:15-27 | an empty cache with count 0 and a generator with a non-zero state |
| Cache.CacheTable.Count | CacheTable/CacheTable.cs:30-32 | the count is the number of stored keys and at most `rows * columns` |
| Cache.CacheTable.TryGetValue | CacheTable/CacheTable.cs:129-132 | the stored value exactly when the key is in the cache |
| Cache.CacheTable.Get | CacheTable/CacheTable.cs:48-57 | `KeyNotFound` exactly when the key is absent; otherwise the stored value |
| Cache.CacheTable.ContainsKey | CacheTable/CacheTable.cs:82-85 | true exactly when the key is in the cache |
| Cache.CacheTable.SetItem | CacheTable/CacheTable.cs:34-65 | the key then maps to the value; the row has room exactly when fewer than `columns` stored keys hash to it; a stored key or a row with room changes nothing else; count rises exactly for a new key with room; a full table keeps its count; otherwise exactly one other key, from the key's own row, is evicted; the generator's state stays non-zero |
| Cache.CacheTable.Remove | CacheTable/CacheTable.cs:107-116 | true exactly when the key was stored; the key is gone; the count drops by one exactly then |
| Cache.CacheTable.Clear | CacheTable/CacheTable.cs:71-75 | the cache is empty and the count is 0 |
| Cache.CacheTable.GetEnumerator | CacheTable/CacheTable.cs:91-94 | the slot-order pairs; `count` of them; each key of the cache once with its value |
| Stripes.RowCount | CacheTable/ConcurrentCacheTable.cs:30 | a row counter never exceeds `columns` |
| Stripes.CountsMatchAt | CacheTable/ConcurrentCacheTable.cs:30 | `counts` has one entry per row, and each is that row's number of occupied slots |
| Stripes.SumOfCounts | CacheTable/ConcurrentCacheTable.cs:53-73 | adding up the counters of the first `n` rows counts the occupied slots of those rows |
| Stripes.EmptyCounts | CacheTable/ConcurrentCacheTable.cs:123-138 | all-zero counters match an all-empty table |
| Stripes.SetInCounts | CacheTable/ConcurrentCacheTable.cs:103-113 | Set on `row` raises that row's counter by one exactly on an insertion, and no other counter |
| Stripes.RemoveInCounts | CacheTable/ConcurrentCacheTable.cs:208-221 | Remove on `row` lowers that row's counter by one exactly on a removal, and no other counter |
| Stripes.StripeRows | CacheTable/ConcurrentCacheTable.cs:173 | the rows one lock visits are rows of the table |
| Stripes.StripeRowsInRange | CacheTable/ConcurrentCacheTable.cs:173 | the rows one lock visits lie in `[lockNum, rows)` |
| Stripes.StripeRowsAscending | CacheTable/ConcurrentCacheTable.cs:173 | one lock visits its rows in ascending order |
| Stripes.StripeRowsShareRemainder | CacheTable/ConcurrentCacheTable.cs:173 | the rows one lock visits share the first row's remainder modulo `concurrency` |
| Stripes.StripeRowsBelongToStripe | CacheTable/ConcurrentCacheTable.cs:169-173 | lock `lockNum` visits only rows whose lock is `lockNum` |
| Stripes.StripeRowsCount | CacheTable/ConcurrentCacheTable.cs:173 | one lock visits each in-range row of its stripe exactly once |
| Stripes.StripeRowsStep | CacheTable/ConcurrentCacheTable.cs:173-183 | visiting a row and stepping `concurrency` on keeps the traversal on course |
| Stripes.StripeOrder | CacheTable/ConcurrentCacheTable.cs:169-186 | the traversal visits only rows of the table |
| Stripes.StripeOrderCount | CacheTable/ConcurrentCacheTable.cs:169-186 | after the first `n` locks, each row whose remainder is below `n` has been visited once |
| Stripes.StripeOrderIsPermutation | CacheTable/ConcurrentCacheTable.cs:169-186 | the traversal visits every row of the table exactly once and nothing else |
| Stripes.RowsInOrder | CacheTable/CacheTableInternal.cs:82-91 | visiting the rows in ascending order reproduces the slot-order enumeration |
| Stripes.PermutedRows | CacheTable/ConcurrentCacheTable.cs:167-186 | visiting the same rows in another order yields the same pairs in another order |
| Stripes.StripedEntriesArePermutation | CacheTable/ConcurrentCacheTable.cs:167-186 | the striped enumeration is a permutation of the slot-order enumeration |
| Concurrent.SetStep | CacheTable/ConcurrentCacheTable.cs:103-113 | one Set keeps the invariant; only the row's counter changes, by one exactly on an insertion; the map changes as in the single-threaded cache, an evicted key belonging to the key's row |
| Concurrent.RemoveStep | CacheTable/ConcurrentCacheTable.cs:208-221 | one Remove keeps the invariant; only the row's counter changes, by one exactly on a removal; exactly the key leaves the map |
| Concurrent.ConcurrentCacheTable.constructor | CacheTable/ConcurrentCacheTable.cs:27-43 | an empty cache; every counter is 0; `concurrency` distinct fresh generators |
| Concurrent.NewGenerators | CacheTable/ConcurrentCacheTable.cs:38-42 | one new generator per stripe, each started from its own seed, no two the same object |
| Concurrent.ConcurrentCacheTable.GetLockObjectForRow | CacheTable/ConcurrentCacheTable.cs:246-249 | the stripe of any row is a valid lock index; rows below `concurrency` are their own stripe |
| Concurrent.ConcurrentCacheTable.GetRng | CacheTable/ConcurrentCacheTable.cs:251-254 | the generator of a row's stripe is one of the cache's generators |
| Concurrent.ConcurrentCacheTable.Count | CacheTable/ConcurrentCacheTable.cs:53-73 | the loop returns the sum of the counters, which is the number of stored keys and at most `rows * columns` |
| Concurrent.ConcurrentCacheTable.TryGetValue | CacheTable/ConcurrentCacheTable.cs:237-244 | the stored value exactly when the key is in the cache |
| Concurrent.ConcurrentCacheTable.Get | CacheTable/ConcurrentCacheTable.cs:92-101 | `KeyNotFound` exactly when the key is absent; otherwise the stored value |
| Concurrent.ConcurrentCacheTable.ContainsKey | CacheTable/ConcurrentCacheTable.cs:148-155 | true exactly when the key is in the cache |
| Concurrent.ConcurrentCacheTable.StoreInRow | CacheTable/ConcurrentCacheTable.cs:105-108 | the engine's Set with the stripe's generator keeps the invariant; the row has room exactly when fewer than `columns` stored keys hash to it; it reports an insertion exactly for a new key with room; the counters plus that insertion match the new slots; otherwise exactly one other key, from the key's own row, is evicted |
| Concurrent.ConcurrentCacheTable.SetItem | CacheTable/ConcurrentCacheTable.cs:75-113 | the key then maps to the value; the row has room exactly when fewer than `columns` stored keys hash to it; a new key in a full row evicts exactly one other key of that row; the key's row counter rises by one exactly for a new key with room; other counters are unchanged |
| Concurrent.ConcurrentCacheTable.RemoveFromRow | CacheTable/ConcurrentCacheTable.cs:210-213 | the engine's Remove keeps the invariant; it reports whether the key was stored; the counters minus that removal match the new slots |
| Concurrent.ConcurrentCacheTable.Remove | CacheTable/ConcurrentCacheTable.cs:208-221 | true exactly when the key was stored; the key is gone; the key's row counter drops by one exactly then; other counters are unchanged |
| Concurrent.ConcurrentCacheTable.Clear | CacheTable/ConcurrentCacheTable.cs:123-138 | every slot is empty and every counter is 0 |
| Concurrent.ConcurrentCacheTable.GetEnumerator | CacheTable/ConcurrentCacheTable.cs:167-186 | stripe-by-stripe pairs; a permutation of the slot-order enumeration; each key of the cache once with its value |
| Concurrent.ConcurrentCacheTable.ScanStripes | CacheTable/ConcurrentCacheTable.cs:169-186 | the nested loops yield the pairs of the rows in stripe order, each row in column order |

## Left out

- Locks are not modelled. This covers `lock`, `Monitor.Enter`/`Exit`, and `AcquireAllLocks`/`ReleaseAllLocks`. Operations run one at a time, so thread safety, deadlock freedom and the non-snapshot behaviour of the concurrent enumerator under concurrent writers are not captured.
- `System.Random` is replaced by `XorShiftRandom`. This affects the concurrent cache's per-stripe generators and the seed source of `XorShiftRandom`'s default constructor.
  - The per-stripe generators are seeded from given seeds.
  - The seed source is a given sequence of draws. It must contain a non-zero draw, because the source's loop would otherwise never end.
  - In the source, `Set` takes a `Random`, and the single-threaded cache passes it an `XorShiftRandom`. The model passes the generator object to `Set`.
- `GetHashCode` and `Equals` of caller key types are modelled as a fixed function `hash: K -> int32` and Dafny equality.
- `default(TValue)` from `TryGetValue` is modelled as `None`, and the indexer getter's exception is modelled as the `KeyNotFound` outcome. The exception message is not modelled.
- The lazy `yield` enumerators are modelled as methods that return the whole sequence of pairs.
- The constructors require positive dimensions whose product fits in an `int`. The source does not check them, and integer overflow of `rows * columns` is not modelled. The source fails differently at the edges:
  - With `rows == 0` the allocation succeeds, and every operation on a key throws `DivideByZeroException` at `hash % this.numRows` (CacheTable/CacheTableInternal.cs:31).
  - With `columns == 0` the allocation and every read succeed on empty rows, and only Set throws. In the single-threaded cache it throws `DivideByZeroException` at `x % max` (CacheTable/XorShiftRandom.cs:30), through `rng.Next(this.numColumns)` (CacheTable/CacheTableInternal.cs:125).
  - With `columns == 0` in the concurrent cache, the stripe's `System.Random` returns 0 from `Next(0)`. Set then throws `IndexOutOfRangeException` at the first access to the empty table: in a Debug build at the `Debug.Assert` (CacheTable/CacheTableInternal.cs:126), in a Release build at the slot write (CacheTable/CacheTableInternal.cs:128).
  - Other invalid dimensions (negative ones, or a product beyond `int`) are not modelled either.
- Prng.NextValue and Prng.XorShiftRandom.Next: they require `max != 0`. The `DivideByZeroException` that `Next(0)` throws in the source is not modelled; the row engine always passes `columns`, which the constructors require to be positive.
- Concurrent.ConcurrentCacheTable.constructor: requires `concurrency > 0`. With `concurrency == 0` the source builds the cache, `Count`, `Clear` and the enumerator work, and every key operation throws `DivideByZeroException` at `row % this.lockObjects.Length` (CacheTable/ConcurrentCacheTable.cs:248). A negative `concurrency` throws `OverflowException` at `new object[concurrency]` (CacheTable/ConcurrentCacheTable.cs:32). Neither case is modelled.
- Concurrent.ConcurrentCacheTable.ScanStripes: `row += concurrency` is unbounded. It would overflow in C# only when `row + concurrency` exceeds `2^31 - 1`.
- Concurrent.ConcurrentCacheTable.Valid: the invariant does not state that the stripes' generators are distinct objects. Only the constructor states it, and no other contract depends on it.
- `ICacheTable`, the benchmark programs and the unit-test harness have no core logic. The unit tests are used only as sources of properties.
