# Verified model of `hash-map.js`

This project models the two classes of `hash-map.js`:

- `HashMap` is a separate-chaining hash table with string keys. It has an array of `capacity` buckets. Each bucket is an ordered list of key/value entries. An explicit `size` counter goes with them.
- `HashSet` owns one `HashMap` and stores `true` as the value of every key.

Modules:

- `Wrappers` holds `Option`.
- `Hashing` holds the key type and the rolling base-31 hash as a pure function. A JS string is a sequence of UTF-16 code units, so a key is a `seq<CodeUnit>` with `CodeUnit = 0..0xFFFF`, the values `charCodeAt` returns.
- `Buckets` holds the bucket layout. `Represents(bs, capacity, m)` says that the bucket sequence `bs` stores exactly the finite map `m`. This means:
  - every entry sits in bucket `HashOf(key, capacity)`;
  - no bucket holds a key twice;
  - every entry agrees with `m`;
  - every key of `m` is stored.

  The module also holds the lemmas that carry this predicate through an overwrite, an append, a splice and a rehash.
- `HashMaps` holds `class HashMap<V>`. Its fields are `capacity`, `size`, the load factor as a rational `loadNum / loadDen`, and `buckets: array<seq<(Key, V)>>`. A ghost field `Contents: map<Key, V>` is the abstract map. `Valid()` ties them together: the array has `capacity` slots and represents `Contents`, and `size` equals both the total bucket length and `|Contents|`.
- `HashSets` holds `class HashSet`. It owns a `HashMap<bool>` whose values are all `true`. Its abstract value is `Elements()`, the key set of that map.
- `Scenarios` holds call sequences on a default table, whose results the contracts fix. The main one is the load-factor example: with 4 buckets and load factor 3/4, three inserts keep capacity 4 and the fourth gives 8.

Design decisions:

- **Exact hash.** `hash` reduces its accumulator modulo `capacity` after every character. The model does the same, both in the loop of `HashMap.Hash` and in its specification `Hashing.HashOf`. With exact integers, per-step reduction gives the same index as one final modulo of the whole polynomial (`Hashing.HashIsPolynomialMod`). The source reduces at every step to keep the number small (hash-map.js:15). Exactness beyond 2^53 is not modelled.
- **Load factor.** `size / capacity > loadFactor` becomes `size * loadDen > capacity * loadNum` (`OverLoad`). `OverLoadIsRatio` proves this equals the comparison of the two quotients as exact reals.
- **Nested resize.** `resize` re-inserts through `set`, and that `set` may resize again when the load factor is small against `1/capacity`. The model uses a termination measure, not a precondition that rules this out. `Excess(count, cap) = max(0, count * loadDen - cap * loadNum)` strictly shrinks at every nested call, because capacity has at least doubled while the entry count stays at most the old size. The nested behaviour is kept as the code has it.
  - An inner resize rehashes the partly rebuilt table.
  - The outer loop then goes on over its own old bucket array.
  - `Resize` proves that the map and the size are preserved in every case. Capacity is reached by repeated doubling, and it ends within the load factor.
  - Capacity is exactly twice the old one whenever doubling once is enough. With the default load factor 3/4 that is always the case: `HashMaps.HashMap.DefaultsNeverRedouble` and `Scenarios.SetDoublesAtMostOnce` prove it.
- **Resize's inner loop.** The body of the outer `for ... of oldBuckets` loop, the inner loop over one old bucket, is the method `Reinsert`. Its single `set` call is the method `ReinsertOne`. After `resize` replaces `this.buckets`, nothing writes to the old array. So `Resize` takes a sequence snapshot of the old array and iterates over that.
- **Missing keys.** `get` returns `null` for a missing key. The model returns `Option<V>`.

## Model

| member | source | states |
|---|---|---|
| HashMaps.HashMap.constructor | hash-map.js:2-7 | a new table has `capacity` empty buckets, size 0, the given load factor, represents the empty map and is within the load factor; requires a positive capacity and load factor |
| HashMaps.HashMap.Hash | hash-map.js:10-18 | the loop computes exactly `HashOf(key, capacity)`, which is below `capacity` |
| Hashing.HashOf | hash-map.js:10-18 | the per-step reduced hash lies in `[0, capacity)`, and the empty key hashes to 0 |
| Hashing.HashIsPolynomialMod | hash-map.js:13-16 | reducing after every character equals reducing the whole base-31 polynomial once at the end (exact integers) |
| HashMaps.HashMap.Set | hash-map.js:21-41 | the abstract map becomes `old[key := value]` and the table stays valid (placement, no duplicates, size = total bucket length); a present key is overwritten at its position in its bucket, with size, capacity and every other entry unchanged; an absent key raises size by exactly 1 and, absent a resize, is appended to bucket `hash(key)`; capacity changes exactly when a new key makes `size / capacity` exceed the load factor, and then only by doubling |
| HashMaps.HashMap.OverLoadIsRatio | hash-map.js:38 | the integer test `count * den > cap * num` is exactly the comparison `count / cap > num / den` of exact quotients |
| HashMaps.HashMap.Resize | hash-map.js:132-143 | it rebuilds into fresh buckets and keeps the abstract map and size; the new capacity is reached by doubling, is exactly twice the old one when one doubling suffices, and ends within the load factor |
| HashMaps.HashMap.Reinsert | hash-map.js:139-141 | re-inserting one old bucket through `Set` extends the rebuilt map by that bucket's entries, keeping validity and the doubling facts |
| HashMaps.HashMap.ReinsertOne | hash-map.js:140 | one re-insertion during a rehash binds the entry's key to its value and keeps the table valid; should this `set` resize again, the capacity stays a doubling of the first doubled capacity, within the load factor |
| HashMaps.HashMap.RehashStep | hash-map.js:136-140 | during a rehash, each nested `set` has a strictly smaller termination measure, and it cannot resize again when one doubling suffices |
| HashMaps.HashMap.DefaultsNeverRedouble | hash-map.js:38 | with the default load factor 3/4, one more entry in a table within the load factor is within the load factor of twice the capacity, so a resize doubles exactly once |
| HashMaps.DoublesTransitive | hash-map.js:134 | capacities reached by doubling compose, so a nested resize keeps capacity a doubling of the original |
| HashMaps.DoublesGrows | hash-map.js:134 | a capacity reached by doubling is never smaller: capacity never decreases |
| Buckets.RehashComplete | hash-map.js:138-142 | the entries of a valid layout, read off in bucket order and inserted one by one, rebuild exactly the stored map |
| Buckets.OverwriteRepresents | hash-map.js:26-29 | overwriting the value of a key's entry in place keeps the layout valid for `m[k := v]` |
| Buckets.AppendRepresents | hash-map.js:34 | pushing an absent key onto bucket `hash(k)` keeps the layout valid for `m[k := v]` |
| Buckets.SpliceRepresents | hash-map.js:76-78 | cutting a key's entry out of its bucket keeps the layout valid for `m - {k}` |
| Buckets.AbsentKey | hash-map.js:48-54 | a key that bucket `hash(k)` does not hold is not in the map at all, so scanning one bucket decides membership |
| Buckets.FlattenRepresents | hash-map.js:99-129 | the bucket-order sequence of entries holds every key of the map exactly once, with its value |
| HashMaps.HashMap.Get | hash-map.js:44-55 | `Some(v)` for a bound key with its value `v`, `None` for an unbound one |
| HashMaps.HashMap.Has | hash-map.js:58-69 | true exactly when the key is bound |
| HashMaps.HashMap.Remove | hash-map.js:72-85 | true exactly when the key was bound; the key is unbound afterwards and size drops by 1; its entry is spliced out of its bucket, with the rest of that bucket kept in order and the other buckets untouched; on an absent key nothing changes |
| HashMaps.HashMap.Length | hash-map.js:88-90 | the count is the number of bindings and the total bucket length |
| HashMaps.HashMap.Clear | hash-map.js:93-96 | fresh empty buckets at the same capacity, size 0, no key bound, and the table valid for further use |
| HashMaps.HashMap.Keys | hash-map.js:99-107 | the keys in bucket order, exactly `size` of them, each bound key exactly once |
| HashMaps.HashMap.Values | hash-map.js:110-118 | the values in bucket order, exactly `size` of them, the i-th being the value bound to the i-th key |
| HashMaps.HashMap.Entries | hash-map.js:121-129 | the entries in bucket order, exactly `size` of them, each a binding of the map, each bound key exactly once |
| HashSets.HashSet.constructor | hash-map.js:148-150 | a new set over a new table with the given capacity and load factor is empty |
| HashSets.HashSet.Add | hash-map.js:153-155 | the element set gains `key`; adding a present key changes neither the size, the capacity nor any bucket (idempotence), and adding an absent one raises the size by 1 |
| HashSets.HashSet.Has | hash-map.js:158-160 | true exactly when the key is an element |
| HashSets.HashSet.Remove | hash-map.js:163-165 | true exactly when the key was an element; it is not one afterwards; the table keeps its capacity and bucket array; the key's entry is cut out of its bucket with the rest of that bucket in order; nothing changes on an absent key |
| HashSets.HashSet.Size | hash-map.js:168-170 | the number of elements |
| HashSets.HashSet.Clear | hash-map.js:173-175 | no elements remain, the table keeps its capacity, and the set stays valid |
| HashSets.HashSet.Keys | hash-map.js:178-180 | the table's keys in bucket order: every element exactly once |
| Scenarios.TwoInserts | hash-map.js:34-40 | with capacity 4 and load factor 3/4, two distinct inserts into a new table give those two bindings, size 2 and capacity 4 |
| Scenarios.ThreeInserts | hash-map.js:34-40 | with capacity 4 and load factor 3/4, three distinct inserts leave capacity 4 |
| Scenarios.FourInserts | hash-map.js:34-40 | after three inserts the capacity is still 4; the fourth insert of a new key doubles it to 8, and the table holds all four bindings |
| Scenarios.GrowOnFourthInsert | hash-map.js:34-55 | the fourth insert doubles capacity to 8 with length 4; all four keys are still found with their values 1, 2, 3 and 4, and an unset key is not |
| Scenarios.SetDoublesAtMostOnce | hash-map.js:34-40 | with the default load factor, `set` on a table within the load factor keeps the capacity or doubles it exactly once |
| Scenarios.OverwriteKeepsCount | hash-map.js:26-30 | setting a key twice leaves one binding, holding the second value |
| Scenarios.RemoveTwice | hash-map.js:72-85 | only the first removal of a key reports success, and the map is then empty |
| Scenarios.AddTwice | hash-map.js:153-155 | adding the same key twice to a set yields one element |
| Scenarios.AddTwiceThenOther | hash-map.js:153-170 | adding "x" twice and then "y" gives the elements {"x", "y"} and size 2 |
| Scenarios.SetKeys | hash-map.js:178-180 | the keys of a two-element set are those two keys |
| Scenarios.SetRemove | hash-map.js:163-170 | removing an element of a two-element set succeeds and leaves size 1 |

## Left out

- The load-factor test is an IEEE floating-point division in the source. It is modelled as the exact rational comparison `size * loadDen > capacity * loadNum`, which agrees with it for the default 0.75.
- Numbers are unbounded integers. `31 * h + c` stays exact in JS only while it is below 2^53, and huge capacities are not modelled.
- JS dynamic typing is left out. Non-string keys, on which `charCodeAt` fails, are not modelled, and the value slot is a type parameter `V`.
- Degenerate configurations are excluded. The constructors require a capacity above 0 and a positive load factor. A capacity of 0 makes the source compute `% 0`. A load factor of 0 or less makes the source diverge. The first `set` of a new key calls `resize`. Its first re-insertion through `set` gives `1 / (2 * capacity) > loadFactor`, so it calls `resize` again, and so on. Capacity doubles at each level and the recursion never bottoms out; the call never returns normally (hash-map.js:34-40, 132-142). This is why the model's termination measure `Excess` needs a positive `loadNum` (`HashMaps.HashMap.RehashShrinksExcess`). Requiring a positive load factor excludes exactly this non-terminating case.
- The default constructor arguments (4, 0.75) are the constants `DefaultCapacity`, `DefaultLoadNum` and `DefaultLoadDen`. The scenarios pass them explicitly.
- `get`'s `null` result, which cannot tell "absent" from "stored null", is replaced by `Option<V>`.
- Aliasing is not modelled. The source's buckets are mutable arrays, pushed to and spliced in place, and its entries are mutable `[key, value]` arrays, overwritten through `entry[1] = value`. `entries()` hands out those same arrays. The model stores immutable entry tuples in immutable bucket sequences. It reassigns the array slot that holds a bucket, so a caller cannot change the table through a returned entry.
