# HashMap — a separate-chaining hash table, modelled and proved in Dafny

`main.js` defines a `HashMap` class. It maps string keys to values.

- **Buckets.** There is an array of buckets, one per unit of `capacity`. Each bucket is a list of `[key, value]` pairs in insertion order.
- **Hash.** A key's bucket is a polynomial rolling hash of its character codes. The multiplier is 31, and the hash is reduced modulo the bucket count after every character.
- **set.** It replaces an existing pair in place. Otherwise it appends a new pair to the end of the bucket and increments `size`. When `size / capacity` then exceeds the load factor, `_resize` runs. It doubles the capacity and re-appends every pair, visiting them in scan order (bucket by bucket, then by position within the bucket), to the bucket its key hashes to under the new capacity.
- **Other operations.** `get`, `has` and `remove` scan only the key's bucket. `remove` splices the pair out. `keys`, `values` and `entries` walk the buckets in scan order. `clear` installs fresh empty buckets and keeps the capacity.
- **Demonstration.** A script after the class inserts twelve pairs, overwrites two of them, and adds a thirteenth pair, which triggers the first resize. It then looks up, removes, enumerates and clears.

The project is split into these modules:

- `Options` (`options.dfy`): the `Option` datatype that replaces the `null` returned by `get`.
- `Hashing` (`hashing.dfy`):
  - `RollingHash` is the specification of the hash. It is the accumulator after the last character, and it always lands in `[0, capacity)`.
  - `Polynomial` is an independent reference definition: the unreduced polynomial.
  - The lemmas show that reducing at every step gives the polynomial modulo the capacity. They also show that doubling the capacity sends a key in bucket `i` to bucket `i` or bucket `i + capacity`.
- `Buckets` (`buckets.dfy`): the table as a value, a sequence of buckets.
  - `Layout(bs, contents)` says the buckets hold exactly the map `contents`. Every pair is in the bucket its key hashes to, no bucket repeats a key, every pair is an entry of the map, and every entry is stored.
  - `Flatten` is the scan order.
  - The lemmas show how overwriting, appending and splicing one bucket keep `Layout` with the updated map.
- `Rehash` (`rehash.dfy`): the resize as a value.
  - `Rehashed(ob)` reinserts the pairs of `ob`, in scan order, into twice as many empty buckets.
  - The lemmas show the result lays out the same map with the same multiset of pairs, and that each new bucket draws only from the old bucket `t mod capacity`.
- `HashMaps` (`hash_map.dfy`): the class itself.
  - Its fields are `capacity`, `size` and `buckets: array<seq<Entry<V>>>`, all updated in place as in the source. The ghost field `Table` mirrors the array and the ghost field `Contents` is the map it stands for. `Valid()` ties them together.
  - Every method has the same loops and branches as its JavaScript counterpart. Each states its new state in terms of the old one: the updated map, the exact new bucket layout, the size and the capacity.
- `Scenario` (`scenario.dfy`): the demonstration script. The counts, lookups and flags it prints are postconditions of `Demo`. For the three listings, `Demo` states their lengths and the keys, values and pairs the script touched.

## Model

| member | source | states |
|---|---|---|
| HashMaps.HashMap.constructor | main.js:2-7 | A new table has `initialCapacity` buckets, all empty, holds the empty map, has size 0 and keeps the given load factor (default 16 buckets and 3/4). |
| HashMaps.HashMap.Hash | main.js:10-17 | The loop computes exactly `RollingHash(key, capacity)`, so the index is in `[0, capacity)`. |
| HashMaps.HashMap.HashWithCapacity | main.js:137-144 | The same loop under a given capacity computes `RollingHash(key, newCapacity)`. |
| Hashing.RollingHashIsPolynomialMod | main.js:10-17 | Reducing modulo the capacity at every step gives the same index as reducing the whole polynomial `sum code(k_i) * 31^(n-1-i)` once. |
| Hashing.DoublingSplitsBucket | main.js:121-144 | Under double the capacity, a key's new index is congruent to its old index and is either the old index or the old index plus the old capacity. |
| HashMaps.OverloadedIsLoadAboveFactor | main.js:37 | The load test `Overloaded(n, cap)`, i.e. `n * loadDen > cap * loadNum`, which `Set` uses for its resize condition, holds exactly when the real quotient `n / cap` exceeds the load factor `loadNum / loadDen`, for a positive bucket count. |
| HashMaps.HashMap.Set | main.js:20-40 | The map becomes `old[key := value]`. The size grows by one exactly when the key was new. The capacity doubles exactly when the key was new and `size * loadDen > capacity * loadNum` afterwards. The key's bucket becomes `Put` of it (overwrite in place or append at the end), all other buckets are unchanged, and the whole table is `Rehashed` of that when it grew. The bucket array is the same object unless it grew. |
| Buckets.LayoutOverwrite | main.js:24-29 | Replacing the pair found for `key` in its bucket keeps a valid layout of `contents[key := value]`, and the key was already present, so the size is unchanged. |
| Buckets.LayoutAppend | main.js:32-34 | Appending a pair for a key absent from its bucket keeps a valid layout of `contents[key := value]`, and the key was absent, so the size grows by one. |
| Buckets.PutFound | main.js:24-29 | When the first pair with `key` is at position j, the scan finds j, `Put` overwrites position j, and `Delete` splices out position j. |
| Buckets.PutMissing | main.js:32-33 | When no pair carries `key`, the scan finds nothing, `Put` appends the pair, and `Delete` leaves the bucket unchanged. |
| HashMaps.HashMap.Get | main.js:43-53 | Returns `Some(Contents[key])` when the key is present and `None` otherwise. |
| Buckets.LookupInLayout | main.js:43-53 | Scanning only the key's own bucket decides membership in the whole map, and the pair it finds carries the key's value. |
| HashMaps.HashMap.Has | main.js:56-58 | True exactly when the key is in the map, i.e. exactly when `Get` returns a value. |
| HashMaps.HashMap.Remove | main.js:61-74 | Returns whether the key was present. The map loses exactly that key, and the size drops by one exactly when it was present. The capacity and bucket array stay. The key's bucket becomes `Delete` of it (the other pairs keep their order) and every other bucket is unchanged. |
| Buckets.LayoutRemove | main.js:65-70 | Splicing the pair for `key` out of its bucket keeps a valid layout of `contents - {key}`, and the size drops by one. |
| HashMaps.HashMap.StoreBucket | main.js:33-34 | Writes one bucket back in place, along with the new key count, as at main.js:27, 33-34 and 68-69. Afterwards the table is `old(Table)[index := b]`, `Valid()` holds with the given map and size, and the capacity and array object are unchanged. |
| Buckets.SpliceOut | main.js:68 | Splicing out position j keeps the pairs before j where they were and shifts the pairs after j down by one. |
| HashMaps.HashMap.Length | main.js:77-79 | The size is the number of keys in the map and the number of stored pairs. |
| HashMaps.HashMap.Clear | main.js:82-85 | Afterwards the map is empty, the size is 0, and there are `capacity` fresh empty buckets, with the capacity unchanged. |
| HashMaps.HashMap.Keys | main.js:88-96 | Returns `size` keys, position by position the keys of the scan order. It contains exactly the map's keys, each once. |
| HashMaps.HashMap.Values | main.js:99-107 | Returns `size` values, position by position the values of the scan order, so `Values()[p]` belongs to `Keys()[p]`. Each is the map's value for the scan's key at that position, and every value of the map occurs. |
| Buckets.ValuesOfScan | main.js:99-107 | The values of the scan, position by position, are the map's values for the scan's keys, and every value of the map is among them. |
| HashMaps.HashMap.Entries | main.js:110-118 | Returns exactly the scan order, `size` pairs long. It holds each entry of the map once and nothing else. |
| Buckets.LayoutScan | main.js:88-118 | A pair is in the scan of a valid layout exactly when it is an entry of the map, and no key occurs twice in the scan. |
| Buckets.FlattenIndex | main.js:88-118 | Scan order pinned down: the pairs of bucket i occupy the positions starting right after the pairs of buckets 0 .. i-1, in their order within the bucket. |
| Buckets.KeysOfScan | main.js:88-96 | The keys of the scan are exactly the map's keys, without repetition. |
| HashMaps.HashMap.Resize | main.js:121-134 | Doubles the capacity and keeps the size and the map. The new buckets are exactly `Rehashed(old buckets)` in a fresh array. |
| HashMaps.HashMap.Redistribute | main.js:122-130 | The nested loop fills fresh buckets of the new count with exactly `Rehashed` of the current buckets. |
| Rehash.RehashedLayout | main.js:121-134 | The rehashed table has twice the buckets, lays out the same map, and holds the same multiset (and number) of pairs, each in the bucket of its hash under the doubled count. |
| Rehash.RehashedSplits | main.js:125-129 | Every pair in new bucket t came from old bucket `t mod capacity`. |
| Rehash.ReinsertAllFlatten | main.js:125-129 | Re-appending a sequence of pairs adds exactly those pairs to the table. |
| Scenario.Populate | main.js:147-161 | Twelve or fewer inserts of distinct keys into a default table hold exactly those pairs, with no resize: 12/16 does not exceed 3/4. |
| Scenario.Overwrite | main.js:165-167 | Overwriting two present keys sets `apple` to `green` and `banana` to `brown`. It keeps the size at 12, the capacity at 16 and the same bucket array. |
| Scenario.Grow | main.js:170-174 | The thirteenth key doubles the table to 32 buckets, the size is 13, and `apple` and `moon` read back `green` and `silver`, which the map then holds. |
| Scenario.RemoveDog | main.js:177-183 | `dog` is present and removed, and 12 keys remain. The keys listing omits `dog` but includes `apple` and `moon`. The values listing has 12 values including `green` and `silver`. The entries listing has 12 pairs including (`apple`, `green`) and (`moon`, `silver`). |
| Scenario.Demo | main.js:147-186 | The values the script prints: 12, then `green`, `silver` and 13 with capacity 32, then true, true and 12. Next come the three listings: 12 keys without `dog` but with `apple` and `moon`; 12 values with `green` and `silver`; 12 pairs with (`apple`, `green`) and (`moon`, `silver`). Last, 0 with capacity 32. |

## Left out

- The load factor is a JavaScript float. It is modelled as the exact fraction `loadNum / loadDen` with natural numbers, default 3/4, and `size / capacity > loadFactor` becomes `size * loadDen > capacity * loadNum`. This agrees with the float comparison for 0.75 and for any load factor whose float is exact. A negative load factor, with which every new key would trigger a resize, is not representable. Neither is a non-finite one: with `Infinity` or `NaN` the comparison at main.js:37 is never true, so the table never grows.
- HashMaps.HashMap.Has: does not model a stored `null`. The source's `get` signals "not found" with `null`, so a key stored with the value `null` reads back as absent and `has` is false for it. The model's `Get` returns an `Option`, which keeps stored values apart from absence, so `Has` is true for every stored key.
- Keys are Dafny strings, and a character's code is its `char` value. This matches `charCodeAt` for code units; surrogate pairs and non-string keys (for which `key.length` is not a count of characters) are not modelled.
- `entries()` returns the very arrays stored in the buckets, so a caller that mutates one mutates the table. The model returns pairs as values, so that aliasing is not captured.
- `console.log` output in the demonstration becomes the out-parameters of `Scenario.Demo`.
- Scenario.Demo: does not state the full order of the keys, values and entries listings, which depends on each key's hash. It states their lengths and the keys, values and pairs the script touched.
- HashMaps.HashMap.constructor: requires `initialCapacity > 0`, and `initialCapacity` is a natural number.
  - With 0 buckets the source still constructs, and `length`, `keys`, `values`, `entries` and `clear` work.
  - `hash` then returns NaN for a non-empty key (`x % 0`) and 0 for the empty key. Either way `this.buckets[index]` is `undefined`, so `set`, `get`, `has` and `remove` throw a TypeError at main.js:24, 47, 47 and 65.
  - A negative or fractional `initialCapacity` makes `new Array(...)` throw a RangeError at main.js:6. The model's `nat` parameter excludes it rather than modelling that error.
- Value types are restricted to non-reference types (`V(!new)`). The table never inspects its values, but the restriction keeps the proofs about the ghost map small.
- Integers are unbounded. The source's numbers are doubles, but the hash is reduced modulo the capacity at every step, so its intermediate values stay far below 2^53 for any realistic capacity. Large-capacity precision loss is not modelled.
