# LRU cache model

A Dafny model of `LRUCacheImpl<K, V>`, a fixed-capacity least-recently-used
cache. The cache keeps two structures in lockstep:

- a key-to-value map (`_cache`);
- a linked list of the same keys (`_queue`), with the most recently used key at the head.

`get` promotes the key it reads. `put` either overwrites and promotes a
present key, or pushes a new key at the head. After pushing a new key it
normalises: once the map holds more than `capacity` entries, it evicts the
tail key from both structures.

The model is split into three modules:

- `Recency` (`recency.dfy`) models the recency list.
  - It covers the `LinkedList` operations the cache uses: `remove(Object)` as `RemoveFirst`, `push`, and `removeLast`.
  - It defines the cache's private `moveToFront` extension as `MoveToFront`.
  - `Without` is an independent reference definition: "every occurrence filtered out". The lemmas use it to state that the other keys keep their relative order.
- `LruCache` (`lru_cache.dfy`) models the cache itself.
  - The cache is an immutable value `Cache(capacity, m, order)`.
  - The invariant `Valid` says:
    - the capacity is positive;
    - the list has no duplicates;
    - the list's keys are exactly the map's keys;
    - there are at most `capacity` entries.
  - The runtime `check`s and `require`s become `Failure` results with an `Error` value, so that, from any state `New` produces, the model fails exactly where the code throws (the exceptions to this are listed under "Left out").
  - The JVM `assert`s of `withSizeChanged` and `withSizeEquality` become lemmas. They show that, from a valid cache, neither these asserts nor the consistency `check`s ever fire.
- `Scenarios` (`scenarios.dfy`) models histories of calls.
  - `Run` applies a sequence of `get`/`put` calls.
  - Lemmas over `Run` cover the invariant over any history and strict LRU eviction order.
  - They also cover the concrete scenarios of the unit tests.

## Model

| member | source | states |
|---|---|---|
| LruCache.New | src/main/kotlin/LRUCache.kt:7-9 | construction succeeds exactly when the capacity is positive, otherwise fails with the capacity error; a new cache is empty, valid and keeps the given capacity |
| LruCache.Get | src/main/kotlin/LRUCache.kt:19-26 | fails with the missing-key error exactly when the key is absent; on success returns the key's value, leaves the map and capacity as they were, puts the key at the head, and keeps the other keys in the same relative order (reference filter `Without`) |
| LruCache.GetPreservesValid | src/main/kotlin/LRUCache.kt:19-26 | from a valid cache `get` succeeds iff the key is present, and then the result is valid, has the same size and the list is a permutation of the old one |
| Recency.RemoveFirst | src/main/kotlin/LRUCache.kt:80 | `remove(key)` leaves a list without that key unchanged |
| Recency.RemoveFirstAt | src/main/kotlin/LRUCache.kt:80 | `remove(key)` cuts the list at the first occurrence of the key and joins the two sides |
| Recency.RemoveFirstMultiset | src/main/kotlin/LRUCache.kt:80 | `remove(key)` takes away exactly one copy of the key and nothing else |
| Recency.RemoveFirstNoDup | src/main/kotlin/LRUCache.kt:80 | on a duplicate-free list `remove(key)` agrees with the reference filter and keeps the list duplicate-free |
| Recency.WithoutRemoveFirst | src/main/kotlin/LRUCache.kt:80 | after `remove(key)` the other keys are those of the original list, in the same order |
| Recency.MoveToFront | src/main/kotlin/LRUCache.kt:79-82 | the key ends at the head; the key set gains only that key; a present key leaves length and multiset unchanged, an absent one adds one; the other keys keep their relative order; duplicate-freedom is kept |
| LruCache.Normalize | src/main/kotlin/LRUCache.kt:70-77 | within capacity the cache is unchanged; over capacity the tail key is removed from the end of the list and from the map, and every remaining entry keeps its value |
| LruCache.Put | src/main/kotlin/LRUCache.kt:28-46 | `put` can only fail through the consistency or the capacity check; it keeps the capacity, and every other key keeps its value |
| LruCache.PutExisting | src/main/kotlin/LRUCache.kt:33-36 | `put` on a present key succeeds, replaces only that key's value, promotes it, keeps the other keys' order and the size, and keeps the invariant |
| LruCache.PutNewWithRoom | src/main/kotlin/LRUCache.kt:38-42 | `put` of an absent key with room left adds the entry, pushes the key at the head of the old list, evicts nothing, grows the size by one and keeps the invariant |
| LruCache.EvictTail | src/main/kotlin/LRUCache.kt:70-77 | on a full cache, pushing a new key and normalising gives exactly the map without the old tail key and the list without its last element |
| LruCache.EvictedValid | src/main/kotlin/LRUCache.kt:38-42 | the cache left by an eviction is valid and full, and the evicted tail was a stored key other than the new one |
| LruCache.PutNewWhenFull | src/main/kotlin/LRUCache.kt:38-42 | `put` of an absent key into a full cache succeeds with exactly the old tail key evicted, the new key at the head, the other keys in order, the size at capacity and the invariant kept |
| LruCache.Size | src/main/kotlin/LRUCache.kt:11 | the private `size` property: the number of entries in the map |
| LruCache.SizesAgree | src/main/kotlin/LRUCache.kt:67 | the condition `checkEquality` tests: the map and the list have the same number of entries |
| LruCache.SizeChangedByOne | src/main/kotlin/LRUCache.kt:48-55 | the condition of the assertion in `withSizeChanged` with the default `changedBy` of 1: the size moved by exactly one, or the cache was full before |
| LruCache.ValidSizesAgree | src/main/kotlin/LRUCache.kt:66-68 | under the invariant the map and the list have the same size, which is within capacity, so `checkEquality` cannot fire |
| LruCache.SizeChecksHold | src/main/kotlin/LRUCache.kt:48-64 | from a valid cache the checks around `get` and `put` all hold: `get` and `put` of a present key keep the size, `put` of a new key changes it by one unless the cache was full, the sizes agree and stay within capacity |
| LruCache.PutPreservesValid | src/main/kotlin/LRUCache.kt:28-46 | from a valid cache `put` never fails, keeps the invariant, leaves the key at the head and maps it to the new value |
| Scenarios.RunPreservesValid | src/test/kotlin/LRUCacheTest.kt:41-50 | after any history from a valid cache the invariant holds (sizes agree, size within capacity), the only possible error is a missing key in `get`, and a history of `put`s never fails |
| Scenarios.FillWithoutEviction | src/test/kotlin/LRUCacheTest.kt:30-39 | inserting distinct new keys while there is room evicts nothing and leaves them at the front of the list, last inserted first |
| Scenarios.EvictsFirstInserted | src/main/kotlin/LRUCache.kt:38-42 | with capacity N, inserting N + 1 distinct keys into a new cache evicts exactly the first one: it is absent, all the others are present, in reverse insertion order |
| Scenarios.ConstructionScenarios | src/test/kotlin/LRUCacheTest.kt:7-19 | capacities -2, -1 and 0 are refused with the capacity error; 1 and 2 are accepted |
| Scenarios.MissingReadTestAsWritten | src/test/kotlin/LRUCacheTest.kt:52-59 | the missing-read test's cache of capacity -2 already fails at construction, with the capacity error and not the missing-key one |
| Scenarios.NeverInserted | src/main/kotlin/LRUCache.kt:21 | after any history in which no `put` names a key that was absent at the start, the key is still absent and reading it fails with the missing-key error |
| Scenarios.GetOnEmptyFails | src/main/kotlin/LRUCache.kt:21 | reading any key from a new cache fails with the missing-key error |
| Scenarios.TwoPuts | src/test/kotlin/LRUCacheTest.kt:64-66 | `put(a, 1)`, `put(b, 2)` on a new cache of capacity 2 gives {a: 1, b: 2} with b at the head |
| Scenarios.ReadPromotes | src/test/kotlin/LRUCacheTest.kt:67-68 | `get(a)` on that cache returns 1 and moves a to the head, the map unchanged |
| Scenarios.InsertEvictsTail | src/main/kotlin/LRUCache.kt:38-42 | `put(d, 3)` on the full cache with order a, b evicts b and leaves {a: 1, d: 3} with order d, a |
| Scenarios.PromotionOnRead | src/test/kotlin/LRUCacheTest.kt:62-70 | the whole history `put(a, 1)`, `put(b, 2)`, `get(a)`, `put(d, 3)` on capacity 2 ends with {a: 1, d: 3}, order d, a: reading a saved it from eviction |
| Scenarios.UpdateDoesNotGrow | src/main/kotlin/LRUCache.kt:33-36 | `put(a, 1)`, `put(a, 2)` leaves one entry, and `get(a)` then returns 2 |

## Left out

- Null checks (`require(key != null)`, `require(value != null)`): the generic model cannot test a key or value for null, so these two checks are dropped. When the instantiating type has a null value, a null key or value is accepted where the code throws.
- Keys are compared by mathematical equality. The code relies on each key's `equals` and `hashCode` agreeing, and on keys not changing while stored; otherwise `HashMap.containsKey` and `LinkedList.remove(Object)` could disagree. The model assumes both.
- Exception classes and messages are out of scope. Each error becomes one `Error` constructor, and the comments on `Error` say which exception the code raises.
- The JVM `assert` mechanism is not modelled; its conditions become lemmas (`SizeChecksHold`). Whether assertions are enabled at run time does not matter, since the lemmas show the conditions always hold.
- The `queue` and `cache` getters return defensive copies. In the model the state is an immutable value, so its fields `order` and `m` already are those snapshots.
- LruCache.Put: a failure drops the partly updated cache. The code throws from its final checks only after mutating, and the model does not keep that half-updated state. The lemmas show these checks never fire from a valid cache.
- LruCache.Get: for the same reason, a `SizesDiffer` failure after the promotion does not return the mutated list. A missing key fails before any change, as in the code.
- A failed call never produces a new cache, so the caller keeps the old one unchanged.
- LruCache.Normalize requires that the map is within capacity or the list is non-empty, because `removeLast` throws on an empty list. Every call inside `Put` meets this.
- Kotlin's 32-bit `Int` for the capacity and the sizes is modelled as an unbounded `int`, and 32-bit wrap-around is not modelled. During a `put` of a new key, the map and list briefly hold `capacity + 1` entries: the entry is stored and the key pushed before `normalize` runs. With `capacity` equal to `Int.MAX_VALUE`, that extra entry would make the JVM's `int` sizes wrap to a negative value. `normalize` would then see `size <= capacity` and evict nothing, whereas the model evicts the tail. This needs 2^31 live entries, so it is out of reach in practice but not impossible.
- Performance is not modelled: the linear `remove` scan and the O(1) redesign are out of scope.
- The test helper `LRUCacheFactory` and the JUnit test runner are left out.
- The unit tests use string keys `"KEY"`, `"ANOTHER_KEY"`, `"1"`, …; the scenario lemmas use arbitrary distinct keys of any type instead.
- Scenarios.PromotionOnRead states the final state of the whole history. The intermediate `get(a)` result (value 1, `a` at the head) is stated by `Scenarios.TwoPuts` and `Scenarios.ReadPromotes`.
- A key that was evicted reads like one never inserted. This follows from `Scenarios.EvictsFirstInserted`, which shows the key is absent, together with `LruCache.GetPreservesValid`; there is no separate lemma for it.

## Findings

| source | as written | input that shows it | evidently intended | confidence | as-written member | corrected member |
|---|---|---|---|---|---|---|
| src/test/kotlin/LRUCacheTest.kt:52-59 | the missing-read test builds its cache with capacity -2 and expects `IllegalArgumentException`, so the constructor's `require` raises it and `get(KEY)` is never called | the test's own history: capacity -2, then `get("KEY")` | on a valid cache, `get` of an absent key fails with the missing-key `check` (an `IllegalStateException`) | high, not executed | Scenarios.MissingReadTestAsWritten | Scenarios.GetOnEmptyFails |
