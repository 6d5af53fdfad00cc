/**
 `LRUCacheImpl<K, V>`: a fixed-capacity least-recently-used cache built
 from a key-to-value map and a recency list of the same keys, most recently
 used first. The cache is an immutable value here; every operation returns
 the next value of the cache instead of mutating it.

 The source's runtime `check`s are kept as error results, so that the model
 fails where the code throws. The lemmas below show that from a valid cache
 only the missing-key check of `get` can ever fire; the consistency checks
 and the JVM `assert`s in `withSizeChanged` / `withSizeEquality` always hold.
 */
module LruCache {
  import opened Recency

  /** Why an operation throws. */
  datatype Error =
    | CapacityNotPositive  // `require(capacity > 0)` in `init`: IllegalArgumentException
    | KeyNotFound          // `check(_cache.containsKey(key))` in `get`: IllegalStateException
    | SizesDiffer          // `checkEquality`: map and list sizes differ
    | OverCapacity         // `check(size <= capacity)` at the end of `put`

  datatype Result<+T> = Success(value: T) | Failure(error: Error)

  /**
   The cache state: `capacity` is the constructor argument, `m` is `_cache`
   (exposed by the `cache` getter) and `order` is `_queue` (exposed by the
   `queue` getter), head first.
   */
  datatype Cache<K, V> = Cache(capacity: int, m: map<K, V>, order: seq<K>)

  /** What a successful `get` yields: the value and the cache after promotion. */
  datatype Hit<K, V> = Hit(found: V, next: Cache<K, V>)

  /** The private `size` property: the number of entries in the map. */
  function Size<K, V>(c: Cache<K, V>): nat {
    |c.m|
  }

  /** The condition `checkEquality` tests. */
  predicate SizesAgree<K, V>(c: Cache<K, V>) {
    |c.m| == |c.order|
  }

  /**
   The class invariant: a positive capacity, the list holds exactly the
   map's keys, each once, and there are at most `capacity` entries.
   */
  predicate Valid<K, V>(c: Cache<K, V>) {
    && c.capacity > 0
    && NoDup(c.order)
    && Elems(c.order) == c.m.Keys
    && |c.m| <= c.capacity
  }

  /** Under the invariant the two structures have the same size. */
  lemma ValidSizesAgree<K, V>(c: Cache<K, V>)
    requires Valid(c)
    ensures SizesAgree(c)
    ensures |c.order| <= c.capacity
  {
    NoDupCard(c.order);
  }

  /** The constructor: an empty cache, or failure for a non-positive capacity. */
  function New<K, V>(capacity: int): (r: Result<Cache<K, V>>)
    ensures r.Success? <==> capacity > 0
    ensures r.Failure? ==> r.error == CapacityNotPositive
    ensures r.Success? ==> Valid(r.value) && Size(r.value) == 0 && r.value.order == []
    ensures r.Success? ==> r.value.capacity == capacity
  {
    if capacity > 0 then Success(Cache(capacity, map[], [])) else Failure(CapacityNotPositive)
  }

  /**
   `get`: fails when the key is absent (before any change); otherwise
   promotes the key to the head of the list and returns its value. The map
   is left as it was.
   */
  function Get<K, V>(c: Cache<K, V>, k: K): (r: Result<Hit<K, V>>)
    ensures r.Failure? && r.error == KeyNotFound <==> k !in c.m
    ensures r.Failure? ==> r.error in {KeyNotFound, SizesDiffer}
    ensures r.Success? ==> r.value.found == c.m[k]
    ensures r.Success? ==> r.value.next.m == c.m && r.value.next.capacity == c.capacity
    ensures r.Success? ==> |r.value.next.order| > 0 && r.value.next.order[0] == k
    ensures r.Success? ==> Without(r.value.next.order, k) == Without(c.order, k)
  {
    if k !in c.m then Failure(KeyNotFound)
    else
      var next := c.(order := MoveToFront(c.order, k));
      if !SizesAgree(next) then Failure(SizesDiffer) else Success(Hit(c.m[k], next))
  }

  /**
   `normalize`: once the map holds more than `capacity` entries, the tail of
   the list is removed from the list and from the map. `removeLast` throws on
   an empty list, hence the precondition.
   */
  function Normalize<K, V>(c: Cache<K, V>): (r: Cache<K, V>)
    requires |c.m| <= c.capacity || |c.order| > 0
    ensures r.capacity == c.capacity
    ensures |c.m| <= c.capacity ==> r == c
    ensures |c.m| > c.capacity ==> r.order + [Last(c.order)] == c.order
    ensures |c.m| > c.capacity ==> r.m.Keys == c.m.Keys - {Last(c.order)}
    ensures forall key | key in r.m :: key in c.m && r.m[key] == c.m[key]
  {
    if |c.m| <= c.capacity then c
    else
      var tail := Last(c.order);
      Cache(c.capacity, c.m - {tail}, c.order[..|c.order| - 1])
  }

  /**
   `put`: an existing key gets its new value and is promoted; a new key is
   pushed at the head and the cache normalised. Either way the consistency
   check and the final size check run before returning.
   */
  function Put<K, V>(c: Cache<K, V>, k: K, v: V): (r: Result<Cache<K, V>>)
    ensures r.Failure? ==> r.error in {SizesDiffer, OverCapacity}
    ensures r.Success? ==> r.value.capacity == c.capacity
    ensures r.Success? ==> forall key | key in r.value.m && key != k :: key in c.m && r.value.m[key] == c.m[key]
  {
    var next :=
      if k in c.m then c.(m := c.m[k := v], order := MoveToFront(c.order, k))
      else Normalize(c.(m := c.m[k := v], order := [k] + c.order));
    if !SizesAgree(next) then Failure(SizesDiffer)
    else if Size(next) > c.capacity then Failure(OverCapacity)
    else Success(next)
  }

  /**
   From a valid cache `get` fails exactly on a missing key, and a
   successful `get` keeps the invariant, the size and the list's contents.
   */
  lemma GetPreservesValid<K, V>(c: Cache<K, V>, k: K)
    requires Valid(c)
    ensures Get(c, k).Success? <==> k in c.m
    ensures Get(c, k).Success? ==> Valid(Get(c, k).value.next)
    ensures Get(c, k).Success? ==> Size(Get(c, k).value.next) == Size(c)
    ensures Get(c, k).Success? ==> multiset(Get(c, k).value.next.order) == multiset(c.order)
  {
    ValidSizesAgree(c);
    if k in c.m {
      var next := c.(order := MoveToFront(c.order, k));
      assert k in c.order by {
        assert k in Elems(c.order);
      }
      assert Valid(next);
      ValidSizesAgree(next);
    }
  }

  /**
   `put` on a present key: succeeds, replaces that key's value and nothing
   else in the map, promotes the key, keeps the other keys' order, keeps the
   size (no eviction) and keeps the invariant.
   */
  lemma PutExisting<K, V>(c: Cache<K, V>, k: K, v: V)
    requires Valid(c) && k in c.m
    ensures Put(c, k, v).Success?
    ensures Put(c, k, v).value.m == c.m[k := v]
    ensures Put(c, k, v).value.order[0] == k
    ensures Without(Put(c, k, v).value.order, k) == Without(c.order, k)
    ensures Size(Put(c, k, v).value) == Size(c)
    ensures Valid(Put(c, k, v).value)
  {
    assert k in c.order by {
      assert k in Elems(c.order);
    }
    var next := c.(m := c.m[k := v], order := MoveToFront(c.order, k));
    assert next.m.Keys == c.m.Keys;
    assert Valid(next);
    ValidSizesAgree(next);
  }

  /**
   `put` on an absent key into a cache with room: the entry is added and
   the key pushed at the head; nothing is evicted and the size grows by one.
   */
  lemma PutNewWithRoom<K, V>(c: Cache<K, V>, k: K, v: V)
    requires Valid(c) && k !in c.m && Size(c) < c.capacity
    ensures Put(c, k, v).Success?
    ensures Put(c, k, v).value.m == c.m[k := v]
    ensures Put(c, k, v).value.m.Keys == c.m.Keys + {k}
    ensures Put(c, k, v).value.order == [k] + c.order
    ensures Size(Put(c, k, v).value) == Size(c) + 1
    ensures Valid(Put(c, k, v).value)
  {
    assert k !in c.order by {
      assert k !in Elems(c.order);
    }
    ConsNoDup(k, c.order);
    var next := c.(m := c.m[k := v], order := [k] + c.order);
    assert Elems(next.order) == next.m.Keys;
    assert Valid(next);
    ValidSizesAgree(next);
  }

  /**
   Pushing a new key onto a full cache and normalizing drops exactly the
   tail key, from the map and from the end of the list.
   */
  lemma EvictTail<K, V>(c: Cache<K, V>, k: K, v: V)
    requires Valid(c) && k !in c.m && Size(c) == c.capacity
    ensures |c.order| > 0
    ensures Normalize(c.(m := c.m[k := v], order := [k] + c.order))
      == Cache(c.capacity, c.m[k := v] - {Last(c.order)}, [k] + c.order[..|c.order| - 1])
  {
  }

  /** The cache left by an eviction is valid and still full. */
  lemma EvictedValid<K, V>(c: Cache<K, V>, k: K, v: V)
    requires Valid(c) && k !in c.m && Size(c) == c.capacity
    ensures |c.order| > 0 && Last(c.order) in c.m && Last(c.order) != k
    ensures Valid(Cache(c.capacity, c.m[k := v] - {Last(c.order)}, [k] + c.order[..|c.order| - 1]))
    ensures |c.m[k := v] - {Last(c.order)}| == c.capacity
  {
  }

  /**
   `put` on an absent key into a full cache: the key is pushed at the head
   and exactly the old tail key is evicted from both the list and the map;
   every other entry stays, and the size stays at the capacity.
   */
  lemma PutNewWhenFull<K, V>(c: Cache<K, V>, k: K, v: V)
    requires Valid(c) && k !in c.m && Size(c) == c.capacity
    ensures |c.order| > 0 && Last(c.order) in c.m && Last(c.order) != k
    ensures Put(c, k, v)
      == Success(Cache(c.capacity, c.m[k := v] - {Last(c.order)}, [k] + c.order[..|c.order| - 1]))
    ensures Valid(Put(c, k, v).value) && Size(Put(c, k, v).value) == c.capacity
  {
    EvictTail(c, k, v);
    EvictedValid(c, k, v);
    var next := Cache(c.capacity, c.m[k := v] - {Last(c.order)}, [k] + c.order[..|c.order| - 1]);
    ValidSizesAgree(next);
    assert Put(c, k, v) == Success(next);
  }

  /**
   The condition of the JVM assertion in `withSizeChanged`, with its
   default `changedBy` of 1: the size moved by exactly one, or the cache was
   already full before the call.
   */
  predicate SizeChangedByOne(preSize: int, size: int, capacity: int) {
    (if size >= preSize then size - preSize else preSize - size) == 1 || preSize == capacity
  }

  /**
   The size checks wrapped around `get` and `put` never fire from a valid
   cache: `get` and `put` on a present key keep the size, `put` on a new key
   changes it by one unless the cache was full, and the result is within
   capacity with map and list of equal size.
   */
  lemma SizeChecksHold<K, V>(c: Cache<K, V>, k: K, v: V)
    requires Valid(c)
    ensures Put(c, k, v).Success?
    ensures SizesAgree(Put(c, k, v).value) && Size(Put(c, k, v).value) <= c.capacity
    ensures k in c.m ==> Size(Get(c, k).value.next) == Size(c)
    ensures k in c.m ==> Size(Put(c, k, v).value) == Size(c)
    ensures k !in c.m ==> SizeChangedByOne(Size(c), Size(Put(c, k, v).value), c.capacity)
  {
    GetPreservesValid(c, k);
    if k in c.m {
      PutExisting(c, k, v);
    } else if Size(c) < c.capacity {
      PutNewWithRoom(c, k, v);
    } else {
      PutNewWhenFull(c, k, v);
    }
    ValidSizesAgree(Put(c, k, v).value);
  }

  /** From a valid cache `put` always succeeds and keeps the invariant. */
  lemma PutPreservesValid<K, V>(c: Cache<K, V>, k: K, v: V)
    requires Valid(c)
    ensures Put(c, k, v).Success?
    ensures Valid(Put(c, k, v).value)
    ensures Put(c, k, v).value.order[0] == k
    ensures Put(c, k, v).value.m[k] == v
  {
    if k in c.m {
      PutExisting(c, k, v);
    } else if Size(c) < c.capacity {
      PutNewWithRoom(c, k, v);
    } else {
      PutNewWhenFull(c, k, v);
    }
  }
}
