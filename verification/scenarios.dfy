/**
 Sequences of calls on one cache, as a caller (or the unit tests) would
 make them: the invariant and the size bound hold after every history, the
 first of `capacity + 1` distinct inserted keys is the one evicted, and the
 concrete scenarios of the unit tests come out as the tests expect.
 */
module Scenarios {
  import opened Recency
  import opened LruCache

  /** One public call on the cache. */
  datatype Call<K, V> = GetCall(key: K) | PutCall(key: K, value: V)

  /** The cache after one call, or the error the call throws. */
  function Step<K, V>(c: Cache<K, V>, call: Call<K, V>): Result<Cache<K, V>> {
    match call
    case GetCall(k) =>
      (match Get(c, k)
       case Success(hit) => Success(hit.next)
       case Failure(e) => Failure(e))
    case PutCall(k, v) => Put(c, k, v)
  }

  /** The cache after a history of calls; the first throwing call ends it. */
  function Run<K, V>(c: Cache<K, V>, calls: seq<Call<K, V>>): Result<Cache<K, V>>
    decreases |calls|
  {
    if calls == [] then Success(c)
    else
      match Step(c, calls[0])
      case Failure(e) => Failure(e)
      case Success(next) => Run(next, calls[1..])
  }

  /** Every call of the history is a `put`. */
  predicate OnlyPuts<K, V>(calls: seq<Call<K, V>>) {
    forall i | 0 <= i < |calls| :: calls[i].PutCall?
  }

  /**
   Over any history from a valid cache the invariant holds at the end (so
   the list and the map agree and the size is within capacity), the only
   error ever raised is a missing key in `get`, and a history of `put`s
   never fails.
   */
  lemma {:induction false} RunPreservesValid<K, V>(c: Cache<K, V>, calls: seq<Call<K, V>>)
    requires Valid(c)
    decreases |calls|
    ensures Run(c, calls).Success? ==> Valid(Run(c, calls).value)
    ensures Run(c, calls).Success? ==> Run(c, calls).value.capacity == c.capacity
    ensures Run(c, calls).Failure? ==> Run(c, calls).error == KeyNotFound
    ensures OnlyPuts(calls) ==> Run(c, calls).Success?
  {
    if calls != [] {
      var rest := calls[1..];
      assert OnlyPuts(calls) ==> OnlyPuts(rest) by {
        if OnlyPuts(calls) {
          forall i | 0 <= i < |rest| ensures rest[i].PutCall? {
            assert rest[i] == calls[i + 1];
          }
        }
      }
      match calls[0]
      case GetCall(k) =>
        GetPreservesValid(c, k);
        if k in c.m {
          RunPreservesValid(Get(c, k).value.next, rest);
        }
      case PutCall(k, v) =>
        PutPreservesValid(c, k, v);
        RunPreservesValid(Put(c, k, v).value, rest);
    }
  }

  /** Running two histories one after the other. */
  lemma {:induction false} RunAppend<K, V>(c: Cache<K, V>, a: seq<Call<K, V>>, b: seq<Call<K, V>>)
    ensures Run(c, a).Success? ==> Run(c, a + b) == Run(Run(c, a).value, b)
    ensures Run(c, a).Failure? ==> Run(c, a + b) == Run(c, a)
    decreases |a|
  {
    if a == [] {
      assert a + b == b;
    } else {
      assert (a + b)[0] == a[0];
      assert (a + b)[1..] == a[1..] + b;
      match Step(c, a[0])
      case Failure(e) =>
      case Success(next) => RunAppend(next, a[1..], b);
    }
  }

  /** Running a history whose first call succeeds. */
  lemma RunFirst<K, V>(c: Cache<K, V>, calls: seq<Call<K, V>>, next: Cache<K, V>)
    requires |calls| > 0 && Step(c, calls[0]) == Success(next)
    ensures Run(c, calls) == Run(next, calls[1..])
  {
  }

  /** The keys of a list of entries, in order. */
  function Keys<K, V>(kvs: seq<(K, V)>): seq<K> {
    seq(|kvs|, i requires 0 <= i < |kvs| => kvs[i].0)
  }

  lemma KeysCons<K, V>(kvs: seq<(K, V)>)
    requires |kvs| > 0
    ensures Keys(kvs) == [kvs[0].0] + Keys(kvs[1..])
  {
  }

  /** One `put` per entry, in order. */
  function Puts<K, V>(kvs: seq<(K, V)>): seq<Call<K, V>> {
    seq(|kvs|, i requires 0 <= i < |kvs| => PutCall(kvs[i].0, kvs[i].1))
  }

  /** The first of a run of fresh inserts into a cache with room for all of them. */
  lemma FirstFreshPut<K, V>(c: Cache<K, V>, kvs: seq<(K, V)>)
    requires Valid(c)
    requires NoDup(Keys(kvs))
    requires forall i | 0 <= i < |kvs| :: kvs[i].0 !in c.m
    requires 0 < |kvs| && Size(c) + |kvs| <= c.capacity
    ensures Put(c, kvs[0].0, kvs[0].1).Success?
    ensures Run(c, Puts(kvs)) == Run(Put(c, kvs[0].0, kvs[0].1).value, Puts(kvs[1..]))
    ensures Valid(Put(c, kvs[0].0, kvs[0].1).value)
    ensures Put(c, kvs[0].0, kvs[0].1).value.order == [kvs[0].0] + c.order
    ensures Put(c, kvs[0].0, kvs[0].1).value.m.Keys == c.m.Keys + {kvs[0].0}
    ensures Put(c, kvs[0].0, kvs[0].1).value.capacity == c.capacity
    ensures NoDup(Keys(kvs[1..]))
    ensures forall i | 0 <= i < |kvs[1..]| :: kvs[1..][i].0 !in Put(c, kvs[0].0, kvs[0].1).value.m
  {
    var k, v := kvs[0].0, kvs[0].1;
    var tail := kvs[1..];
    var ks := Keys(kvs);
    NoDupTail(ks);
    assert ks[1..] == Keys(tail);
    PutNewWithRoom(c, k, v);
    var next := Put(c, k, v).value;
    assert Puts(kvs)[0] == PutCall(k, v);
    assert Puts(kvs)[1..] == Puts(tail);
    forall i | 0 <= i < |tail| ensures tail[i].0 !in next.m {
      assert tail[i].0 == ks[i + 1] && kvs[i + 1] == tail[i];
    }
    RunFirst(c, Puts(kvs), next);
  }

  /**
   Inserting new, distinct keys while there is room evicts nothing: the
   keys end up at the front of the list, last inserted first.
   */
  lemma {:induction false} FillWithoutEviction<K, V>(c: Cache<K, V>, kvs: seq<(K, V)>)
    requires Valid(c)
    requires NoDup(Keys(kvs))
    requires forall i | 0 <= i < |kvs| :: kvs[i].0 !in c.m
    requires Size(c) + |kvs| <= c.capacity
    decreases |kvs|
    ensures Run(c, Puts(kvs)).Success?
    ensures Run(c, Puts(kvs)).value.order == Reverse(Keys(kvs)) + c.order
    ensures Valid(Run(c, Puts(kvs)).value)
    ensures Run(c, Puts(kvs)).value.capacity == c.capacity
  {
    if kvs != [] {
      var k, tail := kvs[0].0, kvs[1..];
      FirstFreshPut(c, kvs);
      var next := Put(c, k, kvs[0].1).value;
      FillWithoutEviction(next, tail);
      KeysCons(kvs);
      ReverseCons(k, Keys(tail));
      ConcatAssoc(Reverse(Keys(tail)), [k], c.order);
    }
  }

  /**
   Strict LRU eviction order: with capacity N, inserting N + 1 distinct keys
   into a new cache with no reads in between evicts the first key inserted
   and keeps the other N.
   */
  lemma EvictsFirstInserted<K, V>(capacity: int, kvs: seq<(K, V)>)
    requires capacity > 0
    requires |kvs| == capacity + 1
    requires NoDup(Keys(kvs))
    ensures New<K, V>(capacity).Success?
    ensures Run(New<K, V>(capacity).value, Puts(kvs)).Success?
    ensures Valid(Run(New<K, V>(capacity).value, Puts(kvs)).value)
    ensures Run(New<K, V>(capacity).value, Puts(kvs)).value.order == Reverse(Keys(kvs)[1..])
    ensures kvs[0].0 !in Run(New<K, V>(capacity).value, Puts(kvs)).value.m
    ensures forall i | 1 <= i < |kvs| :: kvs[i].0 in Run(New<K, V>(capacity).value, Puts(kvs)).value.m
  {
    var c0 := New<K, V>(capacity).value;
    var last := kvs[capacity];
    FillToCapacity(c0, kvs);
    var full := Run(c0, Puts(kvs[..capacity])).value;
    RunLastPut(c0, kvs);
    PutNewWhenFull(full, last.0, last.1);
    var final := Put(full, last.0, last.1).value;
    EvictionOrder(kvs, full.order, final.order);
    forall i | 1 <= i < |kvs| ensures kvs[i].0 in final.m {
      assert kvs[i].0 in Elems(final.order);
    }
  }

  /** A history of `put`s whose prefix succeeds ends with the last `put`. */
  lemma RunLastPut<K, V>(c: Cache<K, V>, kvs: seq<(K, V)>)
    requires |kvs| > 0
    requires Run(c, Puts(kvs[..|kvs| - 1])).Success?
    ensures Run(c, Puts(kvs)) == Put(Run(c, Puts(kvs[..|kvs| - 1])).value, kvs[|kvs| - 1].0, kvs[|kvs| - 1].1)
  {
    var n := |kvs| - 1;
    var call := PutCall(kvs[n].0, kvs[n].1);
    PutsSnoc(kvs);
    RunAppend(c, Puts(kvs[..n]), [call]);
    RunSingle(Run(c, Puts(kvs[..n])).value, call);
  }

  /** The `put`s of a list of entries end with the `put` of its last entry. */
  lemma PutsSnoc<K, V>(kvs: seq<(K, V)>)
    requires |kvs| > 0
    ensures Puts(kvs) == Puts(kvs[..|kvs| - 1]) + [PutCall(kvs[|kvs| - 1].0, kvs[|kvs| - 1].1)]
  {
  }

  /** A history of one call is that call. */
  lemma RunSingle<K, V>(c: Cache<K, V>, call: Call<K, V>)
    ensures Run(c, [call]) == Step(c, call)
  {
  }

  /** Filling a new cache of capacity N with the first N of N + 1 distinct keys. */
  lemma FillToCapacity<K, V>(c0: Cache<K, V>, kvs: seq<(K, V)>)
    requires Valid(c0) && Size(c0) == 0 && c0.order == []
    requires |kvs| == c0.capacity + 1
    requires NoDup(Keys(kvs))
    ensures Run(c0, Puts(kvs[..c0.capacity])).Success?
    ensures Valid(Run(c0, Puts(kvs[..c0.capacity])).value)
    ensures Size(Run(c0, Puts(kvs[..c0.capacity])).value) == c0.capacity
    ensures Run(c0, Puts(kvs[..c0.capacity])).value.capacity == c0.capacity
    ensures Run(c0, Puts(kvs[..c0.capacity])).value.order == Reverse(Keys(kvs[..c0.capacity]))
    ensures kvs[c0.capacity].0 !in Run(c0, Puts(kvs[..c0.capacity])).value.m
  {
    var n := c0.capacity;
    var first := kvs[..n];
    assert Keys(first) == Keys(kvs)[..n];
    assert NoDup(Keys(first)) by {
      forall i, j | 0 <= i < j < |Keys(first)| ensures Keys(first)[i] != Keys(first)[j] {
        assert Keys(first)[i] == Keys(kvs)[i] && Keys(first)[j] == Keys(kvs)[j];
      }
    }
    FillWithoutEviction(c0, first);
    var full := Run(c0, Puts(first)).value;
    assert full.order == Reverse(Keys(first));
    ValidSizesAgree(full);
    assert kvs[n].0 !in full.order by {
      forall i | 0 <= i < n ensures full.order[i] != kvs[n].0 {
        assert full.order[i] == Keys(first)[n - 1 - i] == Keys(kvs)[n - 1 - i];
        assert Keys(kvs)[n] == kvs[n].0;
      }
    }
    assert kvs[n].0 !in Elems(full.order);
  }

  /**
   The list after the eviction: pushing key N and dropping the tail of the
   reversed first N keys gives the reversed last N keys.
   */
  lemma EvictionOrder<K, V>(kvs: seq<(K, V)>, full: seq<K>, final: seq<K>)
    requires |kvs| >= 2
    requires full == Reverse(Keys(kvs[..|kvs| - 1]))
    requires final == [kvs[|kvs| - 1].0] + full[..|full| - 1]
    ensures final == Reverse(Keys(kvs)[1..])
    ensures Last(full) == kvs[0].0
    ensures forall i | 1 <= i < |kvs| :: kvs[i].0 in final
  {
    var n := |kvs| - 1;
    var ks := Keys(kvs);
    var firstKeys := Keys(kvs[..n]);
    var rest := ks[1..];
    var expected := Reverse(rest);
    assert |final| == |expected| == |firstKeys| == n;
    forall i | 0 <= i < n ensures final[i] == expected[i] {
      assert expected[i] == rest[n - 1 - i] == ks[n - i];
      if i == 0 {
        assert final[0] == kvs[n].0;
      } else {
        assert final[i] == full[i - 1] == firstKeys[n - i] == kvs[n - i].0;
      }
    }
    assert full[n - 1] == firstKeys[0] == kvs[0].0;
    forall i | 1 <= i < |kvs| ensures kvs[i].0 in final {
      assert final[n - i] == expected[n - i] == ks[i];
    }
  }

  /** The constructor test cases: capacities -2, -1 and 0 are refused, 1 and 2 accepted. */
  lemma ConstructionScenarios()
    ensures New<string, int>(-2) == Failure(CapacityNotPositive)
    ensures New<string, int>(-1) == Failure(CapacityNotPositive)
    ensures New<string, int>(0) == Failure(CapacityNotPositive)
    ensures New<string, int>(1).Success? && New<string, int>(2).Success?
  {
  }

  /**
   The missing-read unit test as it stands builds its cache with capacity
   -2, so the exception it sees comes from the constructor and `get` is
   never reached.
   */
  lemma MissingReadTestAsWritten<K>()
    ensures New<K, int>(-2) == Failure(CapacityNotPositive)
    ensures New<K, int>(-2).error != KeyNotFound
  {
  }

  /** Reading a key from a new cache fails with a missing key. */
  lemma GetOnEmptyFails<K, V>(capacity: int, k: K)
    requires capacity > 0
    ensures New<K, V>(capacity).Success?
    ensures Get(New<K, V>(capacity).value, k) == Failure(KeyNotFound)
  {
  }

  /**
   A key that no `put` of a history names is never stored by it, so reading
   it after the history fails with a missing key, whatever else was read or
   written in between.
   */
  lemma {:induction false} NeverInserted<K, V>(c: Cache<K, V>, calls: seq<Call<K, V>>, x: K)
    requires x !in c.m
    requires forall i | 0 <= i < |calls| :: !(calls[i].PutCall? && calls[i].key == x)
    decreases |calls|
    ensures Run(c, calls).Success? ==> x !in Run(c, calls).value.m
    ensures Run(c, calls).Success? ==> Get(Run(c, calls).value, x) == Failure(KeyNotFound)
  {
    if calls != [] {
      var rest := calls[1..];
      forall i | 0 <= i < |rest| ensures !(rest[i].PutCall? && rest[i].key == x) {
        assert rest[i] == calls[i + 1];
      }
      match Step(c, calls[0])
      case Failure(e) =>
      case Success(next) =>
        assert x !in next.m;
        RunFirst(c, calls, next);
        NeverInserted(next, rest, x);
    }
  }

  /** The cache of the promotion scenario after `put(a, 1)` and `put(b, 2)`. */
  lemma TwoPuts<K>(a: K, b: K)
    requires a != b
    ensures New<K, int>(2).Success?
    ensures Run(New<K, int>(2).value, [PutCall(a, 1), PutCall(b, 2)])
      == Success(Cache(2, map[a := 1, b := 2], [b, a]))
  {
    var c0 := New<K, int>(2).value;
    PutNewWithRoom(c0, a, 1);
    var c1 := Put(c0, a, 1).value;
    assert c1 == Cache(2, map[a := 1], [a]);
    PutNewWithRoom(c1, b, 2);
    var c2 := Put(c1, b, 2).value;
    assert c2 == Cache(2, map[a := 1, b := 2], [b, a]);
    RunFirst(c0, [PutCall(a, 1), PutCall(b, 2)], c1);
    RunFirst(c1, [PutCall(b, 2)], c2);
  }

  /** `get(a)` on the cache holding b, a: returns 1 and promotes a. */
  lemma ReadPromotes<K>(a: K, b: K)
    requires a != b
    ensures Get(Cache(2, map[a := 1, b := 2], [b, a]), a)
      == Success(Hit(1, Cache(2, map[a := 1, b := 2], [a, b])))
  {
    assert RemoveFirst([a], a) == [];
    assert RemoveFirst([b, a], a) == [b] + RemoveFirst([a], a);
    assert MoveToFront([b, a], a) == [a, b];
    assert |map[a := 1, b := 2]| == 2 by {
      assert map[a := 1, b := 2].Keys == {a, b};
    }
    assert map[a := 1, b := 2][a] == 1;
  }

  /** `put(d, 3)` on the full cache holding a, b: evicts b. */
  lemma InsertEvictsTail<K>(a: K, b: K, d: K)
    requires a != b && a != d && b != d
    ensures Put(Cache(2, map[a := 1, b := 2], [a, b]), d, 3)
      == Success(Cache(2, map[a := 1, d := 3], [d, a]))
  {
    var m := map[a := 1, b := 2];
    var pushed := Cache(2, m[d := 3], [d, a, b]);
    assert m[d := 3].Keys == {a, b, d};
    assert |m[d := 3]| == 3;
    assert Last(pushed.order) == b;
    assert m[d := 3] - {b} == map[a := 1, d := 3];
    assert map[a := 1, d := 3].Keys == {a, d};
    assert |map[a := 1, d := 3]| == 2;
    assert [d, a, b][..2] == [d, a];
    assert [d] + [a, b] == [d, a, b];
    assert Normalize(pushed) == Cache(2, map[a := 1, d := 3], [d, a]);
  }

  /**
   Promotion on read, with capacity 2 and distinct keys a, b, d: after
   `put(a, 1)`, `put(b, 2)`, `get(a)` (which returns 1 and moves a to the
   head, see `TwoPuts` and `ReadPromotes`), a `put(d, 3)` evicts b, leaving
   {a: 1, d: 3} in the order d, a.
   */
  lemma PromotionOnRead<K>(a: K, b: K, d: K)
    requires a != b && a != d && b != d
    ensures New<K, int>(2).Success?
    ensures Run(New<K, int>(2).value, [PutCall(a, 1), PutCall(b, 2), GetCall(a), PutCall(d, 3)])
      == Success(Cache(2, map[a := 1, d := 3], [d, a]))
  {
    var c0 := New<K, int>(2).value;
    var c2 := Cache(2, map[a := 1, b := 2], [b, a]);
    var c3 := Cache(2, map[a := 1, b := 2], [a, b]);
    var c4 := Cache(2, map[a := 1, d := 3], [d, a]);
    TwoPuts(a, b);
    ReadPromotes(a, b);
    InsertEvictsTail(a, b, d);
    SplitFour(PutCall(a, 1), PutCall(b, 2), GetCall(a), PutCall(d, 3));
    RunAppend(c0, [PutCall(a, 1), PutCall(b, 2)], [GetCall(a), PutCall(d, 3)]);
    RunFirst(c2, [GetCall(a), PutCall(d, 3)], c3);
    RunSingle(c3, PutCall(d, 3));
  }

  /** A history of four calls is its first two followed by its last two. */
  lemma SplitFour<T>(w: T, x: T, y: T, z: T)
    ensures [w, x, y, z] == [w, x] + [y, z]
  {
  }

  /** Updating a key does not grow the cache: `put(A, 1)`, `put(A, 2)` leaves one entry, and `get(A)` returns 2. */
  lemma UpdateDoesNotGrow<K>(capacity: int, a: K)
    requires capacity > 0
    ensures New<K, int>(capacity).Success?
    ensures Run(New<K, int>(capacity).value, [PutCall(a, 1), PutCall(a, 2)]).Success?
    ensures Size(Run(New<K, int>(capacity).value, [PutCall(a, 1), PutCall(a, 2)]).value) == 1
    ensures Get(Run(New<K, int>(capacity).value, [PutCall(a, 1), PutCall(a, 2)]).value, a).Success?
    ensures Get(Run(New<K, int>(capacity).value, [PutCall(a, 1), PutCall(a, 2)]).value, a).value.found == 2
  {
    var c0 := New<K, int>(capacity).value;
    PutNewWithRoom(c0, a, 1);
    var c1 := Put(c0, a, 1).value;
    PutExisting(c1, a, 2);
    var c2 := Put(c1, a, 2).value;
    assert Run(c0, [PutCall(a, 1), PutCall(a, 2)]) == Run(c1, [PutCall(a, 2)]);
    assert Run(c1, [PutCall(a, 2)]) == Success(c2);
  }
}
