/**
 The recency list of the cache: a sequence of keys, most recently used
 first. This module models the few `java.util.LinkedList` operations the
 cache relies on (`remove(Object)`, `push`, `removeLast`) and the cache's
 own `moveToFront` extension, together with the facts about duplicate-free
 sequences that the cache invariant needs.
 */
module Recency {

  /** No key occurs twice. */
  predicate NoDup<T(==)>(s: seq<T>) {
    forall i, j | 0 <= i < j < |s| :: s[i] != s[j]
  }

  /** The keys held by a sequence, as a set. */
  function Elems<T>(s: seq<T>): set<T> {
    set x | x in s
  }

  /** The tail of a non-empty list (the element `removeLast` takes). */
  function Last<T>(s: seq<T>): T
    requires |s| > 0
  {
    s[|s| - 1]
  }

  /** The list read from the tail to the head. */
  function Reverse<T>(s: seq<T>): seq<T> {
    seq(|s|, i requires 0 <= i < |s| => s[|s| - 1 - i])
  }

  /** Reversing a list with one more key in front puts that key at the end. */
  lemma ReverseCons<T>(x: T, t: seq<T>)
    ensures Reverse([x] + t) == Reverse(t) + [x]
  {
  }

  /** A duplicate-free sequence has as many distinct keys as positions. */
  lemma {:induction false} NoDupCard<T>(s: seq<T>)
    requires NoDup(s)
    ensures |Elems(s)| == |s|
  {
    if s != [] {
      assert Elems(s) == {s[0]} + Elems(s[1..]);
      assert s[0] !in Elems(s[1..]);
      NoDupCard(s[1..]);
    }
  }

  /** Position of the first occurrence of `x`. */
  function FirstIndex<T(==)>(s: seq<T>, x: T): (i: nat)
    requires x in s
    ensures i < |s| && s[i] == x
    ensures forall j | 0 <= j < i :: s[j] != x
  {
    if s[0] == x then 0 else 1 + FirstIndex(s[1..], x)
  }

  /**
   Reference definition of "the other keys in their order": every
   occurrence of `x` filtered out.
   */
  function Without<T(==)>(s: seq<T>, x: T): (r: seq<T>)
    ensures x !in r
  {
    if s == [] then []
    else if s[0] == x then Without(s[1..], x)
    else [s[0]] + Without(s[1..], x)
  }

  /**
   `LinkedList.remove(Object)`: drops the first occurrence of `x`, and
   leaves the list alone when `x` is absent.
   */
  function RemoveFirst<T(==)>(s: seq<T>, x: T): (r: seq<T>)
    ensures x !in s ==> r == s
  {
    if s == [] then []
    else if s[0] == x then s[1..]
    else
      var t := s[1..];
      var r := [s[0]] + RemoveFirst(t, x);
      assert x !in s ==> r == s by {
        if x !in s {
          assert x !in t;
          assert s == [s[0]] + t;
        }
      }
      r
  }

  /** `remove(x)` cuts the list at the first `x` and joins the two sides. */
  lemma {:induction false} RemoveFirstAt<T>(s: seq<T>, x: T)
    requires x in s
    ensures RemoveFirst(s, x) == s[..FirstIndex(s, x)] + s[FirstIndex(s, x) + 1..]
  {
    if s[0] != x {
      var t := s[1..];
      assert x in t;
      RemoveFirstAt(t, x);
      var i := FirstIndex(t, x);
      assert FirstIndex(s, x) == i + 1;
      var a, b := t[..i], t[i + 1..];
      assert RemoveFirst(s, x) == [s[0]] + (a + b);
      assert s[..i + 1] == [s[0]] + a;
      assert s[i + 2..] == b;
      ConcatAssoc([s[0]], a, b);
    }
  }

  lemma ConcatAssoc<T>(a: seq<T>, b: seq<T>, c: seq<T>)
    ensures a + (b + c) == (a + b) + c
  {
  }

  /** `remove(x)` takes away exactly one copy of `x` and nothing else. */
  lemma {:induction false} RemoveFirstMultiset<T>(s: seq<T>, x: T)
    ensures multiset(RemoveFirst(s, x)) == multiset(s) - multiset{x}
  {
    if s != [] {
      var t := s[1..];
      assert s == [s[0]] + t;
      assert multiset(s) == multiset{s[0]} + multiset(t);
      if s[0] != x {
        RemoveFirstMultiset(t, x);
        assert multiset(RemoveFirst(s, x)) == multiset{s[0]} + multiset(RemoveFirst(t, x));
      }
    }
  }

  /** A duplicate-free list stays duplicate-free without its head. */
  lemma NoDupTail<T>(s: seq<T>)
    requires NoDup(s) && |s| > 0
    ensures NoDup(s[1..]) && s[0] !in s[1..]
  {
  }

  /** Putting a key that is not there in front of a duplicate-free list. */
  lemma ConsNoDup<T>(x: T, t: seq<T>)
    requires NoDup(t) && x !in t
    ensures NoDup([x] + t)
  {
  }

  /** Filtering a key out of a list that does not hold it changes nothing. */
  lemma {:induction false} NotInWithout<T>(s: seq<T>, x: T)
    requires x !in s
    ensures Without(s, x) == s
  {
    if s != [] {
      assert x !in s[1..];
      NotInWithout(s[1..], x);
      assert s == [s[0]] + s[1..];
    }
  }

  /**
   On a duplicate-free list, removing the first occurrence removes every
   occurrence, and the result is again duplicate-free.
   */
  lemma {:induction false} RemoveFirstNoDup<T>(s: seq<T>, x: T)
    requires NoDup(s)
    ensures RemoveFirst(s, x) == Without(s, x)
    ensures NoDup(RemoveFirst(s, x))
  {
    if s != [] {
      NoDupTail(s);
      var t := s[1..];
      if s[0] == x {
        NotInWithout(t, x);
      } else {
        RemoveFirstNoDup(t, x);
        RemoveFirstMultiset(t, x);
        var u := RemoveFirst(t, x);
        assert s[0] !in u by {
          assert s[0] !in multiset(t);
          assert s[0] !in multiset(u);
        }
        ConsNoDup(s[0], u);
      }
    }
  }

  /** Removing one occurrence and then all leaves the same as removing all. */
  lemma {:induction false} WithoutRemoveFirst<T>(s: seq<T>, x: T)
    ensures Without(RemoveFirst(s, x), x) == Without(s, x)
  {
    if s != [] && s[0] != x {
      var t := s[1..];
      WithoutRemoveFirst(t, x);
      var u := [s[0]] + RemoveFirst(t, x);
      assert u[1..] == RemoveFirst(t, x);
    }
  }

  /**
   The cache's `moveToFront`: `remove(key)` then `push(key)`. The key ends
   at the head, the list keeps its keys (and its length when the key was
   there), and the other keys keep their relative order.
   */
  function MoveToFront<T(==)>(s: seq<T>, x: T): (r: seq<T>)
    ensures |r| > 0 && r[0] == x
    ensures Elems(r) == Elems(s) + {x}
    ensures x in s ==> multiset(r) == multiset(s)
    ensures x in s ==> |r| == |s|
    ensures x !in s ==> |r| == |s| + 1
    ensures Without(r, x) == Without(s, x)
    ensures NoDup(s) ==> NoDup(r)
  {
    var t := RemoveFirst(s, x);
    WithoutRemoveFirst(s, x);
    RemoveFirstMultiset(s, x);
    var r := [x] + t;
    assert r[1..] == t;
    assert multiset(r) == multiset{x} + multiset(t);
    assert Elems(r) == Elems(s) + {x} by {
      forall y | y in s ensures y in r {
        if y != x {
          assert y in multiset(s);
          assert y in multiset(t);
          assert y in t;
        }
      }
      forall y | y in r ensures y in s || y == x {
        assert y in multiset(r);
      }
    }
    assert NoDup(s) ==> NoDup(r) by {
      if NoDup(s) {
        RemoveFirstNoDup(s, x);
        ConsNoDup(x, t);
      }
    }
    r
  }
}
