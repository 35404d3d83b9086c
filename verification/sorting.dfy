/** LINQ's `OrderBy(key)`: a stable sort by an integer key. `OrderByDescending(key)`
    is the same sort by the negated key. */
module Sorting {

  predicate SortedBy<T>(xs: seq<T>, key: T -> int) {
    forall i, j :: 0 <= i < j < |xs| ==> key(xs[i]) <= key(xs[j])
  }

  /** Inserts `x` before the first element whose key is not smaller, so that
      `x`, which came first in the input, stays ahead of its equals. */
  function Insert<T>(x: T, xs: seq<T>, key: T -> int): seq<T> {
    if |xs| == 0 || key(x) <= key(xs[0]) then [x] + xs
    else [xs[0]] + Insert(x, xs[1..], key)
  }

  function SortBy<T>(xs: seq<T>, key: T -> int): seq<T> {
    if |xs| == 0 then [] else Insert(xs[0], SortBy(xs[1..], key), key)
  }

  /** Inserting into a sorted list keeps it sorted and adds exactly `x`. */
  lemma {:induction false} InsertFacts<T>(x: T, xs: seq<T>, key: T -> int)
    requires SortedBy(xs, key)
    ensures SortedBy(Insert(x, xs, key), key)
    ensures multiset(Insert(x, xs, key)) == multiset(xs) + multiset{x}
    ensures |Insert(x, xs, key)| == |xs| + 1
  {
    if |xs| == 0 || key(x) <= key(xs[0]) {
      assert Insert(x, xs, key) == [x] + xs;
      if |xs| > 0 {
        assert forall k :: 0 <= k < |xs| ==> key(xs[0]) <= key(xs[k]);
      }
      SortedCons(x, xs, key);
    } else {
      var rest := Insert(x, xs[1..], key);
      InsertFacts(x, xs[1..], key);
      assert Insert(x, xs, key) == [xs[0]] + rest;
      assert xs == [xs[0]] + xs[1..];
      HeadBelowInserted(x, xs, rest, key);
      SortedCons(xs[0], rest, key);
    }
  }

  /** A sorted list stays sorted with an element in front that is not above any of it. */
  lemma SortedCons<T>(y: T, rest: seq<T>, key: T -> int)
    requires SortedBy(rest, key)
    requires forall k :: 0 <= k < |rest| ==> key(y) <= key(rest[k])
    ensures SortedBy([y] + rest, key)
  {
    var r := [y] + rest;
    forall i, j | 0 <= i < j < |r|
      ensures key(r[i]) <= key(r[j])
    {
      assert r[j] == rest[j - 1];
      if i > 0 {
        assert r[i] == rest[i - 1];
      }
    }
  }

  /** Every element of the insertion into the tail is at least the head of a sorted
      list whose head is below the inserted element. */
  lemma HeadBelowInserted<T>(x: T, xs: seq<T>, rest: seq<T>, key: T -> int)
    requires SortedBy(xs, key) && |xs| > 0 && key(xs[0]) < key(x)
    requires multiset(rest) == multiset(xs[1..]) + multiset{x}
    ensures forall k :: 0 <= k < |rest| ==> key(xs[0]) <= key(rest[k])
  {
    forall k | 0 <= k < |rest|
      ensures key(xs[0]) <= key(rest[k])
    {
      assert rest[k] in multiset(rest);
      if rest[k] != x {
        assert rest[k] in multiset(xs[1..]);
        var j :| 0 <= j < |xs[1..]| && xs[1..][j] == rest[k];
        assert xs[j + 1] == rest[k];
      }
    }
  }

  /** The sort's output is in key order and is a rearrangement of its input. */
  lemma {:induction false} SortByFacts<T>(xs: seq<T>, key: T -> int)
    ensures SortedBy(SortBy(xs, key), key)
    ensures multiset(SortBy(xs, key)) == multiset(xs)
    ensures |SortBy(xs, key)| == |xs|
  {
    if |xs| > 0 {
      var rest := SortBy(xs[1..], key);
      SortByFacts(xs[1..], key);
      InsertFacts(xs[0], rest, key);
      assert SortBy(xs, key) == Insert(xs[0], rest, key);
      assert xs == [xs[0]] + xs[1..];
      assert multiset(xs) == multiset(xs[1..]) + multiset{xs[0]};
    }
  }

  /** The elements whose key is `k`, in list order. */
  function WithKey<T>(xs: seq<T>, key: T -> int, k: int): seq<T> {
    if |xs| == 0 then []
    else (if key(xs[0]) == k then [xs[0]] else []) + WithKey(xs[1..], key, k)
  }

  /** `Insert` passes only elements whose key is below `x`'s, so among the
      elements of any one key it keeps the order and puts `x` first. */
  lemma {:induction false} InsertWithKey<T>(x: T, xs: seq<T>, key: T -> int, k: int)
    ensures WithKey(Insert(x, xs, key), key, k)
      == (if key(x) == k then [x] else []) + WithKey(xs, key, k)
  {
    if |xs| == 0 || key(x) <= key(xs[0]) {
      assert Insert(x, xs, key) == [x] + xs;
      assert ([x] + xs)[1..] == xs;
    } else {
      var rest := Insert(x, xs[1..], key);
      InsertWithKey(x, xs[1..], key, k);
      assert Insert(x, xs, key) == [xs[0]] + rest;
      assert ([xs[0]] + rest)[1..] == rest;
      assert key(xs[0]) != k || key(x) != k;
    }
  }

  /** The sort is stable: elements with equal keys come out in their input order. */
  lemma {:induction false} SortByStable<T>(xs: seq<T>, key: T -> int, k: int)
    ensures WithKey(SortBy(xs, key), key, k) == WithKey(xs, key, k)
  {
    if |xs| > 0 {
      SortByStable(xs[1..], key, k);
      InsertWithKey(xs[0], SortBy(xs[1..], key), key, k);
    }
  }

  /** A list that is already in key order comes out of the sort unchanged. */
  lemma {:induction false} SortSorted<T>(xs: seq<T>, key: T -> int)
    requires SortedBy(xs, key)
    ensures SortBy(xs, key) == xs
  {
    if |xs| > 0 {
      SortSorted(xs[1..], key);
      assert SortBy(xs[1..], key) == xs[1..];
      assert xs == [xs[0]] + xs[1..];
    }
  }
}
