/**
 Stable sorting by an integer key, as Python's `list.sort(key=...)`
 (build_static_feed.py:187 sorts a trip's stop times by `stop_sequence`).
 */
module Sorting {
  import Seqs

  /** Keys never decrease along `s`. */
  ghost predicate SortedBy<T>(s: seq<T>, key: T -> int) {
    forall i, j :: 0 <= i < j < |s| ==> key(s[i]) <= key(s[j])
  }

  /** The elements of `s` whose key is `k`, in their order in `s`. */
  function WithKey<T(!new)>(s: seq<T>, key: T -> int, k: int): seq<T> {
    Seqs.Filter((x: T) => key(x) == k, s)
  }

  /** Elements with equal keys come in the same order in `r` as in `s`. */
  ghost predicate SameOrderWithinKeys<T(!new)>(r: seq<T>, s: seq<T>, key: T -> int) {
    forall k :: WithKey(r, key, k) == WithKey(s, key, k)
  }

  /** Places `x` before the first element of the sorted `s` whose key is not smaller. */
  function Insert<T(!new)>(x: T, s: seq<T>, key: T -> int): (r: seq<T>)
    requires SortedBy(s, key)
    ensures SortedBy(r, key)
    ensures multiset(r) == multiset(s) + multiset{x}
    decreases |s|
  {
    if |s| == 0 || key(x) <= key(s[0]) then
      SortedCons(x, s, key);
      [x] + s
    else
      var rest := Insert(x, s[1..], key);
      assert s == [s[0]] + s[1..];
      assert multiset(s[1..] + [x]) == multiset(s[1..]) + multiset{x};
      KeysBoundedBelow(rest, s[1..] + [x], key, key(s[0]));
      SortedCons(s[0], rest, key);
      assert multiset([s[0]] + rest) == multiset{s[0]} + multiset(rest);
      [s[0]] + rest
  }

  /** Prepending an element whose key does not exceed the first key keeps a sequence sorted. */
  lemma SortedCons<T>(x: T, s: seq<T>, key: T -> int)
    requires SortedBy(s, key)
    requires |s| == 0 || key(x) <= key(s[0])
    ensures SortedBy([x] + s, key)
  {
    var r := [x] + s;
    forall i, j | 0 <= i < j < |r|
      ensures key(r[i]) <= key(r[j])
    {
      if i == 0 && j > 1 {
        assert key(s[0]) <= key(s[j - 1]);
      }
    }
  }

  /** A lower bound on the keys of `s` bounds the keys of any permutation of `s`. */
  lemma KeysBoundedBelow<T>(r: seq<T>, s: seq<T>, key: T -> int, b: int)
    requires multiset(r) == multiset(s)
    requires forall i :: 0 <= i < |s| ==> b <= key(s[i])
    ensures forall i :: 0 <= i < |r| ==> b <= key(r[i])
  {
    forall i | 0 <= i < |r|
      ensures b <= key(r[i])
    {
      assert r[i] in multiset(s);
      var j :| 0 <= j < |s| && s[j] == r[i];
    }
  }

  /** Stable insertion sort: the result is in key order and is a permutation of the input. */
  function SortBy<T(!new)>(s: seq<T>, key: T -> int): (r: seq<T>)
    ensures SortedBy(r, key)
    ensures multiset(r) == multiset(s)
    decreases |s|
  {
    if |s| == 0 then []
    else
      assert s == [s[0]] + s[1..];
      Insert(s[0], SortBy(s[1..], key), key)
  }

  /** The elements with key `k` of a sequence one of whose elements is prepended. */
  lemma WithKeyCons<T(!new)>(x: T, s: seq<T>, key: T -> int, k: int)
    ensures WithKey([x] + s, key, k) == (if key(x) == k then [x] else []) + WithKey(s, key, k)
  {
    Seqs.FilterCons((y: T) => key(y) == k, x, s);
  }

  /** Inserting `x` keeps it ahead of the elements with its key, as if it were prepended. */
  lemma {:induction false} InsertIsStable<T(!new)>(x: T, s: seq<T>, key: T -> int, k: int)
    requires SortedBy(s, key)
    ensures WithKey(Insert(x, s, key), key, k) == WithKey([x] + s, key, k)
    decreases |s|
  {
    if |s| == 0 || key(x) <= key(s[0]) {
    } else {
      var rest := Insert(x, s[1..], key);
      InsertIsStable(x, s[1..], key, k);
      assert s == [s[0]] + s[1..];
      assert [x] + s == [x] + ([s[0]] + s[1..]);
      WithKeyCons(s[0], rest, key, k);
      WithKeyCons(x, s[1..], key, k);
      WithKeyCons(x, s, key, k);
      WithKeyCons(s[0], s[1..], key, k);
    }
  }

  /** Elements with equal keys keep their input order: the sort is stable. */
  lemma {:induction false} SortByIsStable<T(!new)>(s: seq<T>, key: T -> int, k: int)
    ensures WithKey(SortBy(s, key), key, k) == WithKey(s, key, k)
    decreases |s|
  {
    if |s| > 0 {
      var rest := SortBy(s[1..], key);
      assert SortBy(s, key) == Insert(s[0], rest, key);
      SortByIsStable(s[1..], key, k);
      InsertIsStable(s[0], rest, key, k);
      WithKeyCons(s[0], rest, key, k);
      assert s == [s[0]] + s[1..];
      WithKeyCons(s[0], s[1..], key, k);
    }
  }
}
