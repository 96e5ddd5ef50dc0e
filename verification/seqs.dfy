/**
 Generic facts about sequences used throughout the model: order-preserving
 filtering, subsequences and the set of elements.
 */
module Seqs {

  /** `r` can be obtained from `s` by deleting elements, keeping the order of the rest. */
  ghost predicate IsSubsequence<T>(r: seq<T>, s: seq<T>)
    decreases |s|
  {
    || |r| == 0
    || (&& |s| > 0
        && ((r[0] == s[0] && IsSubsequence(r[1..], s[1..])) || IsSubsequence(r, s[1..])))
  }

  /** The elements of `s` that satisfy `p`, in their original order, with their multiplicities. */
  function Filter<T(!new)>(p: T -> bool, s: seq<T>): (r: seq<T>)
    ensures |r| <= |s|
    ensures forall i :: 0 <= i < |r| ==> p(r[i])
    ensures forall x :: multiset(r)[x] == if p(x) then multiset(s)[x] else 0
    ensures IsSubsequence(r, s)
    decreases |s|
  {
    if |s| == 0 then []
    else
      var rest := Filter(p, s[1..]);
      assert s == [s[0]] + s[1..];
      if p(s[0]) then
        assert ([s[0]] + rest)[1..] == rest;
        [s[0]] + rest
      else
        assert |rest| > 0 ==> rest[0] != s[0];
        rest
  }

  /** Every element kept by `Filter` comes from the input and satisfies the predicate, and conversely. */
  lemma FilterMembership<T(!new)>(p: T -> bool, s: seq<T>)
    ensures forall x :: x in Filter(p, s) <==> x in s && p(x)
  {
    var r := Filter(p, s);
    forall x
      ensures x in r <==> x in s && p(x)
    {
      assert x in r <==> multiset(r)[x] > 0;
      assert x in s <==> multiset(s)[x] > 0;
    }
  }

  /** Filtering distributes over concatenation. */
  lemma {:induction false} FilterConcat<T(!new)>(p: T -> bool, a: seq<T>, b: seq<T>)
    ensures Filter(p, a + b) == Filter(p, a) + Filter(p, b)
    decreases |a|
  {
    if |a| == 0 {
      assert a + b == b;
    } else {
      assert (a + b)[1..] == a[1..] + b;
      FilterConcat(p, a[1..], b);
    }
  }

  /** Filtering a sequence one of whose elements is prepended. */
  lemma FilterCons<T(!new)>(p: T -> bool, x: T, s: seq<T>)
    ensures Filter(p, [x] + s) == (if p(x) then [x] else []) + Filter(p, s)
  {
    assert ([x] + s)[1..] == s;
  }

  /** If `s[i]` is the first element satisfying `p`, it heads the filtered sequence. */
  lemma {:induction false} FilterHead<T(!new)>(p: T -> bool, s: seq<T>, i: nat)
    requires i < |s| && p(s[i])
    requires forall j :: 0 <= j < i ==> !p(s[j])
    ensures |Filter(p, s)| > 0 && Filter(p, s)[0] == s[i]
    decreases i
  {
    if i == 0 {
      assert Filter(p, s) == [s[0]] + Filter(p, s[1..]);
    } else {
      assert !p(s[0]);
      assert forall j :: 0 <= j < i - 1 ==> s[1..][j] == s[j + 1];
      FilterHead(p, s[1..], i - 1);
      assert Filter(p, s) == Filter(p, s[1..]);
    }
  }

  /** A filter that keeps everything, or nothing. */
  lemma {:induction false} FilterAllOrNone<T(!new)>(p: T -> bool, s: seq<T>, keep: bool)
    requires forall i :: 0 <= i < |s| ==> p(s[i]) == keep
    ensures Filter(p, s) == if keep then s else []
    decreases |s|
  {
    if |s| > 0 {
      FilterAllOrNone(p, s[1..], keep);
    }
  }

  /** The set of elements of a sequence. */
  function Elements<T>(s: seq<T>): set<T> {
    set x | x in s
  }
}
