/**
 * `ORDER BY key DESC` over the rows of a query result. SQL leaves the order
 * of rows with equal keys open; the model fixes one of the permitted orders
 * (rows with equal keys keep their order in the unsorted result).
 */
module Ordering {

  ghost predicate SortedDesc<T>(xs: seq<T>, key: T -> int)
  {
    forall i, j :: 0 <= i < j < |xs| ==> key(xs[i]) >= key(xs[j])
  }

  /** Puts `x` in front of the first element whose key is not larger than its own. */
  function InsertDesc<T>(x: T, xs: seq<T>, key: T -> int): (r: seq<T>)
    requires SortedDesc(xs, key)
    ensures multiset(r) == multiset(xs) + multiset{x}
    ensures SortedDesc(r, key)
  {
    if xs == [] then [x]
    else if key(x) >= key(xs[0]) then [x] + xs
    else
      var rest := InsertDesc(x, xs[1..], key);
      InsertDescStep(x, xs, key, rest);
      [xs[0]] + rest
  }

  /** Keeping the head in front of the insertion into the tail keeps the rows and the order. */
  lemma InsertDescStep<T>(x: T, xs: seq<T>, key: T -> int, rest: seq<T>)
    requires xs != [] && SortedDesc(xs, key) && key(x) < key(xs[0])
    requires multiset(rest) == multiset(xs[1..]) + multiset{x} && SortedDesc(rest, key)
    ensures multiset([xs[0]] + rest) == multiset(xs) + multiset{x}
    ensures SortedDesc([xs[0]] + rest, key)
  {
    assert xs == [xs[0]] + xs[1..];
    forall k | 0 <= k < |rest|
      ensures key(xs[0]) >= key(rest[k])
    {
      assert rest[k] in multiset(rest);
      if rest[k] != x {
        assert rest[k] in xs[1..];
      }
    }
    var r := [xs[0]] + rest;
    forall i, j | 0 <= i < j < |r|
      ensures key(r[i]) >= key(r[j])
    {
      assert r[j] == rest[j - 1];
      if i > 0 {
        assert r[i] == rest[i - 1];
      }
    }
  }

  /** The rows of `xs` in descending order of `key`. */
  function SortDesc<T>(xs: seq<T>, key: T -> int): (r: seq<T>)
    ensures multiset(r) == multiset(xs)
    ensures SortedDesc(r, key)
  {
    if xs == [] then []
    else
      assert xs == [xs[0]] + xs[1..];
      InsertDesc(xs[0], SortDesc(xs[1..], key), key)
  }

  /** Sorting keeps exactly the rows it was given. */
  lemma SortDescMembers<T>(xs: seq<T>, key: T -> int, x: T)
    ensures x in SortDesc(xs, key) <==> x in xs
    ensures |SortDesc(xs, key)| == |xs|
  {
    var r := SortDesc(xs, key);
    assert x in r <==> x in multiset(r);
    assert x in xs <==> x in multiset(xs);
    assert |r| == |multiset(r)| == |multiset(xs)| == |xs|;
  }
}
