/** A stable sort on an integer key, the behaviour of `Array.prototype.sort`
    with a numeric comparator (stable since ECMAScript 2019). An element is
    inserted before the first element whose key is not smaller, so elements
    with equal keys keep their input order. */
module Sorting {

  /** Keys never decrease along the sequence. */
  ghost predicate SortedBy<T>(s: seq<T>, key: T -> int) {
    forall i, j :: 0 <= i < j < |s| ==> key(s[i]) <= key(s[j])
  }

  /** The elements with key `k`, in their order in `s`. */
  function WithKey<T>(s: seq<T>, key: T -> int, k: int): (r: seq<T>)
    ensures |r| <= |s|
  {
    if |s| == 0 then [] else (if key(s[0]) == k then [s[0]] else []) + WithKey(s[1..], key, k)
  }

  function Insert<T>(x: T, s: seq<T>, key: T -> int): (r: seq<T>)
    requires SortedBy(s, key)
    ensures SortedBy(r, key)
    ensures multiset(r) == multiset(s) + multiset{x}
    ensures |r| == |s| + 1
  {
    if |s| == 0 || key(x) <= key(s[0]) then
      assert forall j :: 0 <= j < |s| ==> key(s[0]) <= key(s[j]);
      ConsSorted(x, s, key);
      [x] + s
    else
      var t := Insert(x, s[1..], key);
      InsertBound(x, s, key, t);
      ConsSorted(s[0], t, key);
      assert s == [s[0]] + s[1..];
      assert multiset([s[0]] + t) == multiset{s[0]} + multiset(t);
      [s[0]] + t
  }

  /** The head of a sorted sequence is no greater than anything made of
      its tail and a greater element. */
  lemma InsertBound<T>(x: T, s: seq<T>, key: T -> int, t: seq<T>)
    requires SortedBy(s, key) && |s| > 0 && key(s[0]) < key(x)
    requires multiset(t) == multiset(s[1..]) + multiset{x}
    ensures forall j :: 0 <= j < |t| ==> key(s[0]) <= key(t[j])
  {
    forall j | 0 <= j < |t| ensures key(s[0]) <= key(t[j]) {
      assert t[j] in multiset(t);
      if t[j] != x {
        assert t[j] in multiset(s[1..]);
        var i :| 0 <= i < |s[1..]| && s[1..][i] == t[j];
        assert s[1..][i] == s[i + 1];
      }
    }
  }

  /** An element no greater than every element of a sorted sequence can
      head it. */
  lemma ConsSorted<T>(y: T, t: seq<T>, key: T -> int)
    requires SortedBy(t, key)
    requires forall j :: 0 <= j < |t| ==> key(y) <= key(t[j])
    ensures SortedBy([y] + t, key)
  {
    var r := [y] + t;
    forall i, j | 0 <= i < j < |r| ensures key(r[i]) <= key(r[j]) {
      assert r[j] == t[j - 1];
      if i > 0 {
        assert r[i] == t[i - 1];
      }
    }
  }

  /** Sorts by ascending key: the result is ordered and a permutation of the
      input. */
  function SortBy<T>(xs: seq<T>, key: T -> int): (r: seq<T>)
    ensures SortedBy(r, key)
    ensures multiset(r) == multiset(xs)
    ensures |r| == |xs|
  {
    if |xs| == 0 then []
    else
      assert xs == [xs[0]] + xs[1..];
      Insert(xs[0], SortBy(xs[1..], key), key)
  }

  /** Inserting `x` places it ahead of every element with the same key. */
  lemma {:induction false} InsertStable<T>(x: T, s: seq<T>, key: T -> int, k: int)
    requires SortedBy(s, key)
    ensures WithKey(Insert(x, s, key), key, k) == WithKey([x] + s, key, k)
    decreases |s|
  {
    if |s| == 0 || key(x) <= key(s[0]) {
    } else {
      var t := Insert(x, s[1..], key);
      assert Insert(x, s, key) == [s[0]] + t;
      assert ([s[0]] + t)[1..] == t;
      InsertStable(x, s[1..], key, k);
      assert ([x] + s)[1..] == s;
      assert ([x] + s[1..])[1..] == s[1..];
      if key(x) == k {
        assert key(s[0]) != k;
        assert WithKey(s, key, k) == WithKey(s[1..], key, k);
      } else {
        assert WithKey([x] + s, key, k) == WithKey(s, key, k);
        assert WithKey([x] + s[1..], key, k) == WithKey(s[1..], key, k);
      }
    }
  }

  /** Stability: for every key value, the elements carrying it appear in the
      output in exactly the order they had in the input. */
  lemma {:induction false} SortByStable<T>(xs: seq<T>, key: T -> int, k: int)
    ensures WithKey(SortBy(xs, key), key, k) == WithKey(xs, key, k)
    decreases |xs|
  {
    if |xs| > 0 {
      var rest := SortBy(xs[1..], key);
      InsertStable(xs[0], rest, key, k);
      SortByStable(xs[1..], key, k);
      assert ([xs[0]] + rest)[1..] == rest;
    }
  }

  /** The first element with key `k` heads the elements with that key. */
  lemma {:induction false} WithKeyFirst<T>(s: seq<T>, key: T -> int, k: int, b: nat)
    requires b < |s| && key(s[b]) == k
    requires forall j :: 0 <= j < b ==> key(s[j]) != k
    ensures |WithKey(s, key, k)| > 0 && WithKey(s, key, k)[0] == s[b]
    decreases b
  {
    if b > 0 {
      WithKeyFirst(s[1..], key, k, b - 1);
    }
  }

  /** The head of a stable descending sort by score is the first element of
      the input with the greatest score. */
  lemma SortHeadIsFirstBest<T>(xs: seq<T>, key: T -> int, b: nat)
    requires b < |xs|
    requires forall j :: 0 <= j < |xs| ==> key(xs[b]) <= key(xs[j])
    requires forall j :: 0 <= j < b ==> key(xs[j]) != key(xs[b])
    ensures SortBy(xs, key)[0] == xs[b]
  {
    var s := SortBy(xs, key);
    var k := key(xs[b]);
    assert s[0] in multiset(xs);
    assert xs[b] in multiset(s);
    var i :| 0 <= i < |s| && s[i] == xs[b];
    assert key(s[0]) == k;
    SortByStable(xs, key, k);
    WithKeyFirst(s, key, k, 0);
    WithKeyFirst(xs, key, k, b);
  }
}
