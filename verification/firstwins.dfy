/** First-occurrence duplicate suppression by key, as the pipeline does it
    with an insertion-ordered `Set` of keys already seen: an element is kept
    when its key has not been seen, and its key is then recorded. The
    timeline (keyed by year), the flashcards (keyed by the lower-cased
    answer) and the corpus pools of the quiz (`[...new Set(words)]`) all
    use it. */
module FirstWins {
  import opened Wrappers

  /** The set of keys carried by the elements of `xs`. */
  function KeysOf<T, K(==)>(xs: seq<T>, key: T -> K): set<K> {
    set i | 0 <= i < |xs| :: key(xs[i])
  }

  /** No two elements share a key. */
  ghost predicate DistinctKeys<T, K>(xs: seq<T>, key: T -> K) {
    forall p, q :: 0 <= p < q < |xs| ==> key(xs[p]) != key(xs[q])
  }

  /** The earliest element of `xs` with key `k`, if any. */
  function FirstWithKey<T, K(==)>(xs: seq<T>, key: T -> K, k: K): (r: Option<T>)
    ensures r.Some? <==> k in KeysOf(xs, key)
    ensures r.Some? ==> r.value in xs && key(r.value) == k
  {
    if |xs| == 0 then None
    else if key(xs[0]) == k then Some(xs[0])
    else
      var r := FirstWithKey(xs[1..], key, k);
      assert KeysOf(xs, key) == {key(xs[0])} + KeysOf(xs[1..], key) by {
        forall y | y in KeysOf(xs, key) ensures y in {key(xs[0])} + KeysOf(xs[1..], key) {
          var i :| 0 <= i < |xs| && key(xs[i]) == y;
          if i > 0 { assert key(xs[1..][i - 1]) == y; }
        }
        forall y | y in KeysOf(xs[1..], key) ensures y in KeysOf(xs, key) {
          var i :| 0 <= i < |xs[1..]| && key(xs[1..][i]) == y;
          assert key(xs[i + 1]) == y;
        }
      }
      r
  }

  lemma KeysOfCons<T, K>(x: T, xs: seq<T>, key: T -> K)
    ensures KeysOf([x] + xs, key) == {key(x)} + KeysOf(xs, key)
  {
    var ys := [x] + xs;
    forall y | y in KeysOf(ys, key) ensures y in {key(x)} + KeysOf(xs, key) {
      var i :| 0 <= i < |ys| && key(ys[i]) == y;
      if i > 0 { assert ys[i] == xs[i - 1]; } else { assert ys[0] == x; }
    }
    assert key(ys[0]) == key(x);
    forall y | y in KeysOf(xs, key) ensures y in KeysOf(ys, key) {
      var i :| 0 <= i < |xs| && key(xs[i]) == y;
      assert ys[i + 1] == xs[i];
    }
  }

  /** The seen-set fold. The result keeps, in order, each element whose key
      is neither in `seen` nor carried by an earlier element. */
  function Dedup<T, K(==)>(xs: seq<T>, key: T -> K, seen: set<K>): (r: seq<T>)
    ensures |r| <= |xs|
    ensures DistinctKeys(r, key)
    ensures forall p :: 0 <= p < |r| ==> key(r[p]) !in seen
    ensures KeysOf(r, key) == KeysOf(xs, key) - seen
    ensures forall p :: 0 <= p < |r| ==> FirstWithKey(xs, key, key(r[p])) == Some(r[p])
  {
    if |xs| == 0 then []
    else
      var x := xs[0];
      assert xs == [x] + xs[1..];
      KeysOfCons(x, xs[1..], key);
      if key(x) in seen then
        Dedup(xs[1..], key, seen)
      else
        var t := Dedup(xs[1..], key, seen + {key(x)});
        var r := [x] + t;
        KeysOfCons(x, t, key);
        assert forall p :: 0 < p < |r| ==> r[p] == t[p - 1];
        r
  }

  // ---------------------------------------------------------------------------
  // An independent reference: keep the head, delete its key from the rest.
  // ---------------------------------------------------------------------------

  /** The elements whose key is not in `ks`, in order. */
  function Without<T, K(==)>(xs: seq<T>, key: T -> K, ks: set<K>): (r: seq<T>)
    ensures |r| <= |xs|
  {
    if |xs| == 0 then []
    else (if key(xs[0]) in ks then [] else [xs[0]]) + Without(xs[1..], key, ks)
  }

  /** Keep the first element, then remove every later element with its key
      and repeat on what is left. */
  function Nub<T, K(==)>(xs: seq<T>, key: T -> K): seq<T>
    decreases |xs|
  {
    if |xs| == 0 then []
    else [xs[0]] + Nub(Without(xs[1..], key, {key(xs[0])}), key)
  }

  lemma {:induction false} WithoutWithout<T, K>(xs: seq<T>, key: T -> K, a: set<K>, b: set<K>)
    ensures Without(Without(xs, key, a), key, b) == Without(xs, key, a + b)
    decreases |xs|
  {
    if |xs| > 0 {
      WithoutWithout(xs[1..], key, a, b);
      var w := Without(xs[1..], key, a);
      if key(xs[0]) !in a {
        assert Without(xs, key, a) == [xs[0]] + w;
        assert ([xs[0]] + w)[1..] == w;
      } else {
        assert Without(xs, key, a) == w;
        assert Without(xs, key, a + b) == Without(xs[1..], key, a + b);
      }
    }
  }

  /** Removing no key removes nothing. */
  lemma {:induction false} WithoutNone<T, K>(xs: seq<T>, key: T -> K)
    ensures Without(xs, key, {}) == xs
    decreases |xs|
  {
    if |xs| > 0 {
      WithoutNone(xs[1..], key);
      assert xs == [xs[0]] + xs[1..];
    }
  }

  /** The seen-set fold computes the reference: duplicate suppression by a
      set of seen keys is the same as deleting repeated keys. */
  lemma {:induction false} DedupIsNub<T, K>(xs: seq<T>, key: T -> K, seen: set<K>)
    ensures Dedup(xs, key, seen) == Nub(Without(xs, key, seen), key)
    decreases |xs|
  {
    if |xs| > 0 {
      var x := xs[0];
      if key(x) in seen {
        DedupIsNub(xs[1..], key, seen);
        assert Without(xs, key, seen) == Without(xs[1..], key, seen);
      } else {
        DedupIsNub(xs[1..], key, seen + {key(x)});
        var w := Without(xs[1..], key, seen);
        assert Without(xs, key, seen) == [x] + w;
        assert ([x] + w)[1..] == w;
        WithoutWithout(xs[1..], key, seen, {key(x)});
      }
    }
  }

  /** Removing the element at `p` from the multiset of `s` leaves the
      element at any other position. */
  lemma RemoveOther<T>(s: seq<T>, p: nat, q: nat)
    requires p < |s| && q < |s| && p != q
    ensures s[q] in multiset(s) - multiset{s[p]}
  {
    assert s == s[..p] + [s[p]] + s[p + 1..];
    assert multiset(s) - multiset{s[p]} == multiset(s[..p]) + multiset(s[p + 1..]);
    if q < p {
      assert s[q] == s[..p][q];
    } else {
      assert s[q] == s[p + 1..][q - p - 1];
    }
  }

  /** An element left after removing the one at `a` sits at another
      position. */
  lemma OtherPosition<T>(s: seq<T>, a: nat, x: T)
    requires a < |s| && x in multiset(s) - multiset{s[a]}
    ensures exists b :: 0 <= b < |s| && b != a && s[b] == x
  {
    assert s == s[..a] + [s[a]] + s[a + 1..];
    assert multiset(s) - multiset{s[a]} == multiset(s[..a]) + multiset(s[a + 1..]);
    if x in s[..a] {
      var b :| 0 <= b < a && s[..a][b] == x;
    } else {
      assert x in s[a + 1..];
      var b :| 0 <= b < |s| - a - 1 && s[a + 1..][b] == x;
      assert s[a + 1 + b] == x;
    }
  }

  /** Reordering keeps keys distinct. */
  lemma PermutationDistinctKeys<T, K>(a: seq<T>, b: seq<T>, key: T -> K)
    requires multiset(a) == multiset(b)
    requires DistinctKeys(a, key)
    ensures DistinctKeys(b, key)
  {
    forall p, q | 0 <= p < q < |b| ensures key(b[p]) != key(b[q]) {
      RemoveOther(b, p, q);
      assert b[p] in multiset(a);
      var i :| 0 <= i < |a| && a[i] == b[p];
      OtherPosition(a, i, b[q]);
      var j :| 0 <= j < |a| && j != i && a[j] == b[q];
      if i < j {
        assert key(a[i]) != key(a[j]);
      } else {
        assert key(a[j]) != key(a[i]);
      }
    }
  }

  /** Reordering keeps the set of keys. */
  lemma PermutationKeys<T, K>(a: seq<T>, b: seq<T>, key: T -> K)
    requires multiset(a) == multiset(b)
    ensures KeysOf(a, key) == KeysOf(b, key)
  {
    forall y | y in KeysOf(a, key) ensures y in KeysOf(b, key) {
      var i :| 0 <= i < |a| && key(a[i]) == y;
      assert a[i] in multiset(b);
      var j :| 0 <= j < |b| && b[j] == a[i];
    }
    forall y | y in KeysOf(b, key) ensures y in KeysOf(a, key) {
      var i :| 0 <= i < |b| && key(b[i]) == y;
      assert b[i] in multiset(a);
      var j :| 0 <= j < |a| && a[j] == b[i];
    }
  }

  /** `[...new Set(xs)]`: the distinct values in order of first appearance. */
  function Unique(xs: seq<string>): (r: seq<string>)
    ensures forall p, q :: 0 <= p < q < |r| ==> r[p] != r[q]
    ensures forall y :: y in r <==> y in xs
  {
    var r := Dedup(xs, (x: string) => x, {});
    assert forall y :: y in r <==> y in KeysOf(r, (x: string) => x) by {
      forall y ensures y in r <==> y in KeysOf(r, (x: string) => x) {
        if y in r {
          var i :| 0 <= i < |r| && r[i] == y;
        }
      }
    }
    assert forall y :: y in xs <==> y in KeysOf(xs, (x: string) => x) by {
      forall y ensures y in xs <==> y in KeysOf(xs, (x: string) => x) {
        if y in xs {
          var i :| 0 <= i < |xs| && xs[i] == y;
        }
      }
    }
    r
  }
}
