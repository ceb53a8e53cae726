/** Optional values, standing in for JavaScript's `undefined` and for
    lookups that may miss. */
module Wrappers {

  datatype Option<+T> = None | Some(value: T) {

    /** Returns the value held by Some, or the given default. */
    function GetOr(default: T): T {
      match this
      case Some(v) => v
      case None => default
    }
  }

  /** A map lookup that yields None for a missing key, as a JavaScript
      object lookup yields `undefined`. */
  function Lookup<K, V>(m: map<K, V>, k: K): (r: Option<V>)
    ensures r.Some? <==> k in m
    ensures r.Some? ==> r.value == m[k]
  {
    if k in m then Some(m[k]) else None
  }

  /** The positions from `from` on that hold a value, in increasing order. */
  function PresentFrom<T>(xs: seq<Option<T>>, from: nat): (r: seq<nat>)
    requires from <= |xs|
    ensures forall p :: 0 <= p < |r| ==> from <= r[p] < |xs| && xs[r[p]].Some?
    ensures forall p, q :: 0 <= p < q < |r| ==> r[p] < r[q]
    ensures forall i :: from <= i < |xs| && xs[i].Some? ==> i in r
    ensures |r| <= |xs| - from
    decreases |xs| - from
  {
    if from == |xs| then []
    else if xs[from].Some? then [from] + PresentFrom(xs, from + 1)
    else PresentFrom(xs, from + 1)
  }

  /** `idx` lists, in increasing order, exactly the positions of `ys` that
      hold a value, and the `p`-th element of `r` is the value at the `p`-th
      of them. */
  ghost predicate CollectedAt<B>(ys: seq<Option<B>>, idx: seq<nat>, r: seq<B>) {
    && |idx| == |r|
    && (forall p :: 0 <= p < |idx| ==> idx[p] < |ys| && ys[idx[p]] == Some(r[p]))
    && (forall p, q :: 0 <= p < q < |idx| ==> idx[p] < idx[q])
    && (forall i :: 0 <= i < |ys| && ys[i].Some? ==> i in idx)
  }

  /** `r` holds the present values of `ys`, each once, in the order of
      their positions. */
  ghost predicate Collected<B>(ys: seq<Option<B>>, r: seq<B>) {
    exists idx :: CollectedAt(ys, idx, r)
  }

  /** The present values in the order of their positions: the `p`-th
      result is the value at the `p`-th present position. */
  function Collect<B(!new)>(ys: seq<Option<B>>): (r: seq<B>)
    ensures Collected(ys, r)
    ensures forall e :: e in r <==> exists i :: 0 <= i < |ys| && ys[i] == Some(e)
    ensures |r| == |PresentFrom(ys, 0)| <= |ys|
    ensures forall p :: 0 <= p < |r| ==> ys[PresentFrom(ys, 0)[p]] == Some(r[p])
  {
    var idx := PresentFrom(ys, 0);
    var r := seq(|idx|, p requires 0 <= p < |idx| => ys[idx[p]].value);
    assert CollectedAt(ys, idx, r);
    forall e ensures e in r <==> exists i :: 0 <= i < |ys| && ys[i] == Some(e) {
      if e in r {
        var p :| 0 <= p < |r| && r[p] == e;
        assert ys[idx[p]] == Some(e);
      }
      if exists i :: 0 <= i < |ys| && ys[i] == Some(e) {
        var i :| 0 <= i < |ys| && ys[i] == Some(e);
        assert i in idx;
        var p :| 0 <= p < |idx| && idx[p] == i;
        assert r[p] == e;
      }
    }
    r
  }

  /** `xs.map(f)`. */
  function Apply<A, B>(xs: seq<A>, f: A -> B): (ys: seq<B>)
    ensures |ys| == |xs| && forall i :: 0 <= i < |xs| ==> ys[i] == f(xs[i])
  {
    seq(|xs|, i requires 0 <= i < |xs| => f(xs[i]))
  }

  /** `xs.map((x, i) => f(x, i))`. */
  function ApplyIndexed<A, B>(xs: seq<A>, f: (A, nat) -> B): (ys: seq<B>)
    ensures |ys| == |xs| && forall i :: 0 <= i < |xs| ==> ys[i] == f(xs[i], i)
  {
    seq(|xs|, i requires 0 <= i < |xs| => f(xs[i], i))
  }

  /** `xs.map(f)` keeping only the present results, in order. */
  function FilterMap<A, B(!new)>(xs: seq<A>, f: A -> Option<B>): (r: seq<B>)
    ensures Collected(Apply(xs, f), r)
    ensures forall e :: e in r <==> exists i :: 0 <= i < |xs| && f(xs[i]) == Some(e)
    ensures |r| <= |xs|
  {
    Collect(Apply(xs, f))
  }

  /** `xs.forEach((x, i) => …)` collecting the present results of
      `f(x, i)`, in order. */
  function FilterMapIndexed<A, B(!new)>(xs: seq<A>, f: (A, nat) -> Option<B>): (r: seq<B>)
    ensures Collected(ApplyIndexed(xs, f), r)
    ensures forall e :: e in r <==> exists i :: 0 <= i < |xs| && f(xs[i], i) == Some(e)
    ensures |r| <= |xs|
  {
    Collect(ApplyIndexed(xs, f))
  }

  /** `xs.filter(p)`. */
  function Filter<T(!new)>(xs: seq<T>, p: T -> bool): (r: seq<T>)
    ensures |r| <= |xs|
    ensures forall x :: x in r <==> x in xs && p(x)
  {
    if |xs| == 0 then []
    else
      var rest := Filter(xs[1..], p);
      assert forall x :: x in xs <==> x == xs[0] || x in xs[1..];
      (if p(xs[0]) then [xs[0]] else []) + rest
  }
}
