/**
 * A dict of lists filled in one pass, `index.setdefault(key(x), []).append(x)`:
 * keys in order of first appearance, each bucket holding its elements in
 * input order.
 */
module Grouping {

  datatype Grouped<K(==), T> = Grouped(keys: seq<K>, buckets: map<K, seq<T>>)

  /** One step of the pass: create the bucket on first sight of the key, then
      append. */
  function Add<K(==, !new), T>(g: Grouped<K, T>, k: K, x: T): (g': Grouped<K, T>)
    ensures k in g'.buckets && g'.buckets[k] == (if k in g.buckets then g.buckets[k] else []) + [x]
  {
    if k in g.buckets then Grouped(g.keys, g.buckets[k := g.buckets[k] + [x]])
    else Grouped(g.keys + [k], g.buckets[k := [x]])
  }

  /** Reference definition: the elements among the first `n` whose key is `k`,
      in input order. */
  function Members<K(==, !new), T>(xs: seq<T>, key: T -> K, k: K, n: nat): (ms: seq<T>)
    requires n <= |xs|
    ensures forall t :: 0 <= t < |ms| ==> key(ms[t]) == k
  {
    if n == 0 then []
    else Members(xs, key, k, n - 1) + (if key(xs[n - 1]) == k then [xs[n - 1]] else [])
  }

  /** Reference definition: the keys of the first `n` elements, each once, in
      order of first appearance. */
  function KeyOrder<K(==, !new), T>(xs: seq<T>, key: T -> K, n: nat): (ks: seq<K>)
    requires n <= |xs|
    ensures forall k :: k in ks <==> exists i :: 0 <= i < n && key(xs[i]) == k
    ensures forall s, t :: 0 <= s < t < |ks| ==> ks[s] != ks[t]
  {
    if n == 0 then []
    else
      var ks := KeyOrder(xs, key, n - 1);
      if key(xs[n - 1]) in ks then ks else ks + [key(xs[n - 1])]
  }

  /** `g` is the index of the first `n` elements. */
  ghost predicate Groups<K(!new), T>(g: Grouped<K, T>, xs: seq<T>, key: T -> K, n: nat)
    requires n <= |xs|
  {
    && g.keys == KeyOrder(xs, key, n)
    && (forall k :: k in g.buckets <==> k in g.keys)
    && (forall k :: k in g.buckets ==> g.buckets[k] == Members(xs, key, k, n))
  }

  lemma MembersEmptyIfAbsent<K(!new), T>(xs: seq<T>, key: T -> K, k: K, n: nat)
    requires n <= |xs|
    requires k !in KeyOrder(xs, key, n)
    ensures Members(xs, key, k, n) == []
  {
    if n > 0 {
      MembersEmptyIfAbsent(xs, key, k, n - 1);
    }
  }

  /** Adding element `n` to the index of the first `n` gives the index of the
      first `n + 1`. */
  lemma AddStep<K(!new), T>(g: Grouped<K, T>, xs: seq<T>, key: T -> K, n: nat)
    requires n < |xs| && Groups(g, xs, key, n)
    ensures Groups(Add(g, key(xs[n]), xs[n]), xs, key, n + 1)
  {
    var k := key(xs[n]);
    if k !in g.buckets {
      MembersEmptyIfAbsent(xs, key, k, n);
    }
  }

  /** An element is in the bucket of its own key. */
  lemma {:induction false} InOwnBucket<K(!new), T>(xs: seq<T>, key: T -> K, i: nat, n: nat)
    requires i < n <= |xs|
    ensures xs[i] in Members(xs, key, key(xs[i]), n)
  {
    if i < n - 1 {
      InOwnBucket(xs, key, i, n - 1);
    }
  }

  /** A bucket's first element is the first element with that key. */
  lemma {:induction false} MembersHead<K(!new), T>(xs: seq<T>, key: T -> K, k: K, n: nat) returns (i: nat)
    requires n <= |xs| && |Members(xs, key, k, n)| > 0
    ensures i < n && key(xs[i]) == k && Members(xs, key, k, n)[0] == xs[i]
    ensures forall j :: 0 <= j < i ==> key(xs[j]) != k
  {
    var prev := Members(xs, key, k, n - 1);
    if |prev| > 0 {
      i := MembersHead(xs, key, k, n - 1);
    } else {
      i := n - 1;
      forall j | 0 <= j < i ensures key(xs[j]) != k {
        if key(xs[j]) == k {
          InOwnBucket(xs, key, j, n - 1);
        }
      }
    }
  }

  /** Every bucket element is an input element. */
  lemma {:induction false} MembersFromInput<K(!new), T>(xs: seq<T>, key: T -> K, k: K, n: nat)
    requires n <= |xs|
    ensures forall x :: x in Members(xs, key, k, n) ==> x in xs[..n]
  {
    if n > 0 {
      MembersFromInput(xs, key, k, n - 1);
      assert xs[..n - 1] + [xs[n - 1]] == xs[..n];
    }
  }

  /** In an index, every bucket is non-empty and holds exactly the elements
      with its key; its head is the first such element. */
  lemma BucketFacts<K(!new), T>(g: Grouped<K, T>, xs: seq<T>, key: T -> K, k: K) returns (i: nat)
    requires Groups(g, xs, key, |xs|) && k in g.buckets
    ensures i < |xs| && key(xs[i]) == k && |g.buckets[k]| > 0 && g.buckets[k][0] == xs[i]
    ensures forall j :: 0 <= j < i ==> key(xs[j]) != k
    ensures forall t :: 0 <= t < |g.buckets[k]| ==> key(g.buckets[k][t]) == k
  {
    var j :| 0 <= j < |xs| && key(xs[j]) == k;
    InOwnBucket(xs, key, j, |xs|);
    i := MembersHead(xs, key, k, |xs|);
  }
}
