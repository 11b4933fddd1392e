/**
 * Keeping the first occurrence of every key, the shape of the builder's
 * `seen` set.  Positions whose key is None take no part.
 */
module Dedup {
  import opened Wrappers

  /** Position `i` carries a key that no earlier position carries. */
  predicate IsFirst<K(==)>(keys: seq<Option<K>>, i: nat)
    requires i < |keys|
  {
    keys[i].Some? && forall j :: 0 <= j < i ==> keys[j] != keys[i]
  }

  /** The first-occurrence positions among the first `n`, in increasing order;
      the keys they carry are pairwise different. */
  function FirstIndices<K(==)>(keys: seq<Option<K>>, n: nat): (idx: seq<nat>)
    requires n <= |keys|
    ensures forall t :: 0 <= t < |idx| ==> idx[t] < n && IsFirst(keys, idx[t])
    ensures forall t, u :: 0 <= t < u < |idx| ==> idx[t] < idx[u] && keys[idx[t]] != keys[idx[u]]
    ensures forall i :: 0 <= i < n && IsFirst(keys, i) ==> i in idx
  {
    if n == 0 then []
    else FirstIndices(keys, n - 1) + (if IsFirst(keys, n - 1) then [n - 1] else [])
  }

  /** Every key among the first `n` positions is carried by a kept position at
      or before its first appearance. */
  lemma {:induction false} FirstKeysComplete<K>(keys: seq<Option<K>>, k: nat, n: nat)
    requires k < n <= |keys| && keys[k].Some?
    ensures exists i :: 0 <= i <= k && i in FirstIndices(keys, n) && keys[i] == keys[k]
    decreases k
  {
    if IsFirst(keys, k) {
      assert k in FirstIndices(keys, n);
    } else {
      var j :| 0 <= j < k && keys[j] == keys[k];
      FirstKeysComplete(keys, j, n);
    }
  }

  /** The keys carried by the first `n` positions. */
  function SeenUpTo<K>(keys: seq<Option<K>>, n: nat): (seen: set<K>)
    requires n <= |keys|
    ensures forall j :: 0 <= j < n && keys[j].Some? ==> keys[j].value in seen
    ensures forall k :: k in seen ==> exists j :: 0 <= j < n && keys[j] == Some(k)
  {
    if n == 0 then {}
    else SeenUpTo(keys, n - 1) + (if keys[n - 1].Some? then {keys[n - 1].value} else {})
  }

  /** A position is a first occurrence exactly when its key is not among the
      keys seen before it: the test the builder's `seen` set performs. */
  lemma FirstIffUnseen<K>(keys: seq<Option<K>>, i: nat)
    requires i < |keys|
    ensures IsFirst(keys, i) <==> keys[i].Some? && keys[i].value !in SeenUpTo(keys, i)
  {
  }
}
