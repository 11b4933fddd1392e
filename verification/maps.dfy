/** Python dicts built from a sequence of (key, value) pairs in order. */
module Maps {

  /** `dict(pairs)` built in order: a later pair with the same key replaces
      an earlier one. */
  function MapOf<K, V>(pairs: seq<(K, V)>): (m: map<K, V>)
    ensures forall i :: 0 <= i < |pairs| ==> pairs[i].0 in m
    ensures forall k :: k in m ==> exists i :: 0 <= i < |pairs| && pairs[i].0 == k
  {
    MapOfFirst(pairs, |pairs|)
  }

  /** The map built from the first `n` pairs. */
  function MapOfFirst<K, V>(pairs: seq<(K, V)>, n: nat): (m: map<K, V>)
    requires n <= |pairs|
    ensures forall i :: 0 <= i < n ==> pairs[i].0 in m
    ensures forall k :: k in m ==> exists i :: 0 <= i < n && pairs[i].0 == k
  {
    if n == 0 then map[]
    else MapOfFirst(pairs, n - 1)[pairs[n - 1].0 := pairs[n - 1].1]
  }

  /** The value a key maps to is the one of the LAST pair with that key. */
  lemma MapOfLastWins<K, V>(pairs: seq<(K, V)>, i: nat)
    requires i < |pairs|
    requires forall j :: i < j < |pairs| ==> pairs[j].0 != pairs[i].0
    ensures MapOf(pairs)[pairs[i].0] == pairs[i].1
  {
    LastWinsFirst(pairs, i, |pairs|);
  }

  lemma {:induction false} LastWinsFirst<K, V>(pairs: seq<(K, V)>, i: nat, n: nat)
    requires i < n <= |pairs|
    requires forall j :: i < j < n ==> pairs[j].0 != pairs[i].0
    ensures MapOfFirst(pairs, n)[pairs[i].0] == pairs[i].1
  {
    if i < n - 1 {
      LastWinsFirst(pairs, i, n - 1);
    }
  }

  /** Every entry of the map is one of the pairs. */
  lemma MapOfEntry<K, V>(pairs: seq<(K, V)>, k: K) returns (i: nat)
    requires k in MapOf(pairs)
    ensures i < |pairs| && pairs[i] == (k, MapOf(pairs)[k])
  {
    i := FirstEntry(pairs, k, |pairs|);
  }

  lemma {:induction false} FirstEntry<K, V>(pairs: seq<(K, V)>, k: K, n: nat) returns (i: nat)
    requires n <= |pairs| && k in MapOfFirst(pairs, n)
    ensures i < n && pairs[i] == (k, MapOfFirst(pairs, n)[k])
  {
    if pairs[n - 1].0 == k {
      i := n - 1;
    } else {
      i := FirstEntry(pairs, k, n - 1);
    }
  }
}
