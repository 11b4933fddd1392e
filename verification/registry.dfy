/**
 * The matcher's in-memory registry: the list of port records read from
 * `locode.json` and the five indexes the constructor builds over it.
 */
module Registry {
  import opened Records
  import opened Text
  import opened Grouping
  import opened Maps

  /** Index keys: each record is filed under the upper-cased field. */
  function PortNameKey(r: PortRecord): string { Upper(r.port) }

  function CountryCodeKey(r: PortRecord): string { Upper(r.countryCode) }

  function CountryNameKey(r: PortRecord): string { Upper(r.country) }

  function PortCodeKey(r: PortRecord): string { Upper(r.portCode) }

  /** A dict from key to the list of records filed under it, keys in
      insertion order. */
  type Index = Grouped<string, PortRecord>

  datatype Matcher = Matcher(
    data: seq<PortRecord>,               // the records in file order
    locodes: map<string, PortRecord>,    // locode -> record (the last one wins)
    portNames: Index,
    countryCodes: Index,
    countryNames: Index,
    portCodes: Index)

  /** The (locode, record) pairs the locode index is built from. */
  function LocodePairs(data: seq<PortRecord>): (pairs: seq<(string, PortRecord)>)
    ensures |pairs| == |data| && forall i :: 0 <= i < |data| ==> pairs[i] == (data[i].locode, data[i])
  {
    seq(|data|, i requires 0 <= i < |data| => (data[i].locode, data[i]))
  }

  /** The indexes are the ones the constructor builds from `data`. */
  ghost predicate Wf(m: Matcher) {
    && m.locodes == MapOf(LocodePairs(m.data))
    && Groups(m.portNames, m.data, PortNameKey, |m.data|)
    && Groups(m.countryCodes, m.data, CountryCodeKey, |m.data|)
    && Groups(m.countryNames, m.data, CountryNameKey, |m.data|)
    && Groups(m.portCodes, m.data, PortCodeKey, |m.data|)
  }

  /** The constructor: the locode dict, then one pass filing every record
      under its port name, country code, country name and port code. */
  method Init(data: seq<PortRecord>) returns (m: Matcher)
    ensures m.data == data && Wf(m)
  {
    var locodes := MapOf(LocodePairs(data));
    var names, codes, countries, portCodes := Grouped([], map[]), Grouped([], map[]), Grouped([], map[]), Grouped([], map[]);
    for i := 0 to |data|
      invariant Groups(names, data, PortNameKey, i)
      invariant Groups(codes, data, CountryCodeKey, i)
      invariant Groups(countries, data, CountryNameKey, i)
      invariant Groups(portCodes, data, PortCodeKey, i)
    {
      var port := data[i];
      AddStep(names, data, PortNameKey, i);
      AddStep(codes, data, CountryCodeKey, i);
      AddStep(countries, data, CountryNameKey, i);
      AddStep(portCodes, data, PortCodeKey, i);
      names := Add(names, Upper(port.port), port);
      codes := Add(codes, Upper(port.countryCode), port);
      countries := Add(countries, Upper(port.country), port);
      portCodes := Add(portCodes, Upper(port.portCode), port);
    }
    m := Matcher(data, locodes, names, codes, countries, portCodes);
  }

  /** The locode index maps a locode to the LAST record carrying it, and only
      record locodes are keys. */
  lemma LocodeIndex(m: Matcher, l: string)
    requires Wf(m)
    ensures l in m.locodes <==> exists i :: 0 <= i < |m.data| && m.data[i].locode == l
    ensures l in m.locodes ==> m.locodes[l].locode == l && m.locodes[l] in m.data
    ensures forall i :: 0 <= i < |m.data| && m.data[i].locode == l
               && (forall j :: i < j < |m.data| ==> m.data[j].locode != l)
               ==> m.locodes[l] == m.data[i]
  {
    var pairs := LocodePairs(m.data);
    if l in m.locodes {
      var i := MapOfEntry(pairs, l);
      assert m.data[i] == m.locodes[l];
    }
    forall i | 0 <= i < |m.data| && m.data[i].locode == l
               && (forall j :: i < j < |m.data| ==> m.data[j].locode != l)
      ensures m.locodes[l] == m.data[i]
    {
      assert pairs[i].0 == l;
      MapOfLastWins(pairs, i);
    }
  }

  /** A bucket is non-empty, holds only records with its key, and starts with
      the first record in file order that has the key. */
  lemma Bucket(g: Index, data: seq<PortRecord>, key: PortRecord -> string, k: string) returns (i: nat)
    requires Groups(g, data, key, |data|) && k in g.buckets
    ensures i < |data| && key(data[i]) == k && |g.buckets[k]| > 0 && g.buckets[k][0] == data[i]
    ensures forall j :: 0 <= j < i ==> key(data[j]) != k
    ensures forall t :: 0 <= t < |g.buckets[k]| ==> key(g.buckets[k][t]) == k && g.buckets[k][t] in data
  {
    i := BucketFacts(g, data, key, k);
    MembersFromInput(data, key, k, |data|);
    assert data[..|data|] == data;
  }
}
