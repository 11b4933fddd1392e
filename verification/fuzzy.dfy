/**
 * `_fuzzy_match_port_name`: score every port of a search space against a
 * name, keep the ones at or above a threshold, and order them by score,
 * highest first, ties in search-space order.
 */
module Fuzzy {
  import opened Text
  import opened Records
  import opened Registry

  /** `SequenceMatcher(None, a, b).ratio()`, which the model takes as given. */
  type Ratio = (string, string) -> real

  /** The score of one port: the ratio of the upper-cased name to the
      upper-cased port name, raised to at least 0.85 when the name occurs
      inside the port name. */
  function Score(ratio: Ratio, nameUpper: string, port: PortRecord): (s: real)
    ensures s >= ratio(nameUpper, Upper(port.port))
    ensures Contains(Upper(port.port), nameUpper) ==> s >= 0.85
    ensures !Contains(Upper(port.port), nameUpper) ==> s == ratio(nameUpper, Upper(port.port))
    ensures s == ratio(nameUpper, Upper(port.port)) || s == 0.85
  {
    var base := ratio(nameUpper, Upper(port.port));
    if Contains(Upper(port.port), nameUpper) && base < 0.85 then 0.85 else base
  }

  /** The ports searched: the country-name bucket of a non-empty filter,
      else its country-code bucket, else every port. */
  function SearchSpace(m: Matcher, filter: string): (space: seq<PortRecord>)
    ensures filter == "" ==> space == m.data
    ensures space == m.data
            || (filter in m.countryNames.buckets && space == m.countryNames.buckets[filter])
            || (filter in m.countryCodes.buckets && space == m.countryCodes.buckets[filter])
  {
    if filter != "" && filter in m.countryNames.buckets then m.countryNames.buckets[filter]
    else if filter != "" && filter in m.countryCodes.buckets then m.countryCodes.buckets[filter]
    else m.data
  }

  /** In a well-formed matcher every searched port is a registry port. */
  lemma SearchSpaceFromData(m: Matcher, filter: string)
    requires Wf(m)
    ensures forall x :: x in SearchSpace(m, filter) ==> x in m.data
  {
    if filter != "" && filter in m.countryNames.buckets {
      var _ := Bucket(m.countryNames, m.data, CountryNameKey, filter);
    } else if filter != "" && filter in m.countryCodes.buckets {
      var _ := Bucket(m.countryCodes, m.data, CountryCodeKey, filter);
    }
  }

  /** A scored port, with its position in the search space. */
  datatype Candidate = Candidate(pos: nat, port: PortRecord, score: real)

  predicate Qualifies(ratio: Ratio, nameUpper: string, threshold: real, x: PortRecord) {
    Score(ratio, nameUpper, x) >= threshold
  }

  /** The `matches` list: the first `n` ports of the space that reach the
      threshold, in space order. */
  function Candidates(space: seq<PortRecord>, ratio: Ratio, nameUpper: string, threshold: real, n: nat): (cs: seq<Candidate>)
    requires n <= |space|
    ensures forall t :: 0 <= t < |cs| ==> cs[t].pos < n && cs[t].port == space[cs[t].pos]
                                          && cs[t].score == Score(ratio, nameUpper, cs[t].port)
                                          && cs[t].score >= threshold
    ensures forall t, u :: 0 <= t < u < |cs| ==> cs[t].pos < cs[u].pos
  {
    if n == 0 then []
    else
      var cs := Candidates(space, ratio, nameUpper, threshold, n - 1);
      var s := Score(ratio, nameUpper, space[n - 1]);
      if s >= threshold then cs + [Candidate(n - 1, space[n - 1], s)] else cs
  }

  /** Every qualifying port is among the candidates. */
  lemma {:induction false} CandidatesComplete(space: seq<PortRecord>, ratio: Ratio, nameUpper: string, threshold: real, n: nat, i: nat)
    requires i < n <= |space| && Qualifies(ratio, nameUpper, threshold, space[i])
    ensures exists t :: 0 <= t < |Candidates(space, ratio, nameUpper, threshold, n)|
                        && Candidates(space, ratio, nameUpper, threshold, n)[t].pos == i
  {
    var cs := Candidates(space, ratio, nameUpper, threshold, n);
    if i == n - 1 {
      assert cs[|cs| - 1].pos == i;
    } else {
      CandidatesComplete(space, ratio, nameUpper, threshold, n - 1, i);
      var prev := Candidates(space, ratio, nameUpper, threshold, n - 1);
      var t :| 0 <= t < |prev| && prev[t].pos == i;
      assert cs[t] == prev[t];
    }
  }

  // --------------------------------------------------------------- stable sort

  /** `a` comes before `b` in `sort(key=score, reverse=True)`: a higher score,
      or the same score and an earlier position (the sort is stable). */
  predicate Before(a: Candidate, b: Candidate) {
    a.score > b.score || (a.score == b.score && a.pos < b.pos)
  }

  predicate Ordered(cs: seq<Candidate>) {
    forall t, u :: 0 <= t < u < |cs| ==> Before(cs[t], cs[u])
  }

  /** Inserts `c` after every element scoring at least as much. */
  function Insert(c: Candidate, cs: seq<Candidate>): (r: seq<Candidate>)
    ensures multiset(r) == multiset(cs) + multiset{c}
  {
    if |cs| == 0 then [c]
    else if cs[0].score < c.score then [c] + cs
    else
      assert cs == [cs[0]] + cs[1..];
      [cs[0]] + Insert(c, cs[1..])
  }

  lemma {:induction false} InsertOrdered(c: Candidate, cs: seq<Candidate>)
    requires Ordered(cs)
    requires forall t :: 0 <= t < |cs| ==> cs[t].pos < c.pos
    ensures Ordered(Insert(c, cs))
  {
    if |cs| > 0 && cs[0].score >= c.score {
      var rest := Insert(c, cs[1..]);
      InsertOrdered(c, cs[1..]);
      var r := [cs[0]] + rest;
      forall u | 0 < u < |r| ensures Before(cs[0], r[u]) {
        assert r[u] in multiset(rest);
        assert r[u] in multiset(cs[1..]) + multiset{c};
        if r[u] != c {
          assert r[u] in cs[1..];
        }
      }
    }
  }

  /** Insertion sort, inserting the elements in input order. */
  function SortByScore(cs: seq<Candidate>): (r: seq<Candidate>)
    ensures multiset(r) == multiset(cs)
  {
    if |cs| == 0 then []
    else
      assert cs == cs[..|cs| - 1] + [cs[|cs| - 1]];
      Insert(cs[|cs| - 1], SortByScore(cs[..|cs| - 1]))
  }

  /** Sorting candidates listed in increasing position orders them by score,
      ties by position. */
  lemma {:induction false} SortOrdered(cs: seq<Candidate>)
    requires forall t, u :: 0 <= t < u < |cs| ==> cs[t].pos < cs[u].pos
    ensures Ordered(SortByScore(cs))
  {
    if |cs| > 0 {
      var init := cs[..|cs| - 1];
      var c := cs[|cs| - 1];
      SortOrdered(init);
      var sorted := SortByScore(init);
      forall t | 0 <= t < |sorted| ensures sorted[t].pos < c.pos {
        assert sorted[t] in multiset(init);
      }
      InsertOrdered(c, sorted);
    }
  }

  function Ports(cs: seq<Candidate>): (ps: seq<PortRecord>)
    ensures |ps| == |cs| && forall t :: 0 <= t < |cs| ==> ps[t] == cs[t].port
  {
    seq(|cs|, t requires 0 <= t < |cs| => cs[t].port)
  }

  /** The ranked candidates of `_fuzzy_match_port_name`. */
  function Ranked(m: Matcher, ratio: Ratio, name: string, filter: string, threshold: real): seq<Candidate> {
    var space := SearchSpace(m, filter);
    SortByScore(Candidates(space, ratio, Upper(name), threshold, |space|))
  }

  /** `_fuzzy_match_port_name(name, filter, threshold)`. */
  function FuzzyMatch(m: Matcher, ratio: Ratio, name: string, filter: string, threshold: real): (ps: seq<PortRecord>)
    ensures forall t :: 0 <= t < |ps| ==> ps[t] in SearchSpace(m, filter)
                                          && Qualifies(ratio, Upper(name), threshold, ps[t])
  {
    var ranked := Ranked(m, ratio, name, filter, threshold);
    RankedFromSpace(m, ratio, name, filter, threshold);
    Ports(ranked)
  }

  lemma RankedFromSpace(m: Matcher, ratio: Ratio, name: string, filter: string, threshold: real)
    ensures var ranked, space := Ranked(m, ratio, name, filter, threshold), SearchSpace(m, filter);
      forall t :: 0 <= t < |ranked| ==> ranked[t].port in space
                                        && Qualifies(ratio, Upper(name), threshold, ranked[t].port)
  {
    var space := SearchSpace(m, filter);
    var cs := Candidates(space, ratio, Upper(name), threshold, |space|);
    var ranked := Ranked(m, ratio, name, filter, threshold);
    forall t | 0 <= t < |ranked|
      ensures ranked[t].port in space && Qualifies(ratio, Upper(name), threshold, ranked[t].port)
    {
      assert ranked[t] in multiset(cs);
      var u :| 0 <= u < |cs| && cs[u] == ranked[t];
    }
  }

  /** The result is ordered by score, highest first, and holds exactly the
      qualifying ports of the space, each once per position. */
  lemma FuzzyMatchRanked(m: Matcher, ratio: Ratio, name: string, filter: string, threshold: real)
    ensures var ranked, space := Ranked(m, ratio, name, filter, threshold), SearchSpace(m, filter);
      && Ordered(ranked)
      && FuzzyMatch(m, ratio, name, filter, threshold) == Ports(ranked)
      && multiset(ranked) == multiset(Candidates(space, ratio, Upper(name), threshold, |space|))
  {
    var space := SearchSpace(m, filter);
    SortOrdered(Candidates(space, ratio, Upper(name), threshold, |space|));
  }

  /** The result is non-empty exactly when some port of the space reaches the
      threshold. */
  lemma FuzzyMatchNonEmpty(m: Matcher, ratio: Ratio, name: string, filter: string, threshold: real)
    ensures |FuzzyMatch(m, ratio, name, filter, threshold)| > 0
            <==> exists x :: x in SearchSpace(m, filter) && Qualifies(ratio, Upper(name), threshold, x)
  {
    var space := SearchSpace(m, filter);
    var cs := Candidates(space, ratio, Upper(name), threshold, |space|);
    if x :| x in space && Qualifies(ratio, Upper(name), threshold, x) {
      var i :| 0 <= i < |space| && space[i] == x;
      CandidatesComplete(space, ratio, Upper(name), threshold, |space|, i);
      assert |cs| > 0;
      assert |multiset(SortByScore(cs))| > 0;
    }
  }

  /** The port returned first is the first port of the space with the
      highest qualifying score. */
  lemma FuzzyMatchHead(m: Matcher, ratio: Ratio, name: string, filter: string, threshold: real)
    returns (i: nat)
    requires |FuzzyMatch(m, ratio, name, filter, threshold)| > 0
    ensures var space, best := SearchSpace(m, filter), FuzzyMatch(m, ratio, name, filter, threshold)[0];
      && i < |space| && best == space[i] && Qualifies(ratio, Upper(name), threshold, best)
      && (forall j :: 0 <= j < |space| && Qualifies(ratio, Upper(name), threshold, space[j]) ==>
            Score(ratio, Upper(name), space[j]) < Score(ratio, Upper(name), best)
            || (Score(ratio, Upper(name), space[j]) == Score(ratio, Upper(name), best) && i <= j))
  {
    var space := SearchSpace(m, filter);
    var ranked := Ranked(m, ratio, name, filter, threshold);
    FuzzyMatchRanked(m, ratio, name, filter, threshold);
    RankedIsCandidate(m, ratio, name, filter, threshold, 0);
    i := ranked[0].pos;
    forall j | 0 <= j < |space| && Qualifies(ratio, Upper(name), threshold, space[j])
      ensures Score(ratio, Upper(name), space[j]) < ranked[0].score
              || (Score(ratio, Upper(name), space[j]) == ranked[0].score && i <= j)
    {
      var u := RankedPosition(m, ratio, name, filter, threshold, j);
      if u > 0 {
        assert Before(ranked[0], ranked[u]);
      }
    }
  }

  /** Every ranked entry is a candidate: a qualifying port with its position
      in the space and its score. */
  lemma RankedIsCandidate(m: Matcher, ratio: Ratio, name: string, filter: string, threshold: real, u: nat)
    requires u < |Ranked(m, ratio, name, filter, threshold)|
    ensures var c, space := Ranked(m, ratio, name, filter, threshold)[u], SearchSpace(m, filter);
      && c.pos < |space| && c.port == space[c.pos]
      && c.score == Score(ratio, Upper(name), c.port) && c.score >= threshold
  {
    var space := SearchSpace(m, filter);
    var cs := Candidates(space, ratio, Upper(name), threshold, |space|);
    var ranked := Ranked(m, ratio, name, filter, threshold);
    assert ranked[u] in multiset(cs);
  }

  /** A qualifying port of the space has a ranked entry for its position. */
  lemma RankedPosition(m: Matcher, ratio: Ratio, name: string, filter: string, threshold: real, j: nat)
    returns (u: nat)
    requires j < |SearchSpace(m, filter)| && Qualifies(ratio, Upper(name), threshold, SearchSpace(m, filter)[j])
    ensures var ranked, space := Ranked(m, ratio, name, filter, threshold), SearchSpace(m, filter);
      u < |ranked| && ranked[u].pos == j && ranked[u].score == Score(ratio, Upper(name), space[j])
  {
    var space := SearchSpace(m, filter);
    var cs := Candidates(space, ratio, Upper(name), threshold, |space|);
    var ranked := Ranked(m, ratio, name, filter, threshold);
    CandidatesComplete(space, ratio, Upper(name), threshold, |space|, j);
    var t :| 0 <= t < |cs| && cs[t].pos == j;
    assert cs[t] in multiset(ranked);
    u :| 0 <= u < |ranked| && ranked[u] == cs[t];
  }

  /** A name occurring inside a port name always qualifies for thresholds up
      to 0.85. */
  lemma ContainedQualifies(ratio: Ratio, nameUpper: string, threshold: real, x: PortRecord)
    requires threshold <= 0.85 && Contains(Upper(x.port), nameUpper)
    ensures Qualifies(ratio, nameUpper, threshold, x)
  {
  }

  /** Lowering the threshold never loses a port: every port passing the
      higher threshold passes the lower one. */
  lemma LowerThresholdKeeps(m: Matcher, ratio: Ratio, name: string, filter: string, low: real, high: real)
    requires low <= high
    ensures forall x :: x in FuzzyMatch(m, ratio, name, filter, high) ==> x in FuzzyMatch(m, ratio, name, filter, low)
  {
    forall x | x in FuzzyMatch(m, ratio, name, filter, high)
      ensures x in FuzzyMatch(m, ratio, name, filter, low)
    {
      assert Qualifies(ratio, Upper(name), low, x);
      FuzzyMatchMember(m, ratio, name, filter, low, x);
    }
  }

  /** A search at a high threshold followed, when it finds nothing, by one
      at a lower threshold answers with the same port as the lower search
      alone: whenever the high search finds something, its best port is also
      the best port of the low search. */
  lemma TwoThresholds(m: Matcher, ratio: Ratio, name: string, filter: string, low: real, high: real)
    requires low <= high
    ensures var h, l := FuzzyMatch(m, ratio, name, filter, high), FuzzyMatch(m, ratio, name, filter, low);
      |h| > 0 ==> |l| > 0 && h[0] == l[0]
  {
    var h, l := FuzzyMatch(m, ratio, name, filter, high), FuzzyMatch(m, ratio, name, filter, low);
    if |h| > 0 {
      var space, n := SearchSpace(m, filter), Upper(name);
      LowerThresholdKeeps(m, ratio, name, filter, low, high);
      assert h[0] in l;
      var ih := FuzzyMatchHead(m, ratio, name, filter, high);
      var il := FuzzyMatchHead(m, ratio, name, filter, low);
      assert Qualifies(ratio, n, low, space[ih]);
      assert Score(ratio, n, space[ih]) <= Score(ratio, n, space[il]);
      assert Qualifies(ratio, n, high, space[il]);
      assert ih == il;
    }
  }

  /** Every qualifying port of the space is in the result. */
  lemma FuzzyMatchMember(m: Matcher, ratio: Ratio, name: string, filter: string, threshold: real, x: PortRecord)
    requires x in SearchSpace(m, filter) && Qualifies(ratio, Upper(name), threshold, x)
    ensures x in FuzzyMatch(m, ratio, name, filter, threshold)
  {
    var ranked := Ranked(m, ratio, name, filter, threshold);
    var c := RankedHasPort(m, ratio, name, filter, threshold, x);
    var u :| 0 <= u < |ranked| && ranked[u] == c;
    FuzzyMatchIsPorts(m, ratio, name, filter, threshold);
    assert Ports(ranked)[u] == x;
  }

  lemma RankedHasPort(m: Matcher, ratio: Ratio, name: string, filter: string, threshold: real, x: PortRecord)
    returns (c: Candidate)
    requires x in SearchSpace(m, filter) && Qualifies(ratio, Upper(name), threshold, x)
    ensures c in Ranked(m, ratio, name, filter, threshold) && c.port == x
  {
    var space := SearchSpace(m, filter);
    var cs := Candidates(space, ratio, Upper(name), threshold, |space|);
    var i :| 0 <= i < |space| && space[i] == x;
    CandidatesComplete(space, ratio, Upper(name), threshold, |space|, i);
    var t :| 0 <= t < |cs| && cs[t].pos == i;
    c := cs[t];
    assert c in multiset(Ranked(m, ratio, name, filter, threshold));
  }

  lemma FuzzyMatchIsPorts(m: Matcher, ratio: Ratio, name: string, filter: string, threshold: real)
    ensures FuzzyMatch(m, ratio, name, filter, threshold) == Ports(Ranked(m, ratio, name, filter, threshold))
  {
  }
}
