/**
 * Properties of the matching cascade: which stages can answer, where every
 * answer comes from, and what each stage's answer is.
 */
module MatchingFacts {
  import opened Wrappers
  import opened Text
  import opened Records
  import opened Grouping
  import opened Registry
  import opened Cleaning
  import opened Fuzzy
  import opened Matching

  /** The second step 5's exact search and the second step 6's lookup find
      what the first step 5 and step 3 found. */
  predicate Coherent(s: Searches) {
    s.inCountryAgain == s.inCountry && s.globalExact == s.exact
  }

  /** On a registry built from its records, the exact search of the second
      step 5 and the exact lookup of the second step 6 never answer: they
      repeat searches that already came back empty earlier in the cascade. */
  lemma DeadStages(m: Matcher, ratio: Ratio, cleaned: string)
    requires Wf(m)
    ensures MatchCleaned(m, ratio, cleaned).stage != CountryExactAgain
    ensures MatchCleaned(m, ratio, cleaned).stage != GlobalExact
  {
    SearchCoherent(m, ratio, cleaned);
    SelectCoherent(Search(m, ratio, cleaned));
  }

  lemma SelectCoherent(s: Searches)
    requires Coherent(s)
    ensures Select(s).stage != CountryExactAgain && Select(s).stage != GlobalExact
  {
  }

  /** The repeated searches agree with the first ones on a well-formed
      registry. */
  lemma SearchCoherent(m: Matcher, ratio: Ratio, cleaned: string)
    requires Wf(m)
    ensures Coherent(Search(m, ratio, cleaned))
  {
    var (filter, portText) := Country.ExtractCountry(m, cleaned);
    if filter.Some? {
      SecondCountryCodeAgrees(m, filter.value);
    }
    assert SecondCountryPart(m, cleaned) == CountryPart(m, cleaned);
  }

  /** The second step 5 derives the same country code as the first: a
      country-name bucket is never empty, so the first registry record's code
      taken as a default is always overwritten. */
  lemma SecondCountryCodeAgrees(m: Matcher, filter: string)
    requires Wf(m)
    ensures SecondCountryCodeFor(m, filter) == CountryCodeFor(m, filter)
  {
    if filter in m.countryNames.buckets {
      var _ := Bucket(m.countryNames, m.data, CountryNameKey, filter);
    }
  }

  /** Without the bucket invariant the default matters: an empty
      country-name bucket sends the second step 5 to the first record's
      country, where the first step 5 had no country at all. */
  lemma SecondCountryCodeDefault(m: Matcher, filter: string)
    requires filter in m.countryNames.buckets && |m.countryNames.buckets[filter]| == 0 && |m.data| > 0
    ensures CountryCodeFor(m, filter) == ""
    ensures SecondCountryCodeFor(m, filter) == m.data[0].countryCode
  {
  }

  /** Reference definition of the cascade's priority: the stages that can
      answer, in order, each paired with whether its search found something. */
  function Hits(s: Searches): seq<(Stage, bool)> {
    [(ExactName, s.exact.Some?), (CountryExact, s.inCountry.Some?), (Locode, s.locode.Some?),
     (CountryFuzzyHigh, |s.countryHigh| > 0), (CountryFuzzyLow, |s.countryLow| > 0),
     (Containment, s.overlap.Some?), (FuzzyHigh, |s.high| > 0), (PortCode, s.portCode.Some?),
     (FuzzyMedium, |s.medium| > 0)]
  }

  /** The first stage of the list, from position `k`, that found
      something; `NoMatch` if none. */
  function FirstHit(h: seq<(Stage, bool)>, k: nat): Stage
    requires k <= |h|
    decreases |h| - k
  {
    if k == |h| then NoMatch else if h[k].1 then h[k].0 else FirstHit(h, k + 1)
  }

  /** The cascade answers at the first stage whose search found something. */
  lemma CascadeIsFirstHit(m: Matcher, ratio: Ratio, cleaned: string)
    requires Wf(m)
    ensures MatchCleaned(m, ratio, cleaned).stage == FirstHit(Hits(Search(m, ratio, cleaned)), 0)
  {
    SearchCoherent(m, ratio, cleaned);
    SelectIsFirstHit(Search(m, ratio, cleaned));
  }

  /** Selection answers at the first hit of the reference list, once the
      repeated searches agree with the first ones. */
  lemma SelectIsFirstHit(s: Searches)
    requires Coherent(s)
    ensures Select(s).stage == FirstHit(Hits(s), 0)
  {
    var h := Hits(s);
    LaterHits(s);
    assert FirstHit(h, 0) == (if h[0].1 then h[0].0 else FirstHit(h, 1));
    assert FirstHit(h, 1) == (if h[1].1 then h[1].0 else FirstHit(h, 2));
    assert FirstHit(h, 2) == (if h[2].1 then h[2].0 else FirstHit(h, 3));
    assert FirstHit(h, 3) == (if h[3].1 then h[3].0 else FirstHit(h, 4));
    assert FirstHit(h, 4) == (if h[4].1 then h[4].0 else FirstHit(h, 5));
  }

  /** The second half of the list: containment, the global fuzzy searches
      and the port-code lookup. */
  lemma LaterHits(s: Searches)
    ensures FirstHit(Hits(s), 5)
         == if s.overlap.Some? then Containment
            else if |s.high| > 0 then FuzzyHigh
            else if s.portCode.Some? then PortCode
            else if |s.medium| > 0 then FuzzyMedium
            else NoMatch
  {
    var h := Hits(s);
    assert FirstHit(h, 5) == (if h[5].1 then h[5].0 else FirstHit(h, 6));
    assert FirstHit(h, 6) == (if h[6].1 then h[6].0 else FirstHit(h, 7));
    assert FirstHit(h, 7) == (if h[7].1 then h[7].0 else FirstHit(h, 8));
    assert FirstHit(h, 8) == (if h[8].1 then h[8].0 else FirstHit(h, 9));
  }

  /** All ports held by the searches are registry ports. */
  ghost predicate FromData(s: Searches, data: seq<PortRecord>) {
    && (s.exact.Some? ==> s.exact.value in data)
    && (s.inCountry.Some? ==> s.inCountry.value in data)
    && (s.locode.Some? ==> s.locode.value in data)
    && (s.inCountryAgain.Some? ==> s.inCountryAgain.value in data)
    && (s.globalExact.Some? ==> s.globalExact.value in data)
    && (forall x :: x in s.countryHigh ==> x in data)
    && (forall x :: x in s.countryLow ==> x in data)
    && (s.overlap.Some? ==> s.overlap.value in data)
    && (forall x :: x in s.high ==> x in data)
    && (s.portCode.Some? ==> forall x :: x in s.portCode.value ==> x in data)
    && (forall x :: x in s.medium ==> x in data)
  }

  /** Selection answers only with ports the searches hold. */
  lemma SelectFromData(s: Searches, data: seq<PortRecord>)
    requires FromData(s, data)
    ensures var f := Select(s).found;
      && (f.One? ==> f.port in data)
      && (f.Many? ==> forall t :: 0 <= t < |f.ports| ==> f.ports[t] in data)
  {
  }

  /** Step 3 and 6: the port-name lookup finds a port exactly when some
      registry port has that upper-cased name, and then it is the first such
      port in file order. */
  lemma ExactSearchFacts(m: Matcher, cleaned: string)
    requires Wf(m)
    ensures var key := NormalizeText(cleaned);
      && (ExactSearch(m, cleaned).Some? <==> exists i :: 0 <= i < |m.data| && PortNameKey(m.data[i]) == key)
      && (forall i :: 0 <= i < |m.data| && PortNameKey(m.data[i]) == key
                      && (forall j :: 0 <= j < i ==> PortNameKey(m.data[j]) != key)
                      ==> ExactSearch(m, cleaned) == Some(m.data[i]))
  {
    var key := NormalizeText(cleaned);
    if key in m.portNames.buckets {
      var i := Bucket(m.portNames, m.data, PortNameKey, key);
      assert ExactSearch(m, cleaned) == Some(m.data[i]);
      forall i' | 0 <= i' < |m.data| && PortNameKey(m.data[i']) == key
                  && (forall j :: 0 <= j < i' ==> PortNameKey(m.data[j]) != key)
        ensures i' == i
      {
      }
    } else {
      assert key !in KeyOrder(m.data, PortNameKey, |m.data|);
    }
  }

  /** Step 6: a known locode, written plainly or with a space or hyphen,
      finds the LAST record in file order carrying it. */
  lemma LocodeSearchFacts(m: Matcher, cleaned: string)
    requires Wf(m)
    ensures var l := Compact(cleaned);
      && (LocodeSearch(m, cleaned).Some? <==> IsLocode(m.locodes, cleaned))
      && (LocodeSearch(m, cleaned).Some? ==>
            && LocodeSearch(m, cleaned).value.locode == l && LocodeSearch(m, cleaned).value in m.data
            && forall i :: 0 <= i < |m.data| && m.data[i].locode == l
                           && (forall j :: i < j < |m.data| ==> m.data[j].locode != l)
                           ==> LocodeSearch(m, cleaned) == Some(m.data[i]))
  {
    LocodeIndex(m, Compact(cleaned));
  }

  /** Step 7: the containment scan finds a registry port whose name contains
      the text or is contained in it; when it finds none, no registry port
      name overlaps the text. */
  lemma OverlapSearchFacts(m: Matcher, cleaned: string)
    requires Wf(m)
    ensures var text := NormalizeText(cleaned);
      && (OverlapSearch(m, cleaned).Some? ==>
            OverlapSearch(m, cleaned).value in m.data && Overlaps(Upper(OverlapSearch(m, cleaned).value.port), text))
      && (OverlapSearch(m, cleaned).None? ==> forall x :: x in m.data ==> !Overlaps(Upper(x.port), text))
  {
    var g, text := m.portNames, NormalizeText(cleaned);
    var r := FirstOverlap(g, text, 0);
    if r.Some? {
      var _ := Bucket(g, m.data, PortNameKey, g.keys[r.value]);
    } else {
      forall x | x in m.data ensures !Overlaps(Upper(x.port), text) {
        var i :| 0 <= i < |m.data| && m.data[i] == x;
        var k := PortNameKey(x);
        assert k in g.keys;
        var t :| 0 <= t < |g.keys| && g.keys[t] == k;
        var _ := Bucket(g, m.data, PortNameKey, k);
      }
    }
  }

  /** Step 9: a bare port code finds its whole bucket: every registry port
      with that port code, in file order, and at least one. */
  lemma PortCodeSearchFacts(m: Matcher, cleaned: string)
    requires Wf(m)
    ensures PortCodeSearch(m, cleaned).Some? ==>
      var ms := PortCodeSearch(m, cleaned).value;
      && IsPortCodeOnly(cleaned) && ms == Members(m.data, PortCodeKey, Compact(cleaned), |m.data|) && |ms| > 0
      && forall x :: x in ms ==> x in m.data
  {
    if PortCodeSearch(m, cleaned).Some? {
      var _ := Bucket(m.portCodes, m.data, PortCodeKey, Compact(cleaned));
    }
  }

  /** The fuzzy searches return registry ports. */
  lemma FuzzyFromData(m: Matcher, ratio: Ratio, name: string, filter: string, threshold: real)
    requires Wf(m)
    ensures forall x :: x in FuzzyMatch(m, ratio, name, filter, threshold) ==> x in m.data
  {
    SearchSpaceFromData(m, filter);
  }

  /** The in-country fuzzy searches return registry ports. */
  lemma CountryFuzzyFromData(m: Matcher, ratio: Ratio, cleaned: string, threshold: real)
    requires Wf(m)
    ensures forall x :: x in CountryFuzzy(m, ratio, cleaned, threshold) ==> x in m.data
  {
    var (code, portText) := SecondCountryPart(m, cleaned);
    FuzzyFromData(m, ratio, portText, code, threshold);
  }

  lemma SearchFromData(m: Matcher, ratio: Ratio, cleaned: string)
    requires Wf(m)
    ensures FromData(Search(m, ratio, cleaned), m.data)
  {
    ExactInData(m, cleaned);
    LocodeInData(m, cleaned);
    OverlapInData(m, cleaned);
    PortCodeInData(m, cleaned);
    CountryFuzzyFromData(m, ratio, cleaned, 0.75);
    CountryFuzzyFromData(m, ratio, cleaned, 0.65);
    FuzzyFromData(m, ratio, cleaned, "", 0.80);
    FuzzyFromData(m, ratio, cleaned, "", 0.70);
  }

  lemma ExactInData(m: Matcher, cleaned: string)
    requires Wf(m)
    ensures ExactSearch(m, cleaned).Some? ==> ExactSearch(m, cleaned).value in m.data
  {
    var key := NormalizeText(cleaned);
    if key in m.portNames.buckets {
      var _ := Bucket(m.portNames, m.data, PortNameKey, key);
    }
  }

  lemma LocodeInData(m: Matcher, cleaned: string)
    requires Wf(m)
    ensures LocodeSearch(m, cleaned).Some? ==> LocodeSearch(m, cleaned).value in m.data
  {
    LocodeSearchFacts(m, cleaned);
  }

  lemma OverlapInData(m: Matcher, cleaned: string)
    requires Wf(m)
    ensures OverlapSearch(m, cleaned).Some? ==> OverlapSearch(m, cleaned).value in m.data
  {
    OverlapSearchFacts(m, cleaned);
  }

  lemma PortCodeInData(m: Matcher, cleaned: string)
    requires Wf(m)
    ensures PortCodeSearch(m, cleaned).Some? ==> forall x :: x in PortCodeSearch(m, cleaned).value ==> x in m.data
  {
    PortCodeSearchFacts(m, cleaned);
  }

  /** Every port the cascade answers with is a registry port. */
  lemma CascadeFromData(m: Matcher, ratio: Ratio, cleaned: string)
    requires Wf(m)
    ensures var f := MatchCleaned(m, ratio, cleaned).found;
      && (f.One? ==> f.port in m.data)
      && (f.Many? ==> forall t :: 0 <= t < |f.ports| ==> f.ports[t] in m.data)
  {
    SearchFromData(m, ratio, cleaned);
    SelectFromData(Search(m, ratio, cleaned), m.data);
  }

  /** Past the rejections, `match_destination` formats the cascade's pick. */
  lemma DecideCascade(m: Matcher, ratio: Ratio, d: string)
    requires d != "" && !IsNoiseOnly(d) && Cleaned(d) != ""
    ensures var p := MatchCleaned(m, ratio, Cleaned(d));
      Decide(m, ratio, Some(d)) == Decision(p.stage, Format(p.found, d))
  {
  }

  /** Every response of the outcome reports `d` and describes a port of
      `data`. */
  ghost predicate Describes(o: Outcome, d: string, data: seq<PortRecord>) {
    match o
    case Unmatched(t) => t == d
    case Matched(r) => IsResponseFor(r, d, data)
    case Several(rs) => forall t :: 0 <= t < |rs| ==> IsResponseFor(rs[t], d, data)
  }

  ghost predicate IsResponseFor(r: Response, d: string, data: seq<PortRecord>) {
    exists x :: x in data && r == FormatResponse(x, d)
  }

  lemma FormatFromData(f: Found, d: string, data: seq<PortRecord>)
    requires f.One? ==> f.port in data
    requires f.Many? ==> forall t :: 0 <= t < |f.ports| ==> f.ports[t] in data
    ensures Describes(Format(f, d), d, data)
  {
    if f.Many? {
      var rs := FormatAll(f.ports, d);
      assert Format(f, d) == Several(rs);
      forall t | 0 <= t < |rs| ensures IsResponseFor(rs[t], d, data) {
        assert f.ports[t] in data && rs[t] == FormatResponse(f.ports[t], d);
      }
    } else if f.One? {
      assert Format(f, d) == Matched(FormatResponse(f.port, d));
    }
  }

  /** `match_destination` answers only with registry ports, and every
      response reports the destination as given. */
  lemma ResponsesFromData(m: Matcher, ratio: Ratio, d: string)
    requires Wf(m)
    ensures Describes(MatchDestination(m, ratio, Some(d)), d, m.data)
  {
    if d != "" && !IsNoiseOnly(d) && Cleaned(d) != "" {
      CascadeDescribes(m, ratio, d);
    } else {
      Rejects(m, ratio, d);
    }
  }

  /** Empty, pure-noise and all-noise destinations are reported back
      unmatched. */
  lemma Rejects(m: Matcher, ratio: Ratio, d: string)
    requires d == "" || IsNoiseOnly(d) || Cleaned(d) == ""
    ensures MatchDestination(m, ratio, Some(d)) == Unmatched(d)
  {
  }

  lemma CascadeDescribes(m: Matcher, ratio: Ratio, d: string)
    requires Wf(m) && d != "" && !IsNoiseOnly(d) && Cleaned(d) != ""
    ensures Describes(Decide(m, ratio, Some(d)).outcome, d, m.data)
  {
    DecideCascade(m, ratio, d);
    CascadeFromData(m, ratio, Cleaned(d));
    FormatFromData(MatchCleaned(m, ratio, Cleaned(d)).found, d, m.data);
  }

  /** Step 3: a destination that cleans to the name of a port is answered
      with the first port of that name, before any other stage. */
  lemma ExactNameFirst(m: Matcher, ratio: Ratio, d: string, i: nat)
    requires Wf(m) && d != "" && !IsNoiseOnly(d) && Cleaned(d) != ""
    requires i < |m.data| && PortNameKey(m.data[i]) == Cleaned(d)
    requires forall j :: 0 <= j < i ==> PortNameKey(m.data[j]) != Cleaned(d)
    ensures Decide(m, ratio, Some(d)) == Decision(ExactName, Matched(FormatResponse(m.data[i], d)))
  {
    NormalizeCleaned(ExtractDestinationFromRoute(Strip(d)));
    DecideCascade(m, ratio, d);
    ExactNameStage(m, ratio, Cleaned(d), i);
  }

  lemma ExactNameStage(m: Matcher, ratio: Ratio, c: string, i: nat)
    requires Wf(m) && NormalizeText(c) == c
    requires i < |m.data| && PortNameKey(m.data[i]) == c
    requires forall j :: 0 <= j < i ==> PortNameKey(m.data[j]) != c
    ensures MatchCleaned(m, ratio, c) == Pick(ExactName, One(m.data[i]))
  {
    ExactSearchFacts(m, c);
  }

  /** Step 9: a port-code answer is the whole bucket of the code: a single
      response when one port has that code, else one response per port, in
      file order. */
  lemma PortCodeAnswer(m: Matcher, ratio: Ratio, cleaned: string)
    requires Wf(m) && MatchCleaned(m, ratio, cleaned).stage == PortCode
    ensures var f, ms := MatchCleaned(m, ratio, cleaned).found, Members(m.data, PortCodeKey, Compact(cleaned), |m.data|);
      && IsPortCodeOnly(cleaned) && |ms| > 0
      && f == (if |ms| == 1 then One(ms[0]) else Many(ms))
  {
    PortCodeSearchFacts(m, cleaned);
  }

  /** Step 6: a locode answer is the last record in file order carrying the
      locode the text spells. */
  lemma LocodeAnswer(m: Matcher, ratio: Ratio, cleaned: string)
    requires Wf(m) && MatchCleaned(m, ratio, cleaned).stage == Locode
    ensures var f, l := MatchCleaned(m, ratio, cleaned).found, Compact(cleaned);
      && IsLocode(m.locodes, cleaned) && f.One? && f.port.locode == l && f.port in m.data
      && forall i :: 0 <= i < |m.data| && m.data[i].locode == l
                     && (forall j :: i < j < |m.data| ==> m.data[j].locode != l)
                     ==> f.port == m.data[i]
  {
    LocodePick(m, Search(m, ratio, cleaned), cleaned);
  }

  /** Step 6 from the other side: a known locode that neither exact-name
      search caught is answered with the locode index's record. */
  lemma LocodeWhenNoName(m: Matcher, ratio: Ratio, cleaned: string)
    requires IsLocode(m.locodes, cleaned)
    requires ExactSearch(m, cleaned).None? && InCountrySearch(m, cleaned).None?
    ensures MatchCleaned(m, ratio, cleaned) == Pick(Locode, One(m.locodes[Compact(cleaned)]))
  {
    SelectLocode(Search(m, ratio, cleaned));
  }

  lemma SelectLocode(s: Searches)
    requires s.exact.None? && s.inCountry.None? && s.locode.Some?
    ensures Select(s) == Pick(Locode, One(s.locode.value))
  {
  }

  lemma LocodePick(m: Matcher, s: Searches, cleaned: string)
    requires Wf(m) && s.locode == LocodeSearch(m, cleaned) && Select(s).stage == Locode
    ensures var f, l := Select(s).found, Compact(cleaned);
      && IsLocode(m.locodes, cleaned) && f.One? && f.port.locode == l && f.port in m.data
      && forall i :: 0 <= i < |m.data| && m.data[i].locode == l
                     && (forall j :: i < j < |m.data| ==> m.data[j].locode != l)
                     ==> f.port == m.data[i]
  {
    assert Select(s).found == One(s.locode.value);
    LocodeSearchFacts(m, cleaned);
  }

  /** At steps 8 and 10 the containment bonus never applies: step 7 already
      ruled out every port name containing the text, so the port returned
      scored its plain ratio, at least the step's threshold. */
  lemma GlobalFuzzyPlainRatio(m: Matcher, ratio: Ratio, cleaned: string)
    requires Wf(m) && IsUpperCase(cleaned) && Trimmed(cleaned)
    ensures var p := MatchCleaned(m, ratio, cleaned);
      p.stage in {FuzzyHigh, FuzzyMedium} ==>
        && p.found.One? && p.found.port in m.data
        && !Contains(Upper(p.found.port.port), cleaned)
        && ratio(cleaned, Upper(p.found.port.port)) >= (if p.stage == FuzzyHigh then 0.80 else 0.70)
  {
    FuzzyPick(m, ratio, Search(m, ratio, cleaned), cleaned);
  }

  lemma FuzzyPick(m: Matcher, ratio: Ratio, s: Searches, cleaned: string)
    requires Wf(m) && IsUpperCase(cleaned) && Trimmed(cleaned)
    requires s.overlap == OverlapSearch(m, cleaned)
    requires s.high == FuzzyMatch(m, ratio, cleaned, "", 0.80) && s.medium == FuzzyMatch(m, ratio, cleaned, "", 0.70)
    ensures var p := Select(s);
      p.stage in {FuzzyHigh, FuzzyMedium} ==>
        && p.found.One? && p.found.port in m.data
        && !Contains(Upper(p.found.port.port), cleaned)
        && ratio(cleaned, Upper(p.found.port.port)) >= (if p.stage == FuzzyHigh then 0.80 else 0.70)
  {
    var p := Select(s);
    SelectFuzzy(s);
    if p.stage == FuzzyHigh {
      FuzzyHeadPlain(m, ratio, cleaned, 0.80);
    } else if p.stage == FuzzyMedium {
      FuzzyHeadPlain(m, ratio, cleaned, 0.70);
    }
  }

  lemma SelectFuzzy(s: Searches)
    ensures Select(s).stage == FuzzyHigh ==> s.overlap.None? && |s.high| > 0 && Select(s).found == One(s.high[0])
    ensures Select(s).stage == FuzzyMedium ==> s.overlap.None? && |s.medium| > 0 && Select(s).found == One(s.medium[0])
  {
  }

  /** With no port name containing the text, the best fuzzy port scored its
      plain ratio. */
  lemma FuzzyHeadPlain(m: Matcher, ratio: Ratio, cleaned: string, threshold: real)
    requires Wf(m) && IsUpperCase(cleaned) && Trimmed(cleaned)
    requires OverlapSearch(m, cleaned).None? && |FuzzyMatch(m, ratio, cleaned, "", threshold)| > 0
    ensures var x := FuzzyMatch(m, ratio, cleaned, "", threshold)[0];
      && x in m.data && !Contains(Upper(x.port), cleaned) && ratio(cleaned, Upper(x.port)) >= threshold
  {
    var x := FuzzyMatch(m, ratio, cleaned, "", threshold)[0];
    UpperKeepsUpperCase(cleaned);
    assert Qualifies(ratio, Upper(cleaned), threshold, x) && x in SearchSpace(m, "");
    OverlapSearchFacts(m, cleaned);
    assert !Overlaps(Upper(x.port), NormalizeText(cleaned));
  }

  /** The 0.65 in-country stage answers only with a port that scored below
      0.75: one at 0.75 or above would have been taken by the stage before. */
  lemma CountryFuzzyLowScore(m: Matcher, ratio: Ratio, cleaned: string)
    ensures var p, (code, portText) := MatchCleaned(m, ratio, cleaned), SecondCountryPart(m, cleaned);
      p.stage == CountryFuzzyLow ==>
        && code != "" && p.found.One? && p.found.port in SearchSpace(m, code)
        && 0.65 <= Score(ratio, Upper(portText), p.found.port) < 0.75
  {
    var (code, portText) := SecondCountryPart(m, cleaned);
    FuzzyMatchNonEmpty(m, ratio, portText, code, 0.75);
  }

  /** The two in-country fuzzy stages together answer as one search at 0.65
      would: whichever of them answers, the port is the best one at 0.65. */
  lemma CountryFuzzyCascade(m: Matcher, ratio: Ratio, cleaned: string)
    ensures var p, low := MatchCleaned(m, ratio, cleaned), CountryFuzzy(m, ratio, cleaned, 0.65);
      p.stage in {CountryFuzzyHigh, CountryFuzzyLow} ==> |low| > 0 && p.found == One(low[0])
  {
    var s := Search(m, ratio, cleaned);
    SelectCountryFuzzy(s);
    CountryFuzzyAgrees(m, ratio, cleaned);
  }

  lemma SelectCountryFuzzy(s: Searches)
    ensures Select(s).stage == CountryFuzzyHigh ==> |s.countryHigh| > 0 && Select(s).found == One(s.countryHigh[0])
    ensures Select(s).stage == CountryFuzzyLow ==> |s.countryLow| > 0 && Select(s).found == One(s.countryLow[0])
  {
  }

  lemma CountryFuzzyAgrees(m: Matcher, ratio: Ratio, cleaned: string)
    ensures var high, low := CountryFuzzy(m, ratio, cleaned, 0.75), CountryFuzzy(m, ratio, cleaned, 0.65);
      |high| > 0 ==> |low| > 0 && high[0] == low[0]
  {
    var (code, portText) := SecondCountryPart(m, cleaned);
    if code != "" {
      TwoThresholds(m, ratio, portText, code, 0.65, 0.75);
    }
  }
}
