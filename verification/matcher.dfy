/**
 * `match_destination`: the cascade that maps a free-text AIS destination to
 * UN/LOCODE port records.  Each stage either answers or hands over to the
 * next one; `Decide` records which stage answered.
 */
module Matching {
  import opened Wrappers
  import opened Text
  import opened Records
  import opened Registry
  import opened Cleaning
  import opened Country
  import opened Fuzzy

  /** A matched port as `_format_response` builds it (`matched` is True). */
  datatype Response = Response(
    reportedDestination: string,
    locode: string,
    port: string,
    country: string,
    lat: Option<real>,
    lon: Option<real>)

  /** What `match_destination` returns: `_format_unmatched(text)`, one
      response, or the list of responses of the port-code stage. */
  datatype Outcome =
    | Unmatched(reported: string)
    | Matched(response: Response)
    | Several(responses: seq<Response>)

  /** The stage of the cascade that produced the outcome. */
  datatype Stage =
    | Rejected            // empty or non-string input
    | NoiseOnly           // the whole input is a noise phrase
    | NothingLeft         // nothing left after cleaning
    | ExactName           // step 3: exact port name
    | CountryExact        // step 5: exact port name within the extracted country
    | Locode              // step 6: a known UN/LOCODE
    | CountryExactAgain   // second step 5: the same exact search repeated
    | CountryFuzzyHigh    // fuzzy within the country, threshold 0.75
    | CountryFuzzyLow     // fuzzy within the country, threshold 0.65
    | GlobalExact         // second step 6: exact port name again
    | Containment         // step 7: one name contains the other
    | FuzzyHigh           // step 8: fuzzy over all ports, threshold 0.80
    | PortCode            // step 9: a bare three-letter port code
    | FuzzyMedium         // step 10: fuzzy over all ports, threshold 0.70
    | NoMatch

  datatype Decision = Decision(stage: Stage, outcome: Outcome)

  /** What a matching stage found: nothing, one port, or a list of ports. */
  datatype Found = Nothing | One(port: PortRecord) | Many(ports: seq<PortRecord>)

  /** A stage's answer before formatting. */
  datatype Pick = Pick(stage: Stage, found: Found)

  /** The phrases that alone make a destination pure noise. */
  const NoiseOnlyList: seq<string> := [
    "TBA", "ANCH", "UNKNOWN", "N/A", "NONE", "IN ORDER", "FOR ORDER", "FOR ORDERS", "ORDERS", "ORDER", "ANCHORAGE"]

  /** `_format_response(port, reported)`. */
  function FormatResponse(x: PortRecord, reported: string): Response {
    Response(reported, x.locode, x.port, x.country, x.lat, x.lon)
  }

  function FormatAll(xs: seq<PortRecord>, reported: string): (rs: seq<Response>)
    ensures |rs| == |xs| && forall t :: 0 <= t < |xs| ==> rs[t] == FormatResponse(xs[t], reported)
  {
    seq(|xs|, t requires 0 <= t < |xs| => FormatResponse(xs[t], reported))
  }

  /** `index[key][0]` when the key is present. */
  function Head(g: Index, key: string): Option<PortRecord> {
    if key in g.buckets && |g.buckets[key]| > 0 then Some(g.buckets[key][0]) else None
  }

  /** The country code the filter stands for: the code of the first port of
      a country-name bucket, or the filter itself when it is a known code;
      "" when there is none (Python's None and "" are both false). */
  function CountryCodeFor(m: Matcher, filter: string): string {
    if filter in m.countryNames.buckets then
      (if |m.countryNames.buckets[filter]| > 0 then m.countryNames.buckets[filter][0].countryCode else "")
    else if filter in m.countryCodes.buckets then filter
    else ""
  }

  /** The second step 5's country code: as `CountryCodeFor`, except that for a
      country-name filter the code starts out as the first registry record's
      and the bucket's first port then overwrites it.  With no registry record
      at all Python raises an IndexError; that case gives "" here. */
  function SecondCountryCodeFor(m: Matcher, filter: string): string {
    if filter in m.countryNames.buckets then
      var default := if |m.data| > 0 then m.data[0].countryCode else "";
      (if |m.countryNames.buckets[filter]| > 0 then m.countryNames.buckets[filter][0].countryCode else default)
    else if filter in m.countryCodes.buckets then filter
    else ""
  }

  predicate InCountry(x: PortRecord, code: string, portUpper: string) {
    x.countryCode == code && Upper(x.port) == portUpper
  }

  /** The first port, from position `i` on, of the given country whose
      upper-cased name is `portUpper`. */
  function ExactInCountry(data: seq<PortRecord>, code: string, portUpper: string, i: nat): (r: Option<nat>)
    requires i <= |data|
    ensures r.Some? ==> i <= r.value < |data| && InCountry(data[r.value], code, portUpper)
    ensures r.Some? ==> forall j :: i <= j < r.value ==> !InCountry(data[j], code, portUpper)
    ensures r.None? ==> forall j :: i <= j < |data| ==> !InCountry(data[j], code, portUpper)
    decreases |data| - i
  {
    if i == |data| then None
    else if InCountry(data[i], code, portUpper) then Some(i)
    else ExactInCountry(data, code, portUpper, i + 1)
  }

  predicate Overlaps(key: string, text: string) {
    Contains(key, text) || Contains(text, key)
  }

  predicate HasPorts(g: Index, key: string) {
    key in g.buckets && |g.buckets[key]| > 0
  }

  /** Step 7's scan: the first index key, in insertion order from position
      `i`, that contains the text or is contained in it. */
  function FirstOverlap(g: Index, text: string, i: nat): (r: Option<nat>)
    requires i <= |g.keys|
    ensures r.Some? ==> i <= r.value < |g.keys| && Overlaps(g.keys[r.value], text) && HasPorts(g, g.keys[r.value])
    ensures r.Some? ==> forall j :: i <= j < r.value ==> !(Overlaps(g.keys[j], text) && HasPorts(g, g.keys[j]))
    ensures r.None? ==> forall j :: i <= j < |g.keys| ==> !(Overlaps(g.keys[j], text) && HasPorts(g, g.keys[j]))
    decreases |g.keys| - i
  {
    if i == |g.keys| then None
    else if Overlaps(g.keys[i], text) && HasPorts(g, g.keys[i]) then Some(i)
    else FirstOverlap(g, text, i + 1)
  }

  /** What the cascade works on: the route destination, with noise removed. */
  function Cleaned(destination: string): (c: string)
    ensures All(c, IsCleanChar) && CanonicalSpacing(c)
  {
    RemoveNoise(ExtractDestinationFromRoute(Strip(destination)))
  }

  predicate IsNoiseOnly(destination: string) {
    Upper(Strip(destination)) in NoiseOnlyList
  }

  /** Every response in the outcome reports `reported`. */
  predicate Reports(o: Outcome, reported: string) {
    match o
    case Unmatched(t) => t == reported
    case Matched(r) => r.reportedDestination == reported
    case Several(rs) => forall t :: 0 <= t < |rs| ==> rs[t].reportedDestination == reported
  }

  predicate Answers(stage: Stage) {
    stage !in {Rejected, NoiseOnly, NothingLeft, NoMatch}
  }

  /** The formatted outcome of a pick, every response reporting `original`. */
  function Format(found: Found, original: string): (o: Outcome)
    ensures Reports(o, original)
    ensures o.Unmatched? <==> found.Nothing?
  {
    match found
    case Nothing => Unmatched(original)
    case One(x) => Matched(FormatResponse(x, original))
    case Many(xs) => Several(FormatAll(xs, original))
  }

  /** `match_destination`, with the stage that answered. */
  function Decide(m: Matcher, ratio: Ratio, destination: Option<string>): (d: Decision)
    ensures destination.None? || destination == Some("") ==> d == Decision(Rejected, Unmatched(""))
    ensures destination.Some? && destination.value != "" ==> Reports(d.outcome, destination.value)
    ensures d.outcome.Unmatched? <==> !Answers(d.stage)
  {
    if destination.None? || destination.value == "" then Decision(Rejected, Unmatched(""))
    else
      var original := destination.value;
      if IsNoiseOnly(original) then Decision(NoiseOnly, Unmatched(original))
      else
        var cleaned := Cleaned(original);
        if cleaned == "" then Decision(NothingLeft, Unmatched(original))
        else
          var p := MatchCleaned(m, ratio, cleaned);
          Decision(p.stage, Format(p.found, original))
  }

  /** `match_destination(destination)`. */
  function MatchDestination(m: Matcher, ratio: Ratio, destination: Option<string>): (o: Outcome)
    ensures destination.None? || destination == Some("") ==> o == Unmatched("")
    ensures destination.Some? && destination.value != "" && IsNoiseOnly(destination.value)
            ==> o == Unmatched(destination.value)
    ensures destination.Some? && destination.value != "" ==> Reports(o, destination.value)
  {
    Decide(m, ratio, destination).outcome
  }

  /** The results of every search the cascade can make.  The source runs the
      searches lazily, stopping at the first that finds something; as they
      have no side effects, computing them all and then choosing (`Select`)
      gives the same answer. */
  datatype Searches = Searches(
    exact: Option<PortRecord>,          // step 3: the port-name index
    inCountry: Option<PortRecord>,      // first step 5: first port of the country with that name
    locode: Option<PortRecord>,         // step 6: the locode index
    inCountryAgain: Option<PortRecord>, // second step 5: the same test under its own country code
    countryHigh: seq<PortRecord>,       // second step 5: fuzzy within the country at 0.75
    countryLow: seq<PortRecord>,        // second step 5: fuzzy within the country at 0.65
    globalExact: Option<PortRecord>,    // second step 6: the port-name index again
    overlap: Option<PortRecord>,        // step 7: containment either way
    high: seq<PortRecord>,              // step 8: fuzzy over all ports at 0.80
    portCode: Option<seq<PortRecord>>,  // step 9: the port-code bucket
    medium: seq<PortRecord>)            // step 10: fuzzy over all ports at 0.70

  /** Step 4 and the country-code lookup of step 5: the country code the
      extracted filter stands for ("" when none) and the port part. */
  function CountryPart(m: Matcher, cleaned: string): (r: (string, string))
    ensures r.0 != "" ==> ExtractCountry(m, cleaned).0.Some?
  {
    var (filter, portText) := ExtractCountry(m, cleaned);
    (if filter.Some? then CountryCodeFor(m, filter.value) else "", portText)
  }

  /** The second step 5's country code and the port part. */
  function SecondCountryPart(m: Matcher, cleaned: string): (r: (string, string))
    ensures r.0 != "" ==> ExtractCountry(m, cleaned).0.Some?
  {
    var (filter, portText) := ExtractCountry(m, cleaned);
    (if filter.Some? then SecondCountryCodeFor(m, filter.value) else "", portText)
  }

  /** Step 3: the port-name lookup of the upper-cased text. */
  function ExactSearch(m: Matcher, cleaned: string): Option<PortRecord> {
    Head(m.portNames, NormalizeText(cleaned))
  }

  /** The second step 6: the port-name lookup of `port_upper`, which the
      source recomputes from the cleaned text. */
  function GlobalExactSearch(m: Matcher, cleaned: string): Option<PortRecord> {
    var portUpper := NormalizeText(cleaned);
    Head(m.portNames, portUpper)
  }

  /** The first port of country `code` whose upper-cased name is the
      normalised port part; none when the code is "". */
  function FirstInCountry(m: Matcher, code: string, portText: string): (r: Option<PortRecord>)
    ensures r.Some? ==> r.value in m.data
  {
    var i := if code != "" then ExactInCountry(m.data, code, NormalizeText(portText), 0) else None;
    if i.Some? then Some(m.data[i.value]) else None
  }

  function InCountrySearch(m: Matcher, cleaned: string): (r: Option<PortRecord>)
    ensures r.Some? ==> r.value in m.data
  {
    var (code, portText) := CountryPart(m, cleaned);
    FirstInCountry(m, code, portText)
  }

  function InCountryAgainSearch(m: Matcher, cleaned: string): (r: Option<PortRecord>)
    ensures r.Some? ==> r.value in m.data
  {
    var (code, portText) := SecondCountryPart(m, cleaned);
    FirstInCountry(m, code, portText)
  }

  function LocodeSearch(m: Matcher, cleaned: string): Option<PortRecord> {
    if IsLocode(m.locodes, cleaned) then Some(m.locodes[Compact(cleaned)]) else None
  }

  /** The second step 5's fuzzy search within the country. */
  function CountryFuzzy(m: Matcher, ratio: Ratio, cleaned: string, threshold: real): seq<PortRecord> {
    var (code, portText) := SecondCountryPart(m, cleaned);
    if code != "" then FuzzyMatch(m, ratio, portText, code, threshold) else []
  }

  function OverlapSearch(m: Matcher, cleaned: string): Option<PortRecord> {
    var g := m.portNames;
    var i := FirstOverlap(g, NormalizeText(cleaned), 0);
    if i.Some? then Some(g.buckets[g.keys[i.value]][0]) else None
  }

  function PortCodeSearch(m: Matcher, cleaned: string): Option<seq<PortRecord>> {
    if IsPortCodeOnly(cleaned) && Compact(cleaned) in m.portCodes.buckets then Some(m.portCodes.buckets[Compact(cleaned)])
    else None
  }

  function Search(m: Matcher, ratio: Ratio, cleaned: string): Searches {
    Searches(
      ExactSearch(m, cleaned), InCountrySearch(m, cleaned), LocodeSearch(m, cleaned),
      InCountryAgainSearch(m, cleaned),
      CountryFuzzy(m, ratio, cleaned, 0.75), CountryFuzzy(m, ratio, cleaned, 0.65),
      GlobalExactSearch(m, cleaned), OverlapSearch(m, cleaned), FuzzyMatch(m, ratio, cleaned, "", 0.80),
      PortCodeSearch(m, cleaned), FuzzyMatch(m, ratio, cleaned, "", 0.70))
  }

  function OneOf(o: Option<PortRecord>): (f: Found)
    ensures o.Some? ==> f == One(o.value)
  {
    if o.Some? then One(o.value) else Nothing
  }

  /** The order of steps 3 to 10, including the second step 5's exact search
      and the second step 6's exact lookup. */
  function Select(s: Searches): (p: Pick)
    ensures p.found.Nothing? <==> p.stage == NoMatch
    ensures Answers(p.stage) || p.stage == NoMatch
    ensures p.found.Many? ==> p.stage == PortCode
  {
    if s.exact.Some? then Pick(ExactName, OneOf(s.exact))
    else if s.inCountry.Some? then Pick(CountryExact, OneOf(s.inCountry))
    else if s.locode.Some? then Pick(Locode, OneOf(s.locode))
    else if s.inCountryAgain.Some? then Pick(CountryExactAgain, OneOf(s.inCountryAgain))
    else if |s.countryHigh| > 0 then Pick(CountryFuzzyHigh, One(s.countryHigh[0]))
    else if |s.countryLow| > 0 then Pick(CountryFuzzyLow, One(s.countryLow[0]))
    else if s.globalExact.Some? then Pick(GlobalExact, OneOf(s.globalExact))
    else if s.overlap.Some? then Pick(Containment, OneOf(s.overlap))
    else if |s.high| > 0 then Pick(FuzzyHigh, One(s.high[0]))
    else if s.portCode.Some? then
      var ms := s.portCode.value;
      Pick(PortCode, if |ms| == 1 then One(ms[0]) else Many(ms))
    else if |s.medium| > 0 then Pick(FuzzyMedium, One(s.medium[0]))
    else Pick(NoMatch, Nothing)
  }

  /** Steps 3 to 10 on the cleaned text. */
  function MatchCleaned(m: Matcher, ratio: Ratio, cleaned: string): Pick {
    Select(Search(m, ratio, cleaned))
  }
}
