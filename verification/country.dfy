/**
 * `_extract_country`: splitting a cleaned destination into a country filter
 * and the port part, using the matcher's country-name and country-code
 * indexes.
 */
module Country {
  import opened Wrappers
  import opened Text
  import opened Registry

  /** The separator class `[,\-./\s]`. */
  predicate IsCountrySep(c: char) {
    c == ',' || c == '-' || c == '.' || c == '/' || IsSpace(c)
  }

  /** `_extract_country`: the text is stripped and split into parts on runs
      of separators.  With at least two parts, the last part names the
      country when it is a known country name, or a known two-letter country
      code; failing both, the first part names it when it is a known country
      name.  The port part is the remaining parts joined by single spaces.
      Otherwise there is no country and the stripped text is returned. */
  function ExtractCountry(m: Matcher, text: string): (r: (Option<string>, string))
    ensures r.0.None? ==> r.1 == Strip(text)
    ensures |Tokens(Strip(text), IsCountrySep)| < 2 ==> r.0.None?
    ensures r.0.Some? ==> r.0.value in m.countryNames.buckets
                          || (|r.0.value| == 2 && r.0.value in m.countryCodes.buckets)
    ensures r.0.Some? ==>
              var ps := Tokens(Strip(text), IsCountrySep);
              && |ps| >= 2
              && ((r.0.value == Upper(ps[|ps| - 1]) && Tokens(r.1, IsCountrySep) == ps[..|ps| - 1])
                  || (r.0.value == Upper(ps[0]) && Tokens(r.1, IsCountrySep) == ps[1..]))
  {
    var t := Strip(text);
    var parts := Tokens(t, IsCountrySep);
    if |parts| < 2 then (None, t)
    else
      var last := parts[|parts| - 1];
      if Upper(last) in m.countryNames.buckets || (|last| == 2 && Upper(last) in m.countryCodes.buckets) then
        TokensOfJoin(parts[..|parts| - 1], IsCountrySep);
        (Some(Upper(last)), Join(parts[..|parts| - 1], " "))
      else if Upper(parts[0]) in m.countryNames.buckets then
        TokensOfJoin(parts[1..], IsCountrySep);
        (Some(Upper(parts[0])), Join(parts[1..], " "))
      else (None, t)
  }

  /** A space-joined list of tokens neither starts nor ends with whitespace. */
  lemma {:induction false} JoinTrimmed(ts: seq<string>)
    requires |ts| > 0 && forall k :: 0 <= k < |ts| ==> IsToken(ts[k], IsCountrySep)
    ensures var j, first, last := Join(ts, " "), ts[0], ts[|ts| - 1];
              |j| > 0 && |first| > 0 && |last| > 0 && j[0] == first[0] && j[|j| - 1] == last[|last| - 1]
  {
    if |ts| > 1 {
      JoinTrimmed(ts[1..]);
      assert Join(ts, " ") == ts[0] + " " + Join(ts[1..], " ");
    }
  }

  /** A space-joined list of tokens is its own stripped form and splits back
      into the same tokens. */
  lemma JoinedParts(ps: seq<string>)
    requires |ps| > 0 && forall k :: 0 <= k < |ps| ==> IsToken(ps[k], IsCountrySep)
    ensures Strip(Join(ps, " ")) == Join(ps, " ")
    ensures Tokens(Strip(Join(ps, " ")), IsCountrySep) == ps
  {
    JoinTrimmed(ps);
    TokensOfJoin(ps, IsCountrySep);
  }

  /** "PORT WORDS COUNTRY": a known country name at the end is taken as the
      filter and the words before it as the port part. */
  lemma CountryLast(m: Matcher, port: seq<string>, country: string)
    requires |port| > 0 && forall k :: 0 <= k < |port| ==> IsToken(port[k], IsCountrySep)
    requires IsToken(country, IsCountrySep) && Upper(country) in m.countryNames.buckets
    ensures ExtractCountry(m, Join(port + [country], " ")) == (Some(Upper(country)), Join(port, " "))
  {
    var ps := port + [country];
    JoinedParts(ps);
    LastPartCountry(m, Join(ps, " "), ps);
    assert ps[..|ps| - 1] == port;
  }

  /** The first rule, once the text is known to split into `ps`. */
  lemma LastPartCountry(m: Matcher, text: string, ps: seq<string>)
    requires Tokens(Strip(text), IsCountrySep) == ps && |ps| >= 2
    requires Upper(ps[|ps| - 1]) in m.countryNames.buckets
    ensures ExtractCountry(m, text) == (Some(Upper(ps[|ps| - 1])), Join(ps[..|ps| - 1], " "))
  {
  }

  /** "COUNTRY PORT WORDS": a known country name in front is taken as the
      filter when the last part is neither a country name nor a two-letter
      country code. */
  lemma CountryFirst(m: Matcher, country: string, port: seq<string>)
    requires |port| > 0 && forall k :: 0 <= k < |port| ==> IsToken(port[k], IsCountrySep)
    requires IsToken(country, IsCountrySep) && Upper(country) in m.countryNames.buckets
    requires var last := port[|port| - 1];
             Upper(last) !in m.countryNames.buckets
             && !(|last| == 2 && Upper(last) in m.countryCodes.buckets)
    ensures ExtractCountry(m, Join([country] + port, " ")) == (Some(Upper(country)), Join(port, " "))
  {
    var ps := [country] + port;
    JoinedParts(ps);
    assert ps[|ps| - 1] == port[|port| - 1];
    FirstPartCountry(m, Join(ps, " "), ps);
    assert ps[1..] == port;
  }

  /** The second rule, once the text is known to split into `ps`. */
  lemma FirstPartCountry(m: Matcher, text: string, ps: seq<string>)
    requires Tokens(Strip(text), IsCountrySep) == ps && |ps| >= 2
    requires var last := ps[|ps| - 1];
             Upper(last) !in m.countryNames.buckets
             && !(|last| == 2 && Upper(last) in m.countryCodes.buckets)
    requires Upper(ps[0]) in m.countryNames.buckets
    ensures ExtractCountry(m, text) == (Some(Upper(ps[0])), Join(ps[1..], " "))
  {
  }
}
