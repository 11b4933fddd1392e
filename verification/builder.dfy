/**
 * The dataset builder: it reads the UN/LOCODE code list and the country-code
 * table and writes one `PortRecord` per distinct locode, skipping rows whose
 * country or location part is blank.  The seaport variant first keeps only
 * rows whose Function column mentions the function code '1'.
 */
module Builder {
  import opened Wrappers
  import opened Text
  import opened Records
  import Coordinates
  import Dedup
  import opened Maps

  // ------------------------------------------------------------------- inputs

  /** One row of the code list, every cell read as text. */
  datatype CodeRow = CodeRow(
    country: string,      // ISO country code column
    location: string,     // three-character location code column
    name: string,         // location name
    coordinates: string,  // "DDMMH DDDMMH" or blank
    functions: string)    // Function column, e.g. "1-3-----"

  /** One row of the country-code table. */
  datatype CountryRow = CountryRow(code: string, name: string)

  /** A row that was not turned into a record, as written to the skip list. */
  datatype SkippedRow = SkippedRow(country: string, location: string, name: string)

  // ------------------------------------------------------------ country names

  function CountryKey(row: CountryRow): string {
    Upper(Strip(row.code))
  }

  /** The (code, name) pairs of the country table, both stripped and the code
      upper-cased. */
  function CountryPairs(rows: seq<CountryRow>): (pairs: seq<(string, string)>)
    ensures |pairs| == |rows|
    ensures forall i :: 0 <= i < |rows| ==> pairs[i] == (CountryKey(rows[i]), Strip(rows[i].name))
  {
    seq(|rows|, i requires 0 <= i < |rows| => (CountryKey(rows[i]), Strip(rows[i].name)))
  }

  /** The country map: code to name, in table order. */
  function CountryMap(rows: seq<CountryRow>): map<string, string> {
    MapOf(CountryPairs(rows))
  }

  /** Every code of the table is a key, and nothing else is. */
  lemma CountryMapDomain(rows: seq<CountryRow>)
    ensures forall i :: 0 <= i < |rows| ==> CountryKey(rows[i]) in CountryMap(rows)
    ensures forall c :: c in CountryMap(rows) ==>
              exists i :: 0 <= i < |rows| && CountryKey(rows[i]) == c
  {
    CountryMapHasCodes(rows);
    CountryMapOnlyCodes(rows);
  }

  lemma CountryMapHasCodes(rows: seq<CountryRow>)
    ensures forall i :: 0 <= i < |rows| ==> CountryKey(rows[i]) in CountryMap(rows)
  {
    var pairs := CountryPairs(rows);
    forall i | 0 <= i < |rows| ensures CountryKey(rows[i]) in CountryMap(rows) {
      assert pairs[i].0 == CountryKey(rows[i]);
    }
  }

  lemma CountryMapOnlyCodes(rows: seq<CountryRow>)
    ensures forall c :: c in CountryMap(rows) ==>
              exists i :: 0 <= i < |rows| && CountryKey(rows[i]) == c
  {
    var pairs := CountryPairs(rows);
    forall c | c in CountryMap(rows)
      ensures exists i :: 0 <= i < |rows| && CountryKey(rows[i]) == c
    {
      var i :| 0 <= i < |pairs| && pairs[i].0 == c;
      assert pairs[i] == (CountryKey(rows[i]), Strip(rows[i].name));
    }
  }

  /** A code maps to the name on the LAST table row with that code. */
  lemma CountryMapLastWins(rows: seq<CountryRow>, i: nat)
    requires i < |rows|
    requires forall j :: i < j < |rows| ==> CountryKey(rows[j]) != CountryKey(rows[i])
    ensures CountryMap(rows)[CountryKey(rows[i])] == Strip(rows[i].name)
  {
    MapOfLastWins(CountryPairs(rows), i);
  }

  /** `country_map.get(code, "")`. */
  function CountryName(countries: map<string, string>, code: string): (name: string)
    ensures code !in countries ==> name == ""
    ensures code in countries ==> name == countries[code]
  {
    if code in countries then countries[code] else ""
  }

  // -------------------------------------------------------- name normalisation

  /** A character `normalize_port_name` can leave: an upper-case word character
      or a plain space. */
  predicate IsNormChar(c: char) {
    (IsWordChar(c) && !IsLowerLetter(c)) || c == ' '
  }

  /** Regex `[^\w\s]`. */
  predicate IsPunctuation(c: char) {
    !IsWordChar(c) && !IsSpace(c)
  }

  /** `normalize_port_name`: anything that is not text gives ""; otherwise
      upper-case, strip, turn every character that is neither a word character
      nor whitespace into a space, and squeeze whitespace runs to one space.
      The result is not stripped again. */
  function NormalizePortName(s: Option<string>): (r: string)
    ensures s.None? ==> r == ""
    ensures All(r, IsNormChar) && SingleSpaced(r)
    ensures s.Some? ==> (|r| == 0 <==> |Strip(s.value)| == 0)
  {
    match s
    case None => ""
    case Some(text) =>
      var u := Strip(Upper(text));
      var p := SpaceOut(u, IsPunctuation);
      NormalisedChars(text, u, p);
      StripUpperEmpty(text);
      CollapseSpaces(p)
  }

  /** What the normalised name is: its words are the runs of word
      characters of the upper-cased input, in order, and it starts (ends)
      with a space exactly when the stripped, upper-cased input starts (ends)
      with punctuation. */
  lemma NormalizeWords(s: string)
    ensures Tokens(NormalizePortName(Some(s)), IsSpace) == Tokens(Upper(s), NotWordChar)
    ensures var r, u := NormalizePortName(Some(s)), Strip(Upper(s));
      |r| > 0 ==> |u| > 0
                  && (r[0] == ' ' <==> IsPunctuation(u[0]))
                  && (r[|r| - 1] == ' ' <==> IsPunctuation(u[|u| - 1]))
  {
    var u := Strip(Upper(s));
    var p := SpaceOut(u, IsPunctuation);
    assert NormalizePortName(Some(s)) == CollapseSpaces(p);
    TokensCollapse(p);
    SpaceOutTokens(u);
    SpaceSeparatesWords();
    TokensStrip(Upper(s), NotWordChar);
    NormalizeEdges(u, p);
  }

  /** Turning punctuation into spaces makes the whitespace-separated tokens
      the runs of word characters. */
  lemma SpaceOutTokens(u: string)
    ensures Tokens(SpaceOut(u, IsPunctuation), IsSpace) == Tokens(u, NotWordChar)
  {
    var p := SpaceOut(u, IsPunctuation);
    forall k | 0 <= k < |p|
      ensures (IsSpace(p[k]) <==> NotWordChar(u[k])) && (!NotWordChar(u[k]) ==> p[k] == u[k])
    {
      assert p[k] == if IsPunctuation(u[k]) then ' ' else u[k];
    }
    TokensCongruent(p, u, IsSpace, NotWordChar);
  }

  lemma NormalizeEdges(u: string, p: string)
    requires Trimmed(u) && p == SpaceOut(u, IsPunctuation)
    ensures var r := CollapseSpaces(p);
      |r| > 0 ==> |u| > 0
                  && (r[0] == ' ' <==> IsPunctuation(u[0]))
                  && (r[|r| - 1] == ' ' <==> IsPunctuation(u[|u| - 1]))
  {
    if |p| > 0 {
      assert p[0] == if IsPunctuation(u[0]) then ' ' else u[0];
      assert p[|p| - 1] == if IsPunctuation(u[|u| - 1]) then ' ' else u[|u| - 1];
      CollapseLast(p);
    }
  }

  lemma SpaceSeparatesWords()
    ensures forall c :: IsSpace(c) ==> NotWordChar(c)
  {
  }

  predicate IsNormOrSpace(c: char) { IsNormChar(c) || IsSpace(c) }

  lemma NormalisedChars(text: string, u: string, p: string)
    requires u == Strip(Upper(text)) && p == SpaceOut(u, IsPunctuation)
    ensures All(CollapseSpaces(p), IsNormChar)
  {
    assert All(Upper(text), NotLower);
    StripKeeps(Upper(text), NotLower);
    assert All(p, IsNormOrSpace);
    CollapseKeeps(p, IsNormOrSpace);
  }

  /** Normalising a normalised name only strips it: the one step the
      function does not undo is its missing final strip. */
  lemma NormalizeTwice(s: string)
    ensures var r := NormalizePortName(Some(s));
      NormalizePortName(Some(r)) == Strip(r)
  {
    var r := NormalizePortName(Some(s));
    NormalizeNormalised(r);
  }

  lemma NormalizeNormalised(r: string)
    requires All(r, IsNormChar) && SingleSpaced(r)
    ensures NormalizePortName(Some(r)) == Strip(r)
  {
    var t := Strip(r);
    assert IsUpperCase(r);
    UpperKeepsUpperCase(r);
    StripKeeps(r, IsNormChar);
    NoPunctuation(t);
    StripSingleSpaced(r);
    CollapseCanonical(t);
  }

  /** The missing final strip shows when a name ends in punctuation: it
      becomes one trailing space. */
  lemma TrailingPunctuation(a: string, c: char)
    requires |a| > 0 && All(a, IsNormChar) && CanonicalSpacing(a) && IsPunctuation(c)
    ensures NormalizePortName(Some(a + [c])) == a + " "
  {
    var s := a + [c];
    assert IsUpperCase(s);
    UpperKeepsUpperCase(s);
    assert Trimmed(s);
    var p := SpaceOut(s, IsPunctuation);
    assert p == a + " " by {
      NoPunctuation(a);
      assert forall k :: 0 <= k < |a| ==> p[k] == a[k];
    }
    assert SingleSpaced(a + " ");
    CollapseCanonical(a + " ");
  }

  lemma NoPunctuation(t: string)
    requires All(t, IsNormChar)
    ensures SpaceOut(t, IsPunctuation) == t
  {
  }

  // ----------------------------------------------------------- row processing

  /** The cells of a code-list row as the loop reads them: country and
      location stripped and upper-cased, name and coordinates stripped. */
  datatype Cells = Cells(country: string, location: string, name: string, coordinates: string)

  function CellsOf(row: CodeRow): Cells {
    Cells(Upper(Strip(row.country)), Upper(Strip(row.location)), Strip(row.name), Strip(row.coordinates))
  }

  /** The cells of every row, in row order. */
  function CleanRows(rows: seq<CodeRow>): (cells: seq<Cells>)
    ensures |cells| == |rows|
    ensures forall i :: 0 <= i < |rows| ==> cells[i] == CellsOf(rows[i])
  {
    seq(|rows|, i requires 0 <= i < |rows| => CellsOf(rows[i]))
  }

  /** A row becomes a record only when both code parts are non-blank. */
  predicate Usable(c: Cells) {
    c.country != [] && c.location != []
  }

  /** The UN/LOCODE: country part followed by location part. */
  function LocodeOf(c: Cells): string {
    c.country + c.location
  }

  /** The record written for a usable row. */
  function MakeRecord(c: Cells, countries: map<string, string>): (r: PortRecord)
    ensures r.locode == LocodeOf(c) && r.locode == r.countryCode + r.portCode
    ensures r.countryCode == c.country && r.portCode == c.location && r.port == c.name
  {
    var latLon := Coordinates.ParseCoordinates(c.coordinates);
    var country := CountryName(countries, c.country);
    PortRecord(c.country + c.location, c.location, c.name, c.country, country, latLon.0, latLon.1,
               NormalizePortName(Some(c.name + ", " + country)))
  }

  /** The remaining fields of a record: the country's name from the map, the
      parsed position, and the normalised "name, country" key. */
  lemma MakeRecordFields(c: Cells, countries: map<string, string>)
    ensures var r := MakeRecord(c, countries);
      && r.country == CountryName(countries, c.country)
      && (r.lat, r.lon) == Coordinates.ParseCoordinates(c.coordinates)
      && r.portNorm == NormalizePortName(Some(c.name + ", " + CountryName(countries, c.country)))
  {
  }

  /** The locode a row would be filed under, None for a row that is skipped. */
  function RowKey(c: Cells): Option<string> {
    if Usable(c) then Some(LocodeOf(c)) else None
  }

  function RowKeys(cells: seq<Cells>): (keys: seq<Option<string>>)
    ensures |keys| == |cells| && forall i :: 0 <= i < |cells| ==> keys[i] == RowKey(cells[i])
  {
    seq(|cells|, i requires 0 <= i < |cells| => RowKey(cells[i]))
  }

  /** The rows among the first `n` that are the first usable row of their
      locode, in row order. */
  function KeptRows(cells: seq<Cells>, n: nat): seq<nat>
    requires n <= |cells|
  {
    Dedup.FirstIndices(RowKeys(cells), n)
  }

  /** The records of the rows at positions `idx`, in that order. */
  function RecordsAt(cells: seq<Cells>, idx: seq<nat>, countries: map<string, string>): (out: seq<PortRecord>)
    requires forall t :: 0 <= t < |idx| ==> idx[t] < |cells|
    ensures |out| == |idx|
    ensures forall t :: 0 <= t < |idx| ==> out[t] == MakeRecord(cells[idx[t]], countries)
  {
    seq(|idx|, t requires 0 <= t < |idx| => MakeRecord(cells[idx[t]], countries))
  }

  lemma RecordsAtSnoc(cells: seq<Cells>, idx: seq<nat>, i: nat, countries: map<string, string>)
    requires forall t :: 0 <= t < |idx| ==> idx[t] < |cells|
    requires i < |cells|
    ensures RecordsAt(cells, idx + [i], countries)
         == RecordsAt(cells, idx, countries) + [MakeRecord(cells[i], countries)]
  {
    var a, b := RecordsAt(cells, idx + [i], countries), RecordsAt(cells, idx, countries);
    forall t | 0 <= t < |b| ensures a[t] == b[t] {
      assert (idx + [i])[t] == idx[t];
    }
    assert (idx + [i])[|idx|] == i;
    SnocByElements(a, b, MakeRecord(cells[i], countries));
  }

  lemma SnocByElements<T>(a: seq<T>, b: seq<T>, x: T)
    requires |a| == |b| + 1 && a[|b|] == x
    requires forall t :: 0 <= t < |b| ==> a[t] == b[t]
    ensures a == b + [x]
  {
  }

  /** Reference definition of the output: one record for the first usable row
      of every locode, in row order. */
  function Kept(cells: seq<Cells>, countries: map<string, string>): seq<PortRecord> {
    RecordsAt(cells, KeptRows(cells, |cells|), countries)
  }

  /** Reference definition of the skip list over the first `n` rows. */
  function SkippedUpTo(cells: seq<Cells>, n: nat): (out: seq<SkippedRow>)
    requires n <= |cells|
  {
    if n == 0 then []
    else
      var c := cells[n - 1];
      SkippedUpTo(cells, n - 1)
      + (if Usable(c) then [] else [SkippedRow(c.country, c.location, c.name)])
  }

  /** The reference output is a deduplication: no two records share a
      locode, every record is a usable row's, and every usable row's locode
      has the record of the first row carrying it. */
  lemma KeptIsDeduplicated(cells: seq<Cells>, countries: map<string, string>)
    ensures var out := Kept(cells, countries);
      && (forall i, j :: 0 <= i < j < |out| ==> out[i].locode != out[j].locode)
      && (forall r :: r in out ==> exists k :: 0 <= k < |cells| && Usable(cells[k]) && r == MakeRecord(cells[k], countries))
      && (forall k :: 0 <= k < |cells| && Usable(cells[k]) ==>
            exists f :: 0 <= f <= k && LocodeOf(cells[f]) == LocodeOf(cells[k])
                        && MakeRecord(cells[f], countries) in out)
  {
    KeptDistinct(cells, countries);
    KeptFromUsable(cells, countries);
    KeptCoversUsable(cells, countries);
  }

  lemma KeptDistinct(cells: seq<Cells>, countries: map<string, string>)
    ensures var out := Kept(cells, countries);
      forall i, j :: 0 <= i < j < |out| ==> out[i].locode != out[j].locode
  {
    var out, keys, idx := Kept(cells, countries), RowKeys(cells), KeptRows(cells, |cells|);
    forall i, j | 0 <= i < j < |out| ensures out[i].locode != out[j].locode {
      assert keys[idx[i]] != keys[idx[j]];
    }
  }

  lemma KeptFromUsable(cells: seq<Cells>, countries: map<string, string>)
    ensures var out := Kept(cells, countries);
      forall r :: r in out ==> exists k :: 0 <= k < |cells| && Usable(cells[k]) && r == MakeRecord(cells[k], countries)
  {
    var out, keys, idx := Kept(cells, countries), RowKeys(cells), KeptRows(cells, |cells|);
    forall r | r in out
      ensures exists k :: 0 <= k < |cells| && Usable(cells[k]) && r == MakeRecord(cells[k], countries)
    {
      var t :| 0 <= t < |out| && out[t] == r;
      var k := idx[t];
      assert Dedup.IsFirst(keys, k);
      assert keys[k] == RowKey(cells[k]);
      assert Usable(cells[k]) && r == MakeRecord(cells[k], countries);
    }
  }

  lemma KeptCoversUsable(cells: seq<Cells>, countries: map<string, string>)
    ensures var out := Kept(cells, countries);
      forall k :: 0 <= k < |cells| && Usable(cells[k]) ==>
        exists f :: 0 <= f <= k && LocodeOf(cells[f]) == LocodeOf(cells[k])
                    && MakeRecord(cells[f], countries) in out
  {
    var out := Kept(cells, countries);
    forall k | 0 <= k < |cells| && Usable(cells[k])
      ensures exists f :: 0 <= f <= k && LocodeOf(cells[f]) == LocodeOf(cells[k])
                          && MakeRecord(cells[f], countries) in out
    {
      var f, t := FirstCarrier(cells, k);
      assert out[t] == MakeRecord(cells[f], countries);
    }
  }

  lemma FirstCarrier(cells: seq<Cells>, k: nat) returns (f: nat, t: nat)
    requires k < |cells| && Usable(cells[k])
    ensures var idx := KeptRows(cells, |cells|);
      f <= k && t < |idx| && idx[t] == f && Usable(cells[f]) && LocodeOf(cells[f]) == LocodeOf(cells[k])
  {
    var keys, idx := RowKeys(cells), KeptRows(cells, |cells|);
    Dedup.FirstKeysComplete(keys, k, |cells|);
    f :| 0 <= f <= k && f in idx && keys[f] == keys[k];
    t :| 0 <= t < |idx| && idx[t] == f;
  }

  /** A row with a blank code part goes to the skip list and nothing else. */
  lemma StepSkipped(cells: seq<Cells>, i: nat)
    requires i < |cells| && !Usable(cells[i])
    ensures KeptRows(cells, i + 1) == KeptRows(cells, i)
    ensures Dedup.SeenUpTo(RowKeys(cells), i + 1) == Dedup.SeenUpTo(RowKeys(cells), i)
    ensures SkippedUpTo(cells, i + 1)
         == SkippedUpTo(cells, i) + [SkippedRow(cells[i].country, cells[i].location, cells[i].name)]
  {
    assert RowKeys(cells)[i] == None;
  }

  /** A row whose locode was seen before changes nothing. */
  lemma StepDuplicate(cells: seq<Cells>, i: nat)
    requires i < |cells| && Usable(cells[i])
    requires LocodeOf(cells[i]) in Dedup.SeenUpTo(RowKeys(cells), i)
    ensures KeptRows(cells, i + 1) == KeptRows(cells, i)
    ensures Dedup.SeenUpTo(RowKeys(cells), i + 1) == Dedup.SeenUpTo(RowKeys(cells), i)
    ensures SkippedUpTo(cells, i + 1) == SkippedUpTo(cells, i)
  {
    var keys := RowKeys(cells);
    assert keys[i] == Some(LocodeOf(cells[i]));
    Dedup.FirstIffUnseen(keys, i);
  }

  /** A row with a new locode adds its record and its locode. */
  lemma StepNew(cells: seq<Cells>, i: nat, countries: map<string, string>)
    requires i < |cells| && Usable(cells[i])
    requires LocodeOf(cells[i]) !in Dedup.SeenUpTo(RowKeys(cells), i)
    ensures RecordsAt(cells, KeptRows(cells, i + 1), countries)
         == RecordsAt(cells, KeptRows(cells, i), countries) + [MakeRecord(cells[i], countries)]
    ensures Dedup.SeenUpTo(RowKeys(cells), i + 1)
         == Dedup.SeenUpTo(RowKeys(cells), i) + {LocodeOf(cells[i])}
    ensures SkippedUpTo(cells, i + 1) == SkippedUpTo(cells, i)
  {
    var keys := RowKeys(cells);
    assert keys[i] == Some(LocodeOf(cells[i]));
    Dedup.FirstIffUnseen(keys, i);
    assert KeptRows(cells, i + 1) == KeptRows(cells, i) + [i];
    RecordsAtSnoc(cells, KeptRows(cells, i), i, countries);
  }

  /** The processing loop, over the cleaned cells of every row (cleaning all
      rows first and then looping is the same as cleaning each row at the top
      of the loop): rows with a blank country or location go to the skip list; a locode already seen is dropped silently; every other row
      becomes a record. */
  method BuildRecords(rows: seq<CodeRow>, countries: map<string, string>)
    returns (records: seq<PortRecord>, skipped: seq<SkippedRow>)
    ensures records == Kept(CleanRows(rows), countries)
    ensures skipped == SkippedUpTo(CleanRows(rows), |rows|)
  {
    records, skipped := [], [];
    var seen: set<string> := {};
    var cleaned := CleanRows(rows);
    for i := 0 to |rows|
      invariant records == RecordsAt(cleaned, KeptRows(cleaned, i), countries)
      invariant skipped == SkippedUpTo(cleaned, i)
      invariant seen == Dedup.SeenUpTo(RowKeys(cleaned), i)
    {
      records, skipped, seen := ProcessRow(cleaned, i, countries, records, skipped, seen);
    }
  }

  /** One turn of the loop: the row at `i` is skipped, dropped as a
      duplicate, or turned into a record. */
  method ProcessRow(cleaned: seq<Cells>, i: nat, countries: map<string, string>,
                    records: seq<PortRecord>, skipped: seq<SkippedRow>, seen: set<string>)
    returns (records': seq<PortRecord>, skipped': seq<SkippedRow>, seen': set<string>)
    requires i < |cleaned|
    requires records == RecordsAt(cleaned, KeptRows(cleaned, i), countries)
    requires skipped == SkippedUpTo(cleaned, i)
    requires seen == Dedup.SeenUpTo(RowKeys(cleaned), i)
    ensures records' == RecordsAt(cleaned, KeptRows(cleaned, i + 1), countries)
    ensures skipped' == SkippedUpTo(cleaned, i + 1)
    ensures seen' == Dedup.SeenUpTo(RowKeys(cleaned), i + 1)
  {
    records', skipped', seen' := records, skipped, seen;
    var c := cleaned[i];
    if c.country == [] || c.location == [] {
      StepSkipped(cleaned, i);
      skipped' := skipped + [SkippedRow(c.country, c.location, c.name)];
    } else if c.country + c.location in seen {
      StepDuplicate(cleaned, i);
    } else {
      StepNew(cleaned, i, countries);
      seen' := seen + {c.country + c.location};
      records' := records + [MakeRecord(cleaned[i], countries)];
    }
  }

  // ------------------------------------------------------------ seaport filter

  /** The seaport variant's filter: when the table has a Function column, keep
      the rows whose Function cell contains '1'; otherwise keep every row. */
  function Seaports(rows: seq<CodeRow>, hasFunctionColumn: bool): (out: seq<CodeRow>)
    ensures !hasFunctionColumn ==> out == rows
    ensures forall x :: x in out ==> x in rows && (hasFunctionColumn ==> Contains(x.functions, "1"))
    ensures forall x :: x in rows && Contains(x.functions, "1") ==> x in out
  {
    if |rows| == 0 then []
    else
      var rest := Seaports(rows[1..], hasFunctionColumn);
      assert forall x :: x in rows ==> x == rows[0] || x in rows[1..];
      if !hasFunctionColumn || Contains(rows[0].functions, "1") then [rows[0]] + rest else rest
  }

  /** One row is kept exactly when it passes the test. */
  lemma SeaportsOne(x: CodeRow, hasFunctionColumn: bool)
    ensures Seaports([x], hasFunctionColumn)
         == if !hasFunctionColumn || Contains(x.functions, "1") then [x] else []
  {
    assert [x][1..] == [];
  }

  /** The filter works row by row and keeps the rows in their order: the
      kept rows of `a + b` are those of `a` followed by those of `b`. */
  lemma {:induction false} SeaportsAppend(a: seq<CodeRow>, b: seq<CodeRow>, hasFunctionColumn: bool)
    ensures Seaports(a + b, hasFunctionColumn) == Seaports(a, hasFunctionColumn) + Seaports(b, hasFunctionColumn)
  {
    if |a| > 0 {
      assert (a + b)[0] == a[0] && (a + b)[1..] == a[1..] + b;
      SeaportsAppend(a[1..], b, hasFunctionColumn);
    } else {
      assert a + b == b;
    }
  }

  /** The seaport builder: filter, then the same loop. */
  method BuildSeaportRecords(rows: seq<CodeRow>, hasFunctionColumn: bool, countries: map<string, string>)
    returns (records: seq<PortRecord>, skipped: seq<SkippedRow>)
    ensures var kept := Seaports(rows, hasFunctionColumn);
      records == Kept(CleanRows(kept), countries) && skipped == SkippedUpTo(CleanRows(kept), |kept|)
  {
    records, skipped := BuildRecords(Seaports(rows, hasFunctionColumn), countries);
  }

  /** With a Function column, every seaport record is the record of a row
      whose Function cell contains '1'. */
  lemma SeaportRecordsAreSeaports(rows: seq<CodeRow>, countries: map<string, string>)
    ensures forall r :: r in Kept(CleanRows(Seaports(rows, true)), countries) ==>
              exists x :: x in rows && Contains(x.functions, "1") && r == MakeRecord(CellsOf(x), countries)
  {
    var kept := Seaports(rows, true);
    var cells := CleanRows(kept);
    KeptIsDeduplicated(cells, countries);
    forall r | r in Kept(cells, countries)
      ensures exists x :: x in rows && Contains(x.functions, "1") && r == MakeRecord(CellsOf(x), countries)
    {
      var k :| 0 <= k < |cells| && Usable(cells[k]) && r == MakeRecord(cells[k], countries);
      assert kept[k] in kept;
    }
  }
}
