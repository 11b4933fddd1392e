# AIS destination decoder and UN/LOCODE dataset builder, in Dafny

This project models two pieces of logic and proves properties about them.

The first is `AISPortMatcher`. It reads the free-text destination a ship
broadcasts over AIS and maps it to UN/LOCODE port records. The steps are:

1. It builds five indexes over the port records.
2. It strips route arrows ("BEZEE <> GBHUL") and the word "TO".
3. It upper-cases the text and drops bracket groups, symbols and noise words
   such as "TBA" or "ANCH".
4. It runs a fixed first-match-wins cascade:
   - an exact port name;
   - a country token, then an exact name within that country;
   - a five-letter locode;
   - in-country fuzzy matching at 0.75, then at 0.65;
   - a containment scan over port names;
   - global fuzzy matching at 0.80;
   - a bare three-letter port code, which can answer with a list;
   - global fuzzy matching at 0.70;
   - otherwise the destination is unmatched.

The second is the dataset builder that produces the matcher's records from
the UN/LOCODE code list. Its parts are:

- the country-name map;
- `normalize_port_name`;
- `parse_coordinates`, which turns `DDMMH DDDMMH` cells into signed decimal
  degrees;
- the row loop. It skips rows with a blank country or location part and keeps
  the first row of every locode. Each record gets
  `locode = countryCode + portCode`.

The seaport variant first keeps only the rows whose Function column contains
'1'. The backend and AI-Model copies of the builder have identical helpers and
loop. The rows below cite the backend copy, and cite the AI-Model copy for
its seaport filter.

## Modules

| module | file | what it holds |
|---|---|---|
| `Wrappers` | wrappers.dfy | `Option` |
| `Text` | text.dfy | ASCII upper-casing, `strip`, `split`, whitespace collapsing, substring search |
| `Records` | records.dfy | `PortRecord`, one element of `locode.json` |
| `Maps` | maps.dfy | dicts built from pairs in order, where the last pair wins |
| `Grouping` | grouping.dfy | dict-of-lists indexes filled in one pass |
| `Dedup` | dedup.dfy | first-occurrence filtering, the builder's `seen` set |
| `Coordinates` | coordinates.dfy | `parse_coordinates` and `convert`, with Python `int()` on the fields |
| `Builder` | builder.dfy | country map, `normalize_port_name`, the row loop, the seaport filter |
| `Registry` | registry.dfy | the matcher's constructor and its indexes |
| `Cleaning` | cleaning.dfy | `_normalize_text`, `_remove_noise`, `_extract_destination_from_route`, `_is_locode`, `_is_port_code_only` |
| `CleaningCases` | cleaning_cases.dfy | concrete destinations through the cleaning steps |
| `Country` | country.dfy | `_extract_country` |
| `Fuzzy` | fuzzy.dfy | `_fuzzy_match_port_name` |
| `Matching` | matcher.dfy | `match_destination`, `_format_response`, `_format_unmatched` |
| `MatchingFacts` | matcher_facts.dfy | properties of the cascade |

`SequenceMatcher(None, a, b).ratio()` is a function parameter `ratio`, and
nothing is assumed about it. The input file, the CSV tables and the outputs
become sequence parameters and results. Coordinates are exact `real`s.

`Convert` models Python's `int()` on the degree and minute fields. That
includes a sign, single underscores between digits, and surrounding
whitespace. So a field that is not plain digits can still parse: `SignedDegrees`
shows "-430N" reading as latitude -3.5.

## Model

| member | source | states |
|---|---|---|
| Registry.Init | AI-Model/helper/ais_port_matcher.py:13-43 | The constructor's indexes are well formed. The locode dict is built from the (locode, record) pairs in file order. Each of the four list indexes has its keys in order of first appearance, and each bucket is exactly the records with that upper-cased key, in file order. |
| Registry.LocodeIndex | AI-Model/helper/ais_port_matcher.py:14 | A string is a locode-index key exactly when some record carries it. It maps to the LAST record in file order carrying it. |
| Registry.Bucket | AI-Model/helper/ais_port_matcher.py:20-43 | Every index bucket is non-empty and holds only registry records with its key. Its head is the first record in file order with that key. |
| Maps.MapOf | AI-Model/helper/ais_port_matcher.py:14 | The keys of a dict built from pairs are exactly the keys of the pairs. |
| Maps.MapOfLastWins | AI-Model/helper/ais_port_matcher.py:14 | A key maps to the value of the last pair that has it. |
| Maps.MapOfEntry | AI-Model/helper/ais_port_matcher.py:14 | Every entry of the dict is one of the pairs. |
| Grouping.Add | AI-Model/helper/ais_port_matcher.py:23-25 | Filing an element creates the key's bucket if it is missing, then appends the element at the end of that bucket. |
| Grouping.AddStep | AI-Model/helper/ais_port_matcher.py:20-43 | Filing element `n` into the index of the first `n` elements gives the index of the first `n + 1`. |
| Grouping.KeyOrder | AI-Model/helper/ais_port_matcher.py:20-43 | The index keys are the keys of the elements, each once. |
| Grouping.BucketFacts | AI-Model/helper/ais_port_matcher.py:20-43 | A bucket is non-empty, holds only elements with its key, and starts with the first element that has the key. |
| Cleaning.NormalizeText | AI-Model/helper/ais_port_matcher.py:45-47 | The result is upper case, has no surrounding whitespace and is no longer than the input. Text that is already upper case and trimmed is returned unchanged. |
| Cleaning.ParensGone | AI-Model/helper/ais_port_matcher.py:58 | After bracket removal, no '(' is followed anywhere later by a ')'. |
| Cleaning.RemoveGroup | AI-Model/helper/ais_port_matcher.py:58 | A group from '(' to the first ')' after it is deleted. The text before it is kept and the scan resumes after the ')'. |
| Cleaning.ParensPrefix | AI-Model/helper/ais_port_matcher.py:58 | A prefix with no '(' passes through bracket removal unchanged. |
| Cleaning.RemoveNoise | AI-Model/helper/ais_port_matcher.py:49-67 | The output has no lower-case letter and none of the symbols of the class at line 60. It has no leading, trailing or doubled spaces. |
| Cleaning.RemoveNoiseOfClean | AI-Model/helper/ais_port_matcher.py:49-67 | Text that is upper case, symbol-free, canonically spaced and free of noise words is returned unchanged. |
| Cleaning.RemoveNoiseIdempotent | AI-Model/helper/ais_port_matcher.py:49-67 | Cleaning twice equals cleaning once whenever the first pass leaves no noise word. |
| Cleaning.NormalizeCleaned | AI-Model/helper/ais_port_matcher.py:207-213 | `_normalize_text` leaves cleaned text unchanged, so steps 3 and 6 look up the cleaned text itself. |
| Cleaning.SlashEntryInert | AI-Model/helper/ais_port_matcher.py:53-63 | The "N/A" noise word never removes anything. By the time words are removed, every '/' has already become a space. |
| Cleaning.BlankAfterRemoval | AI-Model/helper/ais_port_matcher.py:62-65 | When word removal leaves only whitespace, the cleaned text is empty. |
| Cleaning.RemoveWordsAppend | AI-Model/helper/ais_port_matcher.py:62-63 | Removing the words of a concatenated list is removing the first part's words, then the second part's. |
| Cleaning.WordsAbsentByChars | AI-Model/helper/ais_port_matcher.py:62-63 | Noise words that each contain a character the text lacks leave the text as it is. |
| CleaningCases.NoiseTba | AI-Model/helper/ais_port_matcher.py:51-65 | "TBA" cleans to the empty string. |
| CleaningCases.NoiseEastAnch | AI-Model/helper/ais_port_matcher.py:51-65 | "EAST ANCH" cleans to the empty string. "ANCH" goes at the second word of the list and "EAST" at the fifteenth. |
| Cleaning.FirstArrowFrom | AI-Model/helper/ais_port_matcher.py:71-74 | Gives the first arrow in list order that occurs in the text. No earlier arrow of the list occurs. None means no arrow occurs. |
| Cleaning.LastToBefore | AI-Model/helper/ais_port_matcher.py:79-80 | Gives the last position of a whole-word, any-case "TO". None means there is no such word. |
| Cleaning.ExtractDestinationFromRoute | AI-Model/helper/ais_port_matcher.py:69-84 | With no arrow and no word "TO", the text is returned unchanged. Any other result is trimmed and no longer than the input. |
| Cleaning.RouteIsStrippedSuffix | AI-Model/helper/ais_port_matcher.py:73-84 | The result is the input itself or a stripped suffix of it. |
| Cleaning.RoutePiece | AI-Model/helper/ais_port_matcher.py:73-84 | There is no piece exactly when the text holds neither an arrow nor a word "TO". |
| Cleaning.RouteSplit | AI-Model/helper/ais_port_matcher.py:71-77 | Take `x + arrow + y` for an arrow whose copies cannot overlap (every arrow but ">>" and "==="). No earlier arrow of the list occurs, and `y` holds no further copy of the arrow. The result is `y` stripped. |
| Cleaning.RouteArrowGone | AI-Model/helper/ais_port_matcher.py:73-77 | The result contains neither the arrow the text was split on nor any arrow tried before it. |
| Cleaning.TrailingArrow | AI-Model/helper/ais_port_matcher.py:75-77 | A text ending in the first arrow present gives an empty destination, for an arrow whose copies cannot overlap (every arrow but ">>" and "==="). |
| Cleaning.RouteTo | AI-Model/helper/ais_port_matcher.py:79-82 | Take `x TO y`, with the word in any case, no arrow anywhere and no further "TO" in `y`. The result is `y` stripped. |
| Cleaning.RouteAtTo | AI-Model/helper/ais_port_matcher.py:79-82 | Without arrows, the result is what follows the last word "TO", stripped. |
| CleaningCases.ArrowListOrder | AI-Model/helper/ais_port_matcher.py:71-77 | "A>B<>C" gives "C". "<>" comes first in the list, though ">" comes first in the text. |
| CleaningCases.RouteLeg | AI-Model/helper/ais_port_matcher.py:71-77 | "BEZEE <> GBHUL" gives "GBHUL". |
| CleaningCases.OverlappingArrow | AI-Model/helper/ais_port_matcher.py:71-77 | "A>>>" gives ">": `split(">>")` scans left to right without overlaps, so the last piece is ">" and not the empty text after the last ">>". |
| Cleaning.Compact | AI-Model/helper/ais_port_matcher.py:145 | The compact form is upper case, has no spaces or hyphens, and is no longer than the input. |
| Cleaning.CompactIdempotent | AI-Model/helper/ais_port_matcher.py:145 | Compacting twice is compacting once. |
| Cleaning.CompactJoin | AI-Model/helper/ais_port_matcher.py:145 | A space or hyphen between two parts disappears from the compact form. |
| Cleaning.LocodeSpellings | AI-Model/helper/ais_port_matcher.py:143-155 | A known locode is recognised both as written and with a space or hyphen after its country part. |
| Cleaning.LocodeIsKnown | AI-Model/helper/ais_port_matcher.py:143-155 | Recognised text has a five-letter compact form that is a key of the locode index. |
| Country.ExtractCountry | AI-Model/helper/ais_port_matcher.py:86-113 | Fewer than two parts give no country and the stripped text. A country comes back only as a known country name, or as a two-letter known country code. It is either the last part, with the port part being the other parts, or the first part, with the port part being the rest. |
| Country.CountryLast | AI-Model/helper/ais_port_matcher.py:96-101 | "PORT WORDS COUNTRY" with a known country name at the end gives that country and the port words joined by single spaces. |
| Country.CountryFirst | AI-Model/helper/ais_port_matcher.py:108-111 | "COUNTRY PORT WORDS" gives the leading country. This holds when the last part is neither a country name nor a two-letter country code. |
| Country.JoinedParts | AI-Model/helper/ais_port_matcher.py:90-100 | A port part joined from tokens splits back into the same tokens. |
| Fuzzy.Score | AI-Model/helper/ais_port_matcher.py:128-134 | The score is the ratio, raised to at least 0.85 when the name occurs in the port name. It is never below the ratio, and equals the ratio when there is no containment. |
| Fuzzy.SearchSpace | AI-Model/helper/ais_port_matcher.py:120-126 | An empty filter searches every record. Otherwise the filter's country-name bucket is searched, else its country-code bucket, else every record. |
| Fuzzy.SearchSpaceFromData | AI-Model/helper/ais_port_matcher.py:120-126 | Every searched port is a registry record. |
| Fuzzy.FuzzyMatch | AI-Model/helper/ais_port_matcher.py:115-141 | Only ports of the search space that reach the threshold are returned. |
| Fuzzy.CandidatesComplete | AI-Model/helper/ais_port_matcher.py:128-137 | Every qualifying port of the space becomes a candidate at its position. |
| Fuzzy.SortByScore | AI-Model/helper/ais_port_matcher.py:139-140 | Sorting is a permutation of the candidates. |
| Fuzzy.SortOrdered | AI-Model/helper/ais_port_matcher.py:139-140 | Sorting orders candidates by non-increasing score, with ties in search-space order (a stable sort). |
| Fuzzy.FuzzyMatchRanked | AI-Model/helper/ais_port_matcher.py:128-141 | The result is ordered and is a permutation of exactly the qualifying candidates. |
| Fuzzy.FuzzyMatchNonEmpty | AI-Model/helper/ais_port_matcher.py:128-141 | The result is non-empty exactly when some port of the space reaches the threshold. |
| Fuzzy.FuzzyMatchHead | AI-Model/helper/ais_port_matcher.py:139-141 | The first port returned has the highest qualifying score. Among ports with that score, it is the earliest in the space. |
| Fuzzy.FuzzyMatchMember | AI-Model/helper/ais_port_matcher.py:128-137 | Every qualifying port of the space is in the result. |
| Fuzzy.ContainedQualifies | AI-Model/helper/ais_port_matcher.py:133-136 | A name contained in a port name qualifies at any threshold up to 0.85. |
| Fuzzy.LowerThresholdKeeps | AI-Model/helper/ais_port_matcher.py:136 | Lowering the threshold never loses a port. |
| Fuzzy.TwoThresholds | AI-Model/helper/ais_port_matcher.py:265-273 | Whenever the high-threshold search finds ports, its best port is the low-threshold search's best port. |
| Matching.ExactInCountry | AI-Model/helper/ais_port_matcher.py:234-237 | Gives the first record in file order with the country code and the upper-cased port name. None means no record has both. |
| Matching.FirstOverlap | AI-Model/helper/ais_port_matcher.py:281-283 | Gives the first port-name key, in insertion order, that contains the text or is contained in it. None means no key does. |
| Matching.CountryPart | AI-Model/helper/ais_port_matcher.py:218-231 | A country code comes back only when a country filter was extracted. |
| Matching.Cleaned | AI-Model/helper/ais_port_matcher.py:196-207 | The text the cascade works on has the cleaning output's character set and spacing. |
| Matching.Format | AI-Model/helper/ais_port_matcher.py:166-187 | Every response in the outcome reports the original input. The outcome is unmatched exactly when nothing was found. |
| Matching.FormatAll | AI-Model/helper/ais_port_matcher.py:299 | The port-code list has one response per port, in bucket order. |
| Matching.Select | AI-Model/helper/ais_port_matcher.py:212-307 | Nothing is found exactly at the no-match stage. Only the port-code stage answers with a list. |
| Matching.SecondCountryPart | AI-Model/helper/ais_port_matcher.py:246-258 | The second step 5 has a country code only when a country filter was extracted. |
| Matching.Decide | AI-Model/helper/ais_port_matcher.py:190-307 | A missing or empty destination is rejected with reportedDestination "". Every other outcome reports the destination as given. The outcome is unmatched exactly when no answering stage fired. |
| Matching.MatchDestination | AI-Model/helper/ais_port_matcher.py:190-307 | A missing or empty input gives `Unmatched("")`. A pure-noise phrase gives `Unmatched(input)`. Every result reports the input. |
| MatchingFacts.DeadStages | AI-Model/helper/ais_port_matcher.py:246-278 | On a registry the constructor built, the second step 5's exact in-country check and the second step 6's exact lookup never answer. |
| MatchingFacts.SearchCoherent | AI-Model/helper/ais_port_matcher.py:246-278 | On a registry the constructor built, the second step 5's exact search finds what the first step 5 found, and the step-6 lookup of `port_upper` finds what step 3 found. |
| MatchingFacts.SecondCountryCodeAgrees | AI-Model/helper/ais_port_matcher.py:218-258 | On a registry the constructor built, the second step 5 derives the same country code as the first. A country-name bucket is never empty, so the default read at line 252 is always overwritten. |
| MatchingFacts.SecondCountryCodeDefault | AI-Model/helper/ais_port_matcher.py:250-255 | If a country-name bucket were empty, the first step 5 would have no code, and the second would use the first record's country code. |
| MatchingFacts.SelectCoherent | AI-Model/helper/ais_port_matcher.py:246-278 | When the repeated searches agree with the first ones, selection never answers at either repeated stage. |
| MatchingFacts.SelectIsFirstHit | AI-Model/helper/ais_port_matcher.py:212-307 | When the repeated searches agree with the first ones, the cascade answers at the first stage, in the source's order, whose search found something. |
| MatchingFacts.CascadeIsFirstHit | AI-Model/helper/ais_port_matcher.py:212-307 | On a registry the constructor built, the cascade answers at the first stage of the reference list whose search found something. |
| MatchingFacts.LaterHits | AI-Model/helper/ais_port_matcher.py:280-304 | After the in-country stages, the order is containment, fuzzy 0.80, port code, then fuzzy 0.70. |
| MatchingFacts.ExactSearchFacts | AI-Model/helper/ais_port_matcher.py:212-215 | The exact search succeeds exactly when some record has that upper-cased name. It returns the first such record. |
| MatchingFacts.LocodeSearchFacts | AI-Model/helper/ais_port_matcher.py:239-243 | The locode search succeeds exactly when the text is a known locode. It returns the last record carrying that locode. |
| MatchingFacts.OverlapSearchFacts | AI-Model/helper/ais_port_matcher.py:280-283 | The containment scan returns a registry port whose name overlaps the text. When it finds none, no registry port name overlaps. |
| MatchingFacts.PortCodeSearchFacts | AI-Model/helper/ais_port_matcher.py:290-299 | A port-code hit is the whole non-empty bucket of registry ports with that code, in file order. |
| MatchingFacts.CascadeFromData | AI-Model/helper/ais_port_matcher.py:212-304 | Every port the cascade answers with is a registry record. |
| MatchingFacts.ResponsesFromData | AI-Model/helper/ais_port_matcher.py:190-307 | Every response of `match_destination` describes a registry record and reports the input. |
| MatchingFacts.Rejects | AI-Model/helper/ais_port_matcher.py:192-210 | Empty input, a pure-noise phrase, or input that cleans to nothing is reported back unmatched. |
| MatchingFacts.DecideCascade | AI-Model/helper/ais_port_matcher.py:204-215 | Past the early exits, the outcome is the formatted pick of the cascade on the cleaned text. |
| MatchingFacts.ExactNameFirst | AI-Model/helper/ais_port_matcher.py:212-215 | A destination that cleans to a port name is answered at step 3 with the first record of that name. |
| MatchingFacts.PortCodeAnswer | AI-Model/helper/ais_port_matcher.py:290-299 | A port-code answer is one response when the bucket holds one port. Otherwise it is the whole bucket, in order. |
| MatchingFacts.LocodeAnswer | AI-Model/helper/ais_port_matcher.py:239-243 | A locode answer is the last record in file order carrying the locode the text spells. |
| MatchingFacts.LocodeWhenNoName | AI-Model/helper/ais_port_matcher.py:239-243 | A known locode that neither exact-name search caught is answered with the locode index's record. |
| MatchingFacts.GlobalFuzzyPlainRatio | AI-Model/helper/ais_port_matcher.py:280-304 | At the 0.80 and 0.70 stages the 0.85 containment floor never applies. The answer does not contain the text, and its plain ratio reaches the threshold. |
| MatchingFacts.CountryFuzzyLowScore | AI-Model/helper/ais_port_matcher.py:265-273 | The 0.65 in-country stage answers only with a port scoring in [0.65, 0.75). |
| MatchingFacts.CountryFuzzyCascade | AI-Model/helper/ais_port_matcher.py:265-273 | Whichever in-country fuzzy stage answers, the port is the best in-country port at 0.65. |
| Builder.CountryPairs | backend/helper/script.py:93-94 | Each row gives the pair (stripped upper-cased code, stripped name), in table order. |
| Builder.CountryMapDomain | backend/helper/script.py:93-94 | The country map's keys are exactly the table's codes. |
| Builder.CountryMapLastWins | backend/helper/script.py:93-94 | A code maps to the name on the last row that has it. |
| Builder.CountryName | backend/helper/script.py:117 | An unknown code gives "". Otherwise the result is the mapped name. |
| Builder.NormalizePortName | backend/helper/script.py:38-46 | A non-string gives "". The result has only upper-case word characters and single plain spaces. It is empty exactly when the stripped input is. Its words are stated by `Builder.NormalizeWords`. |
| Builder.NormalizeWords | backend/helper/script.py:43-45 | The result's space-separated words are the input's upper-cased runs of word characters, in order. The result starts (ends) with a space exactly when the stripped, upper-cased input starts (ends) with punctuation. |
| Builder.SpaceOutTokens | backend/helper/script.py:44 | Once every `[^\w\s]` character becomes a space, the whitespace-separated words are the runs of word characters. |
| Builder.NormalizeTwice | backend/helper/script.py:38-46 | Normalising a normalised name only strips it. |
| Builder.TrailingPunctuation | backend/helper/script.py:43-46 | A name ending in punctuation keeps one trailing space, because the function does not strip again. |
| Builder.MakeRecord | backend/helper/script.py:111-131 | `locode == countryCode + portCode`. These fields are the row's cleaned country and location parts, and the port is the stripped name. |
| Builder.MakeRecordFields | backend/helper/script.py:116-131 | The record carries the mapped country name, the parsed coordinates, and the normalised "name, country". |
| Builder.RecordsAt | backend/helper/script.py:122-132 | One record per chosen row, in row order. |
| Builder.KeptIsDeduplicated | backend/helper/script.py:107-114 | Output locodes are pairwise distinct. Every record is a usable row's, and every usable row's locode has the record of its first row. |
| Builder.StepSkipped | backend/helper/script.py:107-109 | A row with a blank code part goes to the skip list only. |
| Builder.StepDuplicate | backend/helper/script.py:111-113 | A row whose locode was seen changes nothing. |
| Builder.StepNew | backend/helper/script.py:111-132 | A row with a new locode appends its record and marks the locode seen. |
| Builder.ProcessRow | backend/helper/script.py:101-132 | One loop turn keeps the records, the skip list and the seen set equal to their reference definitions. |
| Builder.BuildRecords | backend/helper/script.py:101-132 | The loop's records are the first usable row of every locode, in row order. Its skip list is every row with a blank country or location, in row order. |
| Dedup.FirstIndices | backend/helper/script.py:111-114 | The kept positions are exactly the first occurrences of every key, in increasing order, with distinct keys. |
| Dedup.FirstKeysComplete | backend/helper/script.py:111-114 | Every key has a kept position at or before its first appearance. |
| Dedup.FirstIffUnseen | backend/helper/script.py:112-114 | A position is a first occurrence exactly when its key is not yet in the seen set. |
| Builder.Seaports | AI-Model/helper/script.py:70-77 | Without a Function column nothing is filtered. With one, exactly the rows whose Function contains '1' are kept. |
| Builder.SeaportsAppend | AI-Model/helper/script.py:73 | The filter keeps rows in their order, each once: filtering `a + b` gives the kept rows of `a` followed by the kept rows of `b`. |
| Builder.SeaportsOne | AI-Model/helper/script.py:73 | A single row is kept exactly when there is no Function column or its Function contains '1'. |
| Builder.BuildSeaportRecords | AI-Model/helper/script.py:70-118 | The seaport builder is the same loop over the filtered rows. |
| Builder.SeaportRecordsAreSeaports | AI-Model/helper/script.py:71-118 | With a Function column, every record comes from a row whose Function contains '1'. |
| Coordinates.PyInt | backend/helper/script.py:66-67 | `int()` succeeds exactly on an optional sign and digits with single underscores, after stripping whitespace. |
| Coordinates.PyIntOfNumeral | backend/helper/script.py:66-67 | On plain digits, `int()` gives their decimal value. |
| Coordinates.PySlice | backend/helper/script.py:66-75 | Python slicing agrees with Dafny slicing when the end is in range. Otherwise it clips. |
| Coordinates.Convert | backend/helper/script.py:63-81 | `convert` gives a value exactly when the text extends past the minutes and both fields are int literals. Otherwise it gives None. |
| Coordinates.ConvertFields | backend/helper/script.py:64-79 | The value is degrees + minutes/60, negated exactly for 'S' (latitude) or 'W' (longitude). |
| Coordinates.ConvertSign | backend/helper/script.py:64-79 | On digit fields the magnitude is non-negative and equals degrees + minutes/60. Only 'S' or 'W' negate it, and 'N', 'E' or any other letter leave it positive. |
| Coordinates.SignedDegrees | backend/helper/script.py:65-71 | "-430N" reads as -3.5: `int()` accepts the sign. |
| Coordinates.ConvertReadsFixedWidth | backend/helper/script.py:66-75 | Characters after the hemisphere letter are ignored. |
| Coordinates.ConvertEncodeHalf | backend/helper/script.py:63-79 | Writing a half as `DDMMH` or `DDDMMH` and converting it gives back degrees + minutes/60, negated exactly for the negative hemisphere. |
| Coordinates.ParseCoordinates | backend/helper/script.py:48-85 | A blank cell, or one that does not split into exactly two whitespace-separated parts, gives (None, None). Otherwise each part is converted on its own. |
| Coordinates.ParseHalvesIndependently | backend/helper/script.py:80-85 | The two halves are converted independently, so a malformed half spoils only its own value. |
| Coordinates.ParseEncodedCoordinates | backend/helper/script.py:57-85 | Encoding a position as a cell and parsing it gives the position back. |
| Coordinates.WorkedExample | backend/helper/script.py:14-23 | "4230N 00131E" gives latitude 42.5 and longitude 1 + 31/60. |

## Left out

- File and CSV input, JSON output and prints: `open`/`json.load` in the constructor, the pandas reads, and the writes and prints of both scripts. Records and rows are passed in as sequences, and records and the skip list come back as results.
- `difflib.SequenceMatcher`: its ratio is the parameter `ratio`, and no property of it is assumed.
- `unidecode` transliteration and Unicode casing: strings are ASCII. `\w`, `\s`, `str.isspace`, `str.isalpha` and `upper()` are their ASCII versions.
- Float rounding in `deg + minutes / 60.0` and the float threshold comparisons: both are exact `real` arithmetic.
- Python's non-ASCII digits in `int()` are not modelled. `Convert` models ASCII signs, underscores and whitespace only.
- The `isinstance` checks are modelled with `Option<string>`, where `None` stands for a non-string. pandas reads every cell as text, so the coordinate cell is a plain `string`.
- Exceptions raised inside `convert` (a short field, `int()` failure, a missing hemisphere) are the `None` result.
- The matcher runs its searches lazily and stops at the first hit. The model computes every search and then selects, which gives the same answer because the searches have no side effects.
- `_is_country_code` (AI-Model/helper/ais_port_matcher.py:157-159) is never called, so it is not modelled.
- The `matched=False` branch of `_format_response` (AI-Model/helper/ais_port_matcher.py:178-179) is never reached, so it is not modelled. `Matching.FormatResponse` models the matched branch; it has no ensures, and `Matching.Format` states the formatting properties.
- `self.locode_data[0]['countryCode']` at AI-Model/helper/ais_port_matcher.py:252 raises an IndexError when there are no records at all. `Matching.SecondCountryCodeFor` gives "" in that case. A registry with no records has no country-name buckets, so this branch is never reached.
- The builder's docstring shows `port_norm` as "ANDORRA LA VELLA, ANDORRA", with the comma. The code turns the comma into a space. The model follows the code.
- Cleaning.RemoveNoise: states the character set and spacing of the output, not a closed form of the word removal. `CleaningCases` and `Cleaning.RemoveNoiseOfClean` pin down concrete and clean inputs.
- The chatbot (AI-Model/chatbot/chatbot.py) and the Flask app (AI-Model/app.py) are not part of this model. The example harness commented out at the end of the matcher file is not executable code.
