/**
 * The matcher's text clean-up: `_normalize_text`, `_remove_noise`,
 * `_extract_destination_from_route`, and the compact code form that
 * `_is_locode` and `_is_port_code_only` test.
 */
module Cleaning {
  import opened Wrappers
  import opened Text

  /** `_normalize_text`: upper-case, then strip. */
  function NormalizeText(s: string): (r: string)
    ensures IsUpperCase(r) && Trimmed(r) && |r| <= |s|
    ensures IsUpperCase(s) && Trimmed(s) ==> r == s
  {
    UpperIsUpperCase(s);
    StripKeeps(Upper(s), NotLower);
    Strip(Upper(s))
  }

  // ------------------------------------------------------------ bracket groups

  predicate NotClose(c: char) { c != ')' }

  /** The first ')' at or after position `i`. */
  function CloseFrom(s: string, i: nat): (j: Option<nat>)
    requires i <= |s|
    ensures j.Some? ==> i <= j.value < |s| && s[j.value] == ')'
    ensures j.Some? ==> forall k :: i <= k < j.value ==> s[k] != ')'
    ensures j.None? ==> forall k :: i <= k < |s| ==> s[k] != ')'
    decreases |s| - i
  {
    if i == |s| then None
    else if s[i] == ')' then Some(i)
    else CloseFrom(s, i + 1)
  }

  /** `re.sub(r'\([^)]*\)', '', s)`: a '(' that has a ')' somewhere after it
      is dropped together with everything up to and including the first such
      ')', and the scan resumes after it; a '(' with no ')' after it stays. */
  function RemoveParens(s: string): (r: string)
    ensures |r| <= |s|
    ensures '(' !in s ==> r == s
    decreases |s|
  {
    if |s| == 0 then []
    else if s[0] == '(' && CloseFrom(s, 1).Some? then RemoveParens(s[CloseFrom(s, 1).value + 1..])
    else [s[0]] + RemoveParens(s[1..])
  }

  /** No '(' is followed, anywhere later, by a ')'. */
  predicate NoGroup(s: string) {
    forall a, b :: 0 <= a < b < |s| && s[a] == '(' ==> s[b] != ')'
  }

  /** Removing groups only deletes characters. */
  lemma {:induction false} ParensKeep(s: string, p: char -> bool)
    requires All(s, p)
    ensures All(RemoveParens(s), p)
    decreases |s|
  {
    if |s| > 0 {
      var c := CloseFrom(s, 1);
      if s[0] == '(' && c.Some? {
        ParensKeep(s[c.value + 1..], p);
      } else {
        ParensKeep(s[1..], p);
      }
    }
  }

  /** No bracket group survives. */
  lemma {:induction false} ParensGone(s: string)
    ensures NoGroup(RemoveParens(s))
    decreases |s|
  {
    if |s| > 0 {
      var c := CloseFrom(s, 1);
      if s[0] == '(' && c.Some? {
        ParensGone(s[c.value + 1..]);
      } else {
        var rest := RemoveParens(s[1..]);
        ParensGone(s[1..]);
        if s[0] == '(' {
          ParensKeep(s[1..], NotClose);
        }
        var r := [s[0]] + rest;
        forall a, b | 0 <= a < b < |r| && r[a] == '(' ensures r[b] != ')' {
          assert r[b] == rest[b - 1];
          if a == 0 {
            assert NotClose(rest[b - 1]);
          } else {
            assert r[a] == rest[a - 1];
          }
        }
      }
    }
  }

  /** A prefix without '(' is kept as it is. */
  lemma {:induction false} ParensPrefix(a: string, rest: string)
    requires '(' !in a
    ensures RemoveParens(a + rest) == a + RemoveParens(rest)
    decreases |a|
  {
    if |a| > 0 {
      var t := a[1..];
      assert a == [a[0]] + t;
      assert a + rest == [a[0]] + (t + rest);
      ParensCons(a[0], t + rest);
      ParensPrefix(t, rest);
      ConsAssoc(a[0], t, RemoveParens(rest));
    } else {
      assert a + rest == rest;
    }
  }

  lemma ConsAssoc(c: char, t: string, r: string)
    ensures [c] + (t + r) == ([c] + t) + r
  {
  }

  lemma ParensCons(c: char, t: string)
    requires c != '('
    ensures RemoveParens([c] + t) == [c] + RemoveParens(t)
  {
    assert ([c] + t)[1..] == t;
  }

  /** A bracket group, from its '(' to the first ')' after it, is removed and
      the text around it is kept. */
  lemma RemoveGroup(a: string, g: string, b: string)
    requires '(' !in a && ')' !in g
    ensures RemoveParens(a + "(" + g + ")" + b) == a + RemoveParens(b)
  {
    var s := "(" + g + ")" + b;
    assert a + "(" + g + ")" + b == a + s;
    ParensPrefix(a, s);
    GroupHead(g, b);
  }

  lemma GroupHead(g: string, b: string)
    requires ')' !in g
    ensures RemoveParens("(" + g + ")" + b) == RemoveParens(b)
  {
    var s := "(" + g + ")" + b;
    var close := |g| + 1;
    assert s[close] == ')';
    forall k | 1 <= k < close ensures s[k] != ')' {
      assert s[k] == g[k - 1];
    }
    CloseSkip(s, 1, close);
    assert s[close + 1..] == b;
  }

  lemma {:induction false} CloseSkip(s: string, i: nat, j: nat)
    requires i <= j <= |s|
    requires forall k :: i <= k < j ==> s[k] != ')'
    ensures CloseFrom(s, i) == CloseFrom(s, j)
    decreases j - i
  {
    if i < j {
      CloseSkip(s, i + 1, j);
    }
  }

  // --------------------------------------------------------------- noise words

  /** The symbol class `[<>=>|/\\._\-"'`~!@#$%^&*()[\]{}:;]`. */
  const Symbols: string := "<>=|/\\._-\"'`~!@#$%^&*()[]{}:;"

  predicate IsSymbol(c: char) { c in Symbols }

  predicate NotSymbol(c: char) { !IsSymbol(c) }

  /** The noise words, removed in this order. */
  const NoiseWords: seq<string> := [
    "TBA", "ANCH", "ANCHORING", "BUNKERING", "OPL", "OPEN", "IN ORDER", "FOR ORDER", "FOR ORDERS",
    "ORDERS", "ORDER", "UNKNOWN", "N/A", "NONE", "EAST", "WEST", "NORTH", "SOUTH", "ANCHORAGE", "AWAITING"]

  /** `\bw\b` matches at `i`.  Every noise word begins and ends with a word
      character, so the two boundaries are a non-word character (or the end
      of the text) on either side. */
  predicate WordAt(s: string, w: string, i: nat) {
    && OccursAt(s, w, i)
    && (i == 0 || !IsWordChar(s[i - 1]))
    && (i + |w| == |s| || !IsWordChar(s[i + |w|]))
  }

  predicate WordShaped(w: string) {
    |w| > 0 && IsWordChar(w[0]) && IsWordChar(w[|w| - 1])
  }

  lemma NoiseWordsAreWordShaped()
    ensures forall k :: 0 <= k < |NoiseWords| ==> WordShaped(NoiseWords[k])
  {
  }

  /** `re.sub(rf'\b{w}\b', '', s)` from position `i` on: matches are removed
      left to right, the scan resuming after each one; the boundaries are
      judged on the text before the removal. */
  function RemoveWordFrom(s: string, w: string, i: nat): (r: string)
    requires |w| > 0 && i <= |s|
    ensures |r| <= |s| - i
    decreases |s| - i
  {
    if i == |s| then []
    else if WordAt(s, w, i) then RemoveWordFrom(s, w, i + |w|)
    else [s[i]] + RemoveWordFrom(s, w, i + 1)
  }

  function RemoveWord(s: string, w: string): (r: string)
    requires |w| > 0
    ensures |r| <= |s|
  {
    RemoveWordFrom(s, w, 0)
  }

  lemma {:induction false} RemoveWordKeeps(s: string, w: string, i: nat, p: char -> bool)
    requires |w| > 0 && i <= |s|
    requires forall k :: i <= k < |s| ==> p(s[k])
    ensures All(RemoveWordFrom(s, w, i), p)
    decreases |s| - i
  {
    if i < |s| {
      if WordAt(s, w, i) {
        RemoveWordKeeps(s, w, i + |w|, p);
      } else {
        RemoveWordKeeps(s, w, i + 1, p);
      }
    }
  }

  lemma {:induction false} RemoveWordAbsent(s: string, w: string, i: nat)
    requires |w| > 0 && i <= |s|
    requires forall j :: i <= j ==> !WordAt(s, w, j)
    ensures RemoveWordFrom(s, w, i) == s[i..]
    decreases |s| - i
  {
    if i < |s| {
      RemoveWordAbsent(s, w, i + 1);
      assert [s[i]] + s[i + 1..] == s[i..];
    }
  }

  /** A text that is exactly the word loses all of it. */
  lemma RemoveWordWhole(w: string)
    requires |w| > 0
    ensures RemoveWord(w, w) == []
  {
    assert w[0..|w|] == w;
    assert WordAt(w, w, 0);
  }

  /** The words of `ws` removed one after the other, in list order. */
  function RemoveWords(s: string, ws: seq<string>): (r: string)
    requires forall k :: 0 <= k < |ws| ==> |ws[k]| > 0
    ensures |r| <= |s|
    decreases |ws|
  {
    if |ws| == 0 then s else RemoveWords(RemoveWord(s, ws[0]), ws[1..])
  }

  lemma {:induction false} RemoveWordsKeeps(s: string, ws: seq<string>, p: char -> bool)
    requires forall k :: 0 <= k < |ws| ==> |ws[k]| > 0
    requires All(s, p)
    ensures All(RemoveWords(s, ws), p)
    decreases |ws|
  {
    if |ws| > 0 {
      RemoveWordKeeps(s, ws[0], 0, p);
      RemoveWordsKeeps(RemoveWord(s, ws[0]), ws[1..], p);
    }
  }

  lemma {:induction false} RemoveWordsAbsent(s: string, ws: seq<string>)
    requires forall k :: 0 <= k < |ws| ==> |ws[k]| > 0
    requires forall k, j :: 0 <= k < |ws| && 0 <= j < |s| ==> !WordAt(s, ws[k], j)
    ensures RemoveWords(s, ws) == s
    decreases |ws|
  {
    if |ws| > 0 {
      RemoveWordAbsent(s, ws[0], 0);
      assert s[0..] == s;
      RemoveWordsAbsent(s, ws[1..]);
    }
  }

  /** Removing the words of `a + b` is removing those of `a`, then those of `b`. */
  lemma {:induction false} RemoveWordsAppend(s: string, a: seq<string>, b: seq<string>)
    requires forall k :: 0 <= k < |a| ==> |a[k]| > 0
    requires forall k :: 0 <= k < |b| ==> |b[k]| > 0
    ensures RemoveWords(s, a + b) == RemoveWords(RemoveWords(s, a), b)
    decreases |a|
  {
    if |a| == 0 {
      assert a + b == b;
    } else {
      assert (a + b)[0] == a[0] && (a + b)[1..] == a[1..] + b;
      RemoveWordsAppend(RemoveWord(s, a[0]), a[1..], b);
    }
  }

  /** A text that is exactly the first word of the list loses all of it. */
  lemma RemoveWordsOfFirst(w: string, ws: seq<string>)
    requires |ws| > 0 && ws[0] == w && forall k :: 0 <= k < |ws| ==> |ws[k]| > 0
    ensures RemoveWords(w, ws) == []
  {
    RemoveWordWhole(w);
    RemoveWordsAbsent([], ws[1..]);
  }

  /** Once the first `k` words have turned `s` into `mid`, the rest of the
      list works on `mid`. */
  lemma RemoveWordsSteps(s: string, ws: seq<string>, k: nat, mid: string)
    requires k <= |ws| && forall j :: 0 <= j < |ws| ==> |ws[j]| > 0
    requires RemoveWords(s, ws[..k]) == mid
    ensures RemoveWords(s, ws) == RemoveWords(mid, ws[k..])
  {
    assert ws == ws[..k] + ws[k..];
    RemoveWordsAppend(s, ws[..k], ws[k..]);
  }

  /** Scanning past positions where the word does not match keeps them. */
  lemma {:induction false} RemoveWordSkip(s: string, w: string, i: nat, k: nat)
    requires |w| > 0 && i <= k <= |s|
    requires forall j :: i <= j < k ==> !WordAt(s, w, j)
    ensures RemoveWordFrom(s, w, i) == s[i..k] + RemoveWordFrom(s, w, k)
    decreases k - i
  {
    if i < k {
      var r := RemoveWordFrom(s, w, k);
      RemoveWordSkip(s, w, i + 1, k);
      assert RemoveWordFrom(s, w, i) == [s[i]] + (s[i + 1..k] + r);
      assert [s[i]] + (s[i + 1..k] + r) == ([s[i]] + s[i + 1..k]) + r;
      assert s[i..k] == [s[i]] + s[i + 1..k];
    }
  }

  /** A word holding a character the text lacks occurs nowhere in it. */
  lemma WordAbsentByChar(s: string, w: string, c: char)
    requires c in w && c !in s
    ensures forall j :: !WordAt(s, w, j)
  {
    var i :| 0 <= i < |w| && w[i] == c;
    forall j: nat ensures !OccursAt(s, w, j) {
      if j + |w| <= |s| {
        assert s[j..j + |w|][i] == s[j + i] && s[j + i] in s;
      }
    }
  }

  /** Words each holding a character the text lacks leave the text as it is;
      `cs[k]` is such a character for `ws[k]`. */
  lemma WordsAbsentByChars(s: string, ws: seq<string>, cs: string)
    requires |cs| == |ws| && forall k :: 0 <= k < |ws| ==> |ws[k]| > 0 && cs[k] in ws[k] && cs[k] !in s
    ensures RemoveWords(s, ws) == s
  {
    forall k | 0 <= k < |ws| ensures forall j :: !WordAt(s, ws[k], j) {
      WordAbsentByChar(s, ws[k], cs[k]);
    }
    RemoveWordsAbsent(s, ws);
  }

  /** The 'N/A' entry never removes anything: by the time the words are
      removed, every '/' has already become a space. */
  lemma SlashEntryInert(s: string)
    requires All(s, NotSymbol)
    ensures RemoveWord(s, "N/A") == s
  {
    forall j: nat ensures !OccursAt(s, "N/A", j) {
      if j + 3 <= |s| {
        assert NotSymbol(s[j + 1]) && s[j..j + 3][1] == s[j + 1];
      }
    }
    RemoveWordAbsent(s, "N/A", 0);
  }

  /** Neither lower-case nor one of the symbols. */
  predicate IsCleanChar(c: char) { !IsLowerLetter(c) && !IsSymbol(c) }

  /** No noise word occurs as a whole word. */
  predicate NoNoiseWord(s: string) {
    forall k, j :: 0 <= k < |NoiseWords| && 0 <= j < |s| ==> !WordAt(s, NoiseWords[k], j)
  }

  /** `_remove_noise`: upper-case, drop bracket groups, turn symbols into
      spaces, remove the noise words, collapse whitespace and strip. */
  function RemoveNoise(text: string): (r: string)
    ensures All(r, IsCleanChar) && CanonicalSpacing(r)
  {
    NoiseWordsAreWordShaped();
    var w := RemoveWords(SpaceOut(RemoveParens(Upper(text)), IsSymbol), NoiseWords);
    CleanChars(text, NoiseWords, w);
    StripSingleSpaced(CollapseSpaces(w));
    Strip(CollapseSpaces(w))
  }

  /** When removing the noise words leaves only whitespace, nothing at all
      is left. */
  lemma BlankAfterRemoval(text: string)
    requires All(RemoveWords(SpaceOut(RemoveParens(Upper(text)), IsSymbol), NoiseWords), IsSpace)
    ensures RemoveNoise(text) == []
  {
    NoiseWordsAreWordShaped();
    var w := RemoveWords(SpaceOut(RemoveParens(Upper(text)), IsSymbol), NoiseWords);
    assert RemoveNoise(text) == Strip(CollapseSpaces(w));
    CollapseKeeps(w, IsSpace);
    StripEmpty(CollapseSpaces(w));
  }

  /** Upper-case text without symbols that the word removal reduces to
      whitespace cleans to nothing. */
  lemma BlankAfterPrepared(text: string)
    requires IsUpperCase(text) && All(text, NotSymbol)
    requires All(RemoveWords(text, NoiseWords), IsSpace)
    ensures RemoveNoise(text) == []
  {
    PreparedUnchanged(text);
    BlankAfterRemoval(text);
  }

  /** Upper-case text without symbols reaches the word removal unchanged. */
  lemma PreparedUnchanged(s: string)
    requires IsUpperCase(s) && All(s, NotSymbol)
    ensures SpaceOut(RemoveParens(Upper(s)), IsSymbol) == s
  {
    UpperKeepsUpperCase(s);
    assert '(' !in s by {
      forall k | 0 <= k < |s| ensures s[k] != '(' { assert NotSymbol(s[k]); }
    }
  }

  lemma CleanChars(text: string, ws: seq<string>, w: string)
    requires forall k :: 0 <= k < |ws| ==> |ws[k]| > 0
    requires w == RemoveWords(SpaceOut(RemoveParens(Upper(text)), IsSymbol), ws)
    ensures All(Strip(CollapseSpaces(w)), IsCleanChar)
  {
    var p := RemoveParens(Upper(text));
    ParensKeep(Upper(text), NotLower);
    SpacedOutClean(p);
    RemoveWordsKeeps(SpaceOut(p, IsSymbol), ws, IsCleanChar);
    SpaceIsClean();
    CollapseKeeps(w, IsCleanChar);
    StripKeeps(CollapseSpaces(w), IsCleanChar);
  }

  lemma SpaceIsClean()
    ensures IsCleanChar(' ')
  {
    assert ' ' !in Symbols;
  }

  lemma SpacedOutClean(p: string)
    requires All(p, NotLower)
    ensures All(SpaceOut(p, IsSymbol), IsCleanChar)
  {
    SpaceIsClean();
  }

  /** Text that is already clean passes through unchanged. */
  lemma RemoveNoiseOfClean(s: string)
    requires All(s, IsCleanChar) && CanonicalSpacing(s) && NoNoiseWord(s)
    ensures RemoveNoise(s) == s
  {
    NoiseWordsAreWordShaped();
    UpperKeepsUpperCase(s);
    assert IsSymbol('(');
    assert RemoveParens(s) == s;
    assert SpaceOut(s, IsSymbol) == s;
    RemoveWordsAbsent(s, NoiseWords);
    CollapseCanonical(s);
  }

  /** Cleaning is idempotent whenever the first pass left no noise word. */
  lemma RemoveNoiseIdempotent(s: string)
    requires NoNoiseWord(RemoveNoise(s))
    ensures RemoveNoise(RemoveNoise(s)) == RemoveNoise(s)
  {
    RemoveNoiseOfClean(RemoveNoise(s));
  }

  /** Cleaned text is its own normal form. */
  lemma NormalizeCleaned(s: string)
    ensures NormalizeText(RemoveNoise(s)) == RemoveNoise(s)
  {
    var r := RemoveNoise(s);
    assert IsUpperCase(r) by {
      forall k | 0 <= k < |r| ensures !IsLowerLetter(r[k]) {
        assert IsCleanChar(r[k]);
      }
    }
  }

  // --------------------------------------------------------------------- routes

  /** The route arrows, tried in this order. */
  const Arrows: seq<string> := ["<>", ">>", "-->", "=>", "===", "->", ">"]

  /** The first arrow, at list position `k` or later, that occurs in `text`. */
  function FirstArrowFrom(text: string, k: nat): (r: Option<nat>)
    requires k <= |Arrows|
    ensures r.Some? ==> k <= r.value < |Arrows| && Contains(text, Arrows[r.value])
    ensures r.Some? ==> forall j :: k <= j < r.value ==> !Contains(text, Arrows[j])
    ensures r.None? ==> forall j :: k <= j < |Arrows| ==> !Contains(text, Arrows[j])
    decreases |Arrows| - k
  {
    if k == |Arrows| then None
    else if Contains(text, Arrows[k]) then Some(k)
    else FirstArrowFrom(text, k + 1)
  }

  /** `\bTO\b` under `re.IGNORECASE` matches at `i`. */
  predicate ToAt(s: string, i: nat) {
    && i + 2 <= |s|
    && UpperChar(s[i]) == 'T' && UpperChar(s[i + 1]) == 'O'
    && (i == 0 || !IsWordChar(s[i - 1]))
    && (i + 2 == |s| || !IsWordChar(s[i + 2]))
  }

  /** The last match of `\bTO\b` starting before `n`. */
  function LastToBefore(s: string, n: nat): (r: Option<nat>)
    requires n <= |s|
    ensures r.Some? ==> r.value < n && ToAt(s, r.value)
    ensures r.Some? ==> forall j :: r.value < j < n ==> !ToAt(s, j)
    ensures r.None? ==> forall j :: 0 <= j < n ==> !ToAt(s, j)
  {
    if n == 0 then None
    else if ToAt(s, n - 1) then Some(n - 1)
    else LastToBefore(s, n - 1)
  }

  /** `_extract_destination_from_route`: the stripped text after the last
      occurrence of the first arrow present; failing that, after the last
      word "TO" in any case; failing that, the text unchanged. */
  function ExtractDestinationFromRoute(text: string): (r: string)
    ensures |r| <= |text|
    ensures ((forall j :: 0 <= j < |Arrows| ==> !Contains(text, Arrows[j]))
             && (forall i :: !ToAt(text, i))) ==> r == text
    ensures r != text ==> Trimmed(r)
  {
    match RoutePiece(text)
    case Some(p) => Strip(p)
    case None => text
  }

  /** The part of a route the destination is read from, before stripping:
      what follows the last occurrence of the first arrow present, or else
      what follows the last word "TO"; `None` when the text has neither. */
  function RoutePiece(text: string): (r: Option<string>)
    ensures r.Some? ==> |r.value| <= |text|
    ensures r.None? <==> (forall j :: 0 <= j < |Arrows| ==> !Contains(text, Arrows[j]))
                         && (forall i :: !ToAt(text, i))
  {
    match FirstArrowFrom(text, 0)
    case Some(k) => Some(LastPiece(text, Arrows[k]))
    case None =>
      match LastToBefore(text, |text|)
      case Some(i) => Some(text[i + 2..])
      case None => None
  }

  /** Whatever the route rule returns is the input itself or a stripped
      suffix of it. */
  lemma RouteIsStrippedSuffix(text: string)
    ensures var r := ExtractDestinationFromRoute(text);
      r == text || exists j :: 0 <= j <= |text| && r == Strip(text[j..])
  {
    if RoutePiece(text).Some? {
      var p := RoutePiece(text).value;
      RoutePieceIsSuffix(text);
      assert ExtractDestinationFromRoute(text) == Strip(text[|text| - |p|..]);
    }
  }

  /** The piece the route rule reads is a suffix of the text. */
  lemma RoutePieceIsSuffix(text: string)
    requires RoutePiece(text).Some?
    ensures var p := RoutePiece(text).value; p == text[|text| - |p|..]
  {
    match FirstArrowFrom(text, 0)
    case Some(k) =>
      LastPieceFromIsSuffix(text, Arrows[k], 0);
    case None =>
  }

  /** A route ending in the first arrow present gives an empty destination. */
  lemma TrailingArrow(x: string, k: nat)
    requires k < |Arrows| && OverlapFree(Arrows[k])
    requires forall j :: 0 <= j < k ==> !Contains(x + Arrows[k], Arrows[j])
    ensures ExtractDestinationFromRoute(x + Arrows[k]) == []
  {
    var y: string := [];
    assert x + Arrows[k] + y == x + Arrows[k];
    assert !Contains(y, Arrows[k]) by {
      if Contains(y, Arrows[k]) {
        ContainsIffOccurs(y, Arrows[k]);
      }
    }
    RouteSplit(x, k, y);
    StripEmpty(y);
  }

  /** An occurrence inside a slice is an occurrence in the whole text. */
  lemma InfixContains(s: string, a: nat, e: nat, q: string)
    requires a <= e <= |s|
    ensures Contains(s[a..e], q) ==> Contains(s, q)
  {
    if Contains(s[a..e], q) {
      InfixOccurrence(s, a, e, q);
    }
  }

  lemma InfixOccurrence(s: string, a: nat, e: nat, q: string)
    requires a <= e <= |s|
    requires Contains(s[a..e], q)
    ensures Contains(s, q)
  {
    var i := FindFrom(s[a..e], q, 0).value;
    assert OccursAt(s[a..e], q, i);
    assert s[a..e][i..i + |q|] == s[a + i..a + i + |q|];
    assert OccursAt(s, q, a + i);
    ContainsIffOccurs(s, q);
  }

  /** What the arrow rule returns holds neither the arrow it split on nor any
      arrow tried before it. */
  lemma RouteArrowGone(text: string, k: nat)
    requires FirstArrowFrom(text, 0) == Some(k)
    ensures forall j :: 0 <= j <= k ==> !Contains(ExtractDestinationFromRoute(text), Arrows[j])
  {
    var piece := LastPiece(text, Arrows[k]);
    var n := |text| - |piece|;
    LastPieceFromIsSuffix(text, Arrows[k], 0);
    assert text[n..|text|] == piece;
    assert ExtractDestinationFromRoute(text) == Strip(piece);
    LastPieceFromHasNoSeparator(text, Arrows[k], 0);
    forall j | 0 <= j <= k ensures !Contains(Strip(piece), Arrows[j]) {
      StripContains(piece, Arrows[j]);
      if j < k {
        InfixContains(text, n, |text|, Arrows[j]);
      }
    }
  }

  lemma StripContains(s: string, q: string)
    ensures Contains(Strip(s), q) ==> Contains(s, q)
  {
    StripIsInfix(s);
    var a := SkipSpaces(s, 0);
    InfixContains(s, a, SkipSpacesBack(s, a, |s|), q);
  }

  /** An occurrence past the end of `x + q` lies inside `y`. */
  lemma OccursInTail(x: string, q: string, y: string, j: nat)
    requires OccursAt(x + q + y, q, j) && |x| + |q| <= j
    ensures Contains(y, q)
  {
    var s := x + q + y;
    var d := j - |x| - |q|;
    assert s[j..j + |q|] == y[d..d + |q|];
    assert OccursAt(y, q, d);
  }

  /** Splitting `x + arrow + y` on the first arrow present returns `y`
      stripped, when `y` holds no further copy of that arrow and copies of
      the arrow cannot overlap. */
  lemma RouteSplit(x: string, k: nat, y: string)
    requires k < |Arrows| && OverlapFree(Arrows[k]) && !Contains(y, Arrows[k])
    requires forall j :: 0 <= j < k ==> !Contains(x + Arrows[k] + y, Arrows[j])
    ensures ExtractDestinationFromRoute(x + Arrows[k] + y) == Strip(y)
  {
    var a := Arrows[k];
    var s := x + a + y;
    assert s[|x|..|x| + |a|] == a;
    assert OccursAt(s, a, |x|);
    assert Contains(s, a);
    FirstArrowAt(s, k);
    forall j' | |x| < j' ensures !OccursAt(s, a, j') {
      if OccursAt(s, a, j') {
        OccurrencesApart(s, a, |x|, j');
        OccursInTail(x, a, y, j');
      }
    }
    LastPieceAfterLastOccurrence(s, a, |x|);
    assert s[|x| + |a|..] == y;
  }

  lemma {:induction false} FirstArrowAt(text: string, k: nat)
    requires k < |Arrows| && Contains(text, Arrows[k])
    requires forall j :: 0 <= j < k ==> !Contains(text, Arrows[j])
    ensures FirstArrowFrom(text, 0) == Some(k)
  {
    FirstArrowFromAt(text, 0, k);
  }

  lemma {:induction false} FirstArrowFromAt(text: string, i: nat, k: nat)
    requires i <= k < |Arrows| && Contains(text, Arrows[k])
    requires forall j :: i <= j < k ==> !Contains(text, Arrows[j])
    ensures FirstArrowFrom(text, i) == Some(k)
    decreases k - i
  {
    if i < k {
      FirstArrowFromAt(text, i + 1, k);
    }
  }

  /** Every arrow contains '>' or '='. */
  lemma NoArrowChars(s: string)
    requires '>' !in s && '=' !in s
    ensures forall j :: 0 <= j < |Arrows| ==> !Contains(s, Arrows[j])
  {
    forall j | 0 <= j < |Arrows| ensures !Contains(s, Arrows[j]) {
      if j == 4 {
        AbsentCharNotContained(s, Arrows[j], '=');
      } else {
        assert '>' in Arrows[j];
        AbsentCharNotContained(s, Arrows[j], '>');
      }
    }
  }

  /** `x TO y` (the word in any case) with no arrow anywhere and no further
      word "TO" in `y` gives `y` stripped. */
  lemma RouteTo(x: string, t: string, y: string)
    requires |t| == 2 && UpperChar(t[0]) == 'T' && UpperChar(t[1]) == 'O'
    requires forall j :: 0 <= j < |Arrows| ==> !Contains(x + " " + t + " " + y, Arrows[j])
    requires forall i :: !ToAt(y, i)
    ensures ExtractDestinationFromRoute(x + " " + t + " " + y) == Strip(y)
  {
    var s := x + " " + t + " " + y;
    var n := |x| + 1;
    ToInMiddle(x, t, y);
    LastToAt(s, |s|, n);
    NoArrowFrom(s, 0);
    RouteAtTo(s, n);
    assert s[n + 2..] == " " + y;
    StripLeadingSpace(y);
  }

  /** With no arrow, a last word "TO" at `n` selects what follows it. */
  lemma RouteAtTo(s: string, n: nat)
    requires FirstArrowFrom(s, 0).None?
    requires LastToBefore(s, |s|) == Some(n)
    ensures n + 2 <= |s| && ExtractDestinationFromRoute(s) == Strip(s[n + 2..])
  {
    assert ToAt(s, n);
    RoutePieceToSome(s, n);
    RoutePieceTo(s, n);
  }

  lemma RoutePieceToSome(s: string, n: nat)
    requires FirstArrowFrom(s, 0).None? && LastToBefore(s, |s|) == Some(n)
    ensures RoutePiece(s).Some?
  {
  }

  lemma RoutePieceTo(s: string, n: nat)
    requires FirstArrowFrom(s, 0).None?
    requires LastToBefore(s, |s|) == Some(n) && n + 2 <= |s|
    ensures RoutePiece(s).value == s[n + 2..]
  {
  }

  lemma {:induction false} NoArrowFrom(s: string, k: nat)
    requires k <= |Arrows|
    requires forall j :: k <= j < |Arrows| ==> !Contains(s, Arrows[j])
    ensures FirstArrowFrom(s, k).None?
    decreases |Arrows| - k
  {
    if k < |Arrows| {
      NoArrowFrom(s, k + 1);
    }
  }

  /** In `x TO y` the word sits at `|x| + 1` and is the last one when `y`
      holds none. */
  lemma ToInMiddle(x: string, t: string, y: string)
    requires |t| == 2 && UpperChar(t[0]) == 'T' && UpperChar(t[1]) == 'O'
    requires forall i :: !ToAt(y, i)
    ensures var s, n := x + " " + t + " " + y, |x| + 1;
      ToAt(s, n) && forall j :: n < j < |s| ==> !ToAt(s, j)
  {
    var s := x + " " + t + " " + y;
    var n := |x| + 1;
    assert s[n] == t[0] && s[n + 1] == t[1] && s[n - 1] == ' ' && s[n + 2] == ' ';
    forall j | n < j < |s| ensures !ToAt(s, j) {
      if j >= n + 3 {
        assert s[j..] == y[j - n - 3..];
        assert !ToAt(y, j - n - 3);
      } else if j == n + 2 {
        assert s[j] == ' ';
      } else {
        assert s[j] == t[1];
      }
    }
  }

  lemma {:induction false} LastToAt(s: string, m: nat, n: nat)
    requires n < m <= |s| && ToAt(s, n)
    requires forall j :: n < j < m ==> !ToAt(s, j)
    ensures LastToBefore(s, m) == Some(n)
    decreases m
  {
    if m - 1 > n {
      LastToAt(s, m - 1, n);
    }
  }

  lemma StripLeadingSpace(y: string)
    ensures Strip(" " + y) == Strip(y)
  {
    var s := " " + y;
    var a := SkipSpaces(y, 0);
    var e := SkipSpacesBack(y, a, |y|);
    assert SkipSpaces(s, 0) == SkipSpaces(s, 1);
    SkipShift(y, 0);
    SkipBackShift(y, a, |y|);
    StripByBounds(s, a + 1, e + 1);
    StripByBounds(y, a, e);
    ConsSlice(' ', y, a, e);
  }

  lemma StripByBounds(s: string, a: nat, e: nat)
    requires a <= |s| && SkipSpaces(s, 0) == a && SkipSpacesBack(s, a, |s|) == e
    ensures e <= |s| && Strip(s) == s[a..e]
  {
  }

  lemma ConsSlice(c: char, y: string, i: nat, j: nat)
    requires i <= j <= |y|
    ensures ([c] + y)[i + 1..j + 1] == y[i..j]
  {
  }

  lemma {:induction false} SkipShift(y: string, i: nat)
    requires i <= |y|
    ensures SkipSpaces(" " + y, i + 1) == SkipSpaces(y, i) + 1
    decreases |y| - i
  {
    if i < |y| {
      assert (" " + y)[i + 1] == y[i];
      SkipShift(y, i + 1);
    }
  }

  lemma {:induction false} SkipBackShift(y: string, a: nat, j: nat)
    requires a <= j <= |y|
    ensures SkipSpacesBack(" " + y, a + 1, j + 1) == SkipSpacesBack(y, a, j) + 1
    decreases j
  {
    if a < j {
      assert (" " + y)[j] == y[j - 1];
      SkipBackShift(y, a, j - 1);
    }
  }

  // ---------------------------------------------------------------------- codes

  /** `text.upper().replace(' ', '').replace('-', '')`. */
  function Compact(t: string): (c: string)
    ensures IsUpperCase(c) && ' ' !in c && '-' !in c && |c| <= |t|
  {
    UpperIsUpperCase(t);
    WithoutKeeps(Upper(t), ' ', NotLower);
    var u := Without(Upper(t), ' ');
    WithoutKeeps(u, '-', NotLower);
    WithoutKeeps(u, '-', NotSpace);
    Without(u, '-')
  }

  predicate NotSpace(c: char) { c != ' ' }

  lemma {:induction false} WithoutKeeps(s: string, c: char, p: char -> bool)
    requires All(s, p)
    ensures All(Without(s, c), p)
    decreases |s|
  {
    if |s| > 0 {
      WithoutKeeps(s[1..], c, p);
    }
  }

  lemma {:induction false} WithoutAppend(a: string, b: string, c: char)
    ensures Without(a + b, c) == Without(a, c) + Without(b, c)
    decreases |a|
  {
    if |a| > 0 {
      var t := a[1..];
      assert a == [a[0]] + t;
      assert a + b == [a[0]] + (t + b);
      WithoutCons(a[0], t + b, c);
      WithoutCons(a[0], t, c);
      WithoutAppend(t, b, c);
      var h, wt, wb := (if a[0] == c then [] else [a[0]]), Without(t, c), Without(b, c);
      assert h + (wt + wb) == (h + wt) + wb;
    } else {
      assert a + b == b;
    }
  }

  lemma WithoutCons(x: char, t: string, c: char)
    ensures Without([x] + t, c) == (if x == c then [] else [x]) + Without(t, c)
  {
    assert ([x] + t)[1..] == t;
  }

  /** Compacting twice is compacting once. */
  lemma CompactIdempotent(t: string)
    ensures Compact(Compact(t)) == Compact(t)
  {
    var c := Compact(t);
    UpperKeepsUpperCase(c);
  }

  /** A space or a hyphen between two parts disappears. */
  lemma CompactJoin(a: string, sep: char, b: string)
    requires sep == ' ' || sep == '-'
    ensures Compact(a + [sep] + b) == Compact(a) + Compact(b)
  {
    SpacesOut(a, sep, b);
    DashesOut(Without(Upper(a), ' '), sep, Without(Upper(b), ' '));
  }

  lemma DashesOut(wa: string, sep: char, wb: string)
    requires sep == ' ' || sep == '-'
    ensures Without(wa + Without([sep], ' ') + wb, '-') == Without(wa, '-') + Without(wb, '-')
  {
    WithoutAppend3(wa, Without([sep], ' '), wb, '-');
    SeparatorGone(sep);
    EmptyMiddle(Without(wa, '-'), Without(wb, '-'));
  }

  lemma SeparatorGone(sep: char)
    requires sep == ' ' || sep == '-'
    ensures Without(Without([sep], ' '), '-') == []
  {
    WithoutChar(sep, ' ');
    if sep == '-' {
      WithoutChar(sep, '-');
    }
  }

  lemma EmptyMiddle(x: string, y: string)
    ensures x + [] + y == x + y
  {
  }

  lemma SpacesOut(a: string, sep: char, b: string)
    requires !IsLowerLetter(sep)
    ensures Without(Upper(a + [sep] + b), ' ')
         == Without(Upper(a), ' ') + Without([sep], ' ') + Without(Upper(b), ' ')
  {
    var ua, ub := Upper(a), Upper(b);
    assert Upper(a + [sep] + b) == ua + [UpperChar(sep)] + ub;
    WithoutAppend3(ua, [UpperChar(sep)], ub, ' ');
  }

  lemma WithoutAppend3(x: string, y: string, z: string, c: char)
    ensures Without(x + y + z, c) == Without(x, c) + Without(y, c) + Without(z, c)
  {
    WithoutAppend(x + y, z, c);
    WithoutAppend(x, y, c);
  }

  lemma WithoutChar(x: char, c: char)
    ensures Without([x], c) == if x == c then [] else [x]
  {
    assert [x][1..] == [];
  }

  /** `_is_locode`: the compact form is five letters and a known locode. */
  predicate IsLocode<V>(locodes: map<string, V>, t: string) {
    var c := Compact(t);
    |c| == 5 && IsAlpha(c[..2]) && IsAlpha(c[2..]) && c in locodes
  }

  /** `_is_port_code_only`: the compact form is three letters. */
  predicate IsPortCodeOnly(t: string) {
    var c := Compact(t);
    |c| == 3 && IsAlpha(c)
  }

  /** A known locode is recognised however it is written: as is, or with a
      space or hyphen after the country part, in any case. */
  lemma LocodeSpellings<V>(locodes: map<string, V>, l: string, sep: char)
    requires |l| == 5 && IsAlpha(l) && IsUpperCase(l) && l in locodes
    requires sep == ' ' || sep == '-'
    ensures IsLocode(locodes, l)
    ensures IsLocode(locodes, l[..2] + [sep] + l[2..])
  {
    UpperKeepsUpperCase(l);
    assert Compact(l) == l;
    CompactJoin(l[..2], sep, l[2..]);
    UpperKeepsUpperCase(l[..2]);
    UpperKeepsUpperCase(l[2..]);
    assert Compact(l[..2]) == l[..2];
    assert Compact(l[2..]) == l[2..];
    assert l[..2] + l[2..] == l;
  }

  /** A text is a locode only when its compact form is a key of the index. */
  lemma LocodeIsKnown<V>(locodes: map<string, V>, t: string)
    requires IsLocode(locodes, t)
    ensures Compact(t) in locodes && |Compact(t)| == 5 && IsAlpha(Compact(t))
  {
    var c := Compact(t);
    assert forall k :: 0 <= k < 5 ==> IsLetter(c[k]) by {
      forall k | 0 <= k < 5 ensures IsLetter(c[k]) {
        if k < 2 { assert c[k] == c[..2][k]; } else { assert c[k] == c[2..][k - 2]; }
      }
    }
  }
}
