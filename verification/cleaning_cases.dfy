/**
 * Concrete destinations run through the cleaning steps: pure noise cleans to
 * nothing, and a route is cut at the arrow that comes first in the arrow
 * list, wherever it stands in the text.
 */
module CleaningCases {
  import opened Wrappers
  import opened Text
  import opened Cleaning

  /** "TBA" alone is pure noise. */
  lemma NoiseTba(d: string)
    requires d == "TBA"
    ensures RemoveNoise(d) == []
  {
    NoiseWordsAreWordShaped();
    TbaWords(d);
    TbaPlain(d);
    BlankAfterPrepared(d);
  }

  /** Capital letters and spaces only: upper case and free of symbols. */
  lemma PlainUpper(d: string)
    requires forall k :: 0 <= k < |d| ==> IsUpperLetter(d[k]) || d[k] == ' '
    ensures IsUpperCase(d) && All(d, NotSymbol)
  {
    forall k | 0 <= k < |d| ensures NotSymbol(d[k]) {
      LetterOrSpaceNotSymbol(d[k]);
    }
  }

  lemma TbaPlain(d: string)
    requires d == "TBA"
    ensures IsUpperCase(d) && All(d, NotSymbol)
  {
    assert d[0] == 'T' && d[1] == 'B' && d[2] == 'A';
    PlainUpper(d);
  }

  lemma EastAnchPlain(s: string)
    requires s == "EAST ANCH"
    ensures IsUpperCase(s) && All(s, NotSymbol)
  {
    assert s[..5] == "EAST " && s[5..] == "ANCH";
    assert forall k :: 0 <= k < 5 ==> IsUpperLetter(s[k]) || s[k] == ' ';
    assert forall k :: 5 <= k < 9 ==> IsUpperLetter(s[k]);
    PlainUpper(s);
  }

  lemma LetterOrSpaceNotSymbol(c: char)
    requires IsUpperLetter(c) || c == ' '
    ensures NotSymbol(c)
  {
  }

  /** The first word of the list takes all of "TBA". */
  lemma TbaWords(d: string)
    requires d == "TBA"
    requires forall k :: 0 <= k < |NoiseWords| ==> WordShaped(NoiseWords[k])
    ensures RemoveWords(d, NoiseWords) == [] && All(RemoveWords(d, NoiseWords), IsSpace)
  {
    RemoveWordsOfFirst(d, NoiseWords);
  }

  /** "EAST ANCH" is two noise words: "ANCH" goes at the second word of the
      list and "EAST" at the fifteenth, and only a space is left between. */
  lemma NoiseEastAnch(s: string)
    requires s == "EAST ANCH"
    ensures RemoveNoise(s) == []
  {
    NoiseWordsAreWordShaped();
    EastAnchWords(s);
    EastAnchPlain(s);
    BlankAfterPrepared(s);
  }

  lemma EastAnchWords(s: string)
    requires s == "EAST ANCH"
    requires forall k :: 0 <= k < |NoiseWords| ==> WordShaped(NoiseWords[k])
    ensures RemoveWords(s, NoiseWords) == " " && All(RemoveWords(s, NoiseWords), IsSpace)
  {
    HeadWords(s);
    RemoveWordsSteps(s, NoiseWords, 2, "EAST ");
    AfterAnch(NoiseWords[2..]);
  }

  /** "TBA" is absent and "ANCH" is cut from the end. */
  lemma HeadWords(s: string)
    requires s == "EAST ANCH"
    ensures RemoveWords(s, NoiseWords[..2]) == "EAST "
  {
    var tba, anch := NoiseWords[0], NoiseWords[1];
    var ws := NoiseWords[..2];
    assert ws[0] == tba && ws[1..] == [anch] && [anch][1..] == [];
    WordAbsentByChar(s, tba, 'B');
    RemoveWordAbsent(s, tba, 0);
    assert s[0..] == s;
    assert RemoveWords(s, ws) == RemoveWords(s, [anch]);
    AnchAtEnd(s);
    assert RemoveWords(s, [anch]) == RemoveWords(RemoveWord(s, anch), []);
  }

  lemma AnchAtEnd(s: string)
    requires s == "EAST ANCH"
    ensures RemoveWord(s, "ANCH") == "EAST "
  {
    assert WordAt(s, "ANCH", 5) by { assert s[5..9] == "ANCH"; }
    assert !WordAt(s, "ANCH", 0) by { assert s[0..4] == "EAST"; }
    RemoveWordSkip(s, "ANCH", 0, 5);
    assert s[0..5] == "EAST ";
  }

  /** From "ANCHORING" to "NONE" every word has a letter "EAST " lacks. */
  lemma AfterAnch(ws: seq<string>)
    requires ws == NoiseWords[2..]
    ensures RemoveWords("EAST ", ws) == " "
  {
    NoiseWordsAreWordShaped();
    assert ws[..12] == NoiseWords[2..14];
    WordsAbsentByChars("EAST ", ws[..12], "OBOOOOOOOU/O");
    RemoveWordsSteps("EAST ", ws, 12, "EAST ");
    assert ws[12..] == NoiseWords[14..];
    FromEast(ws[12..]);
  }

  /** "EAST" is cut from the front of "EAST "; the last five words have a
      letter the remaining space lacks. */
  lemma FromEast(ws: seq<string>)
    requires ws == NoiseWords[14..]
    ensures RemoveWords("EAST ", ws) == " "
  {
    NoiseWordsAreWordShaped();
    EastWord(ws[0]);
    assert ws[..1] == [ws[0]] && [ws[0]][1..] == [];
    assert RemoveWords("EAST ", ws[..1]) == RemoveWords(RemoveWord("EAST ", ws[0]), []);
    RemoveWordsSteps("EAST ", ws, 1, " ");
    WordsAbsentByChars(" ", ws[1..], "WOOAA");
  }

  lemma EastWord(east: string)
    requires east == "EAST"
    ensures RemoveWord("EAST ", east) == " "
  {
    var s := "EAST ";
    assert WordAt(s, east, 0) by { assert s[0..4] == "EAST"; }
    assert RemoveWord(s, east) == RemoveWordFrom(s, east, 4);
    RemoveWordSkip(s, east, 4, 5);
    assert s[4..5] == " ";
  }

  /** The arrow list is tried in order: in "A>B<>C" the "<>" is found before
      the ">" that stands earlier in the text. */
  lemma ArrowListOrder(route: string)
    requires route == "A>B<>C"
    ensures ExtractDestinationFromRoute(route) == "C"
  {
    var x, y := "A>B", "C";
    assert x + Arrows[0] + y == route;
    DiamondSplit(x, y);
    assert Trimmed(y);
  }

  /** A route leg "BEZEE <> GBHUL" gives its destination "GBHUL". */
  lemma RouteLeg(route: string)
    requires route == "BEZEE <> GBHUL"
    ensures ExtractDestinationFromRoute(route) == "GBHUL"
  {
    var x, y := "BEZEE ", " GBHUL";
    assert x + Arrows[0] + y == route;
    DiamondSplit(x, y);
    StripLeadingSpace("GBHUL");
    assert " " + "GBHUL" == y;
    assert Trimmed("GBHUL");
  }

  /** "<>" is the first arrow of the list, so it splits any route holding it;
      with no '<' after it, the destination is the stripped tail. */
  lemma DiamondSplit(x: string, y: string)
    requires '<' !in y
    ensures ExtractDestinationFromRoute(x + Arrows[0] + y) == Strip(y)
  {
    DiamondOverlapFree();
    AbsentCharNotContained(y, Arrows[0], '<');
    RouteSplit(x, 0, y);
  }

  /** An arrow that can overlap itself is split as Python's `str.split` scans,
      left to right without overlaps: "A>>>" splits on ">>" into "A" and ">",
      so the destination is ">" and not the empty text after the last ">>". */
  lemma OverlappingArrow(route: string)
    requires route == "A>>>"
    ensures ExtractDestinationFromRoute(route) == ">"
  {
    var a := Arrows[1];
    AbsentCharNotContained(route, Arrows[0], '<');
    assert route[1..3] == a && OccursAt(route, a, 1);
    FirstArrowAt(route, 1);
    assert route[0..2] != a;
    assert FindFrom(route, a, 0) == Some(1);
    LastPieceFromStep(route, a, 0, 1);
    assert route[3..] == ">";
    assert Trimmed(">");
  }

  /** Two occurrences of "<>" never overlap. */
  lemma DiamondOverlapFree()
    ensures OverlapFree(Arrows[0])
  {
    var a := Arrows[0];
    assert a == "<>";
    assert a[1..][0] == '>' && a[..1][0] == '<';
    assert !IsBorder(a, 1);
  }
}
