/**
 * ASCII string primitives shared by the dataset builder and the destination
 * matcher: Python's character classes, `str.upper`, `str.strip`, the `in`
 * operator, `str.split(sep)`, regex `\s+` collapsing and splitting a string
 * into tokens on a separator class.
 */
module Text {
  import opened Wrappers

  // ------------------------------------------------------------------ characters

  /** Python's `str.isspace()` and regex `\s` on ASCII: space, TAB..CR and the
      four information separators 0x1C..0x1F. */
  predicate IsSpace(c: char) {
    c == ' ' || (9 <= c as int <= 13) || (28 <= c as int <= 31)
  }

  predicate IsLowerLetter(c: char) { 'a' <= c <= 'z' }

  predicate IsUpperLetter(c: char) { 'A' <= c <= 'Z' }

  /** `str.isalpha()` of a single ASCII character. */
  predicate IsLetter(c: char) { IsLowerLetter(c) || IsUpperLetter(c) }

  predicate IsDigit(c: char) { '0' <= c <= '9' }

  /** Regex `\w` on ASCII. */
  predicate IsWordChar(c: char) { IsLetter(c) || IsDigit(c) || c == '_' }

  /** Regex `\W`: separates runs of word characters. */
  predicate NotWordChar(c: char) { !IsWordChar(c) }

  /** `str.upper()` of one ASCII character. */
  function UpperChar(c: char): (u: char)
    ensures !IsLowerLetter(u)
    ensures !IsLowerLetter(c) ==> u == c
    ensures IsLetter(u) <==> IsLetter(c)
    ensures IsSpace(u) <==> IsSpace(c)
    ensures IsWordChar(u) <==> IsWordChar(c)
  {
    if IsLowerLetter(c) then (c as int - 32) as char else c
  }

  // --------------------------------------------------------------------- strings

  /** `str.upper()` on ASCII. */
  function Upper(s: string): (r: string)
    ensures |r| == |s|
    ensures forall k :: 0 <= k < |s| ==> r[k] == UpperChar(s[k])
  {
    seq(|s|, k requires 0 <= k < |s| => UpperChar(s[k]))
  }

  predicate IsUpperCase(s: string) {
    forall k :: 0 <= k < |s| ==> !IsLowerLetter(s[k])
  }

  predicate NotLower(c: char) { !IsLowerLetter(c) }

  lemma UpperIsUpperCase(s: string)
    ensures IsUpperCase(Upper(s))
  {
  }

  lemma UpperKeepsUpperCase(s: string)
    requires IsUpperCase(s)
    ensures Upper(s) == s
  {
  }

  lemma UpperAppend(a: string, b: string)
    ensures Upper(a + b) == Upper(a) + Upper(b)
  {
  }

  /** `str.isalpha()`: non-empty and letters only. */
  predicate IsAlpha(s: string) {
    |s| > 0 && forall k :: 0 <= k < |s| ==> IsLetter(s[k])
  }

  /** Every character of `s` satisfies `p`. */
  predicate All(s: string, p: char -> bool) {
    forall k :: 0 <= k < |s| ==> p(s[k])
  }

  /** Replaces every character satisfying `p` by a space. */
  function SpaceOut(s: string, p: char -> bool): (r: string)
    ensures |r| == |s|
    ensures forall k :: 0 <= k < |s| ==> r[k] == (if p(s[k]) then ' ' else s[k])
  {
    seq(|s|, k requires 0 <= k < |s| => if p(s[k]) then ' ' else s[k])
  }

  /** Removes every occurrence of the character `c` (Python `s.replace(c, '')`). */
  function Without(s: string, c: char): (r: string)
    ensures |r| <= |s|
    ensures forall k :: 0 <= k < |r| ==> r[k] != c
    ensures c !in s ==> r == s
  {
    if |s| == 0 then []
    else (if s[0] == c then [] else [s[0]]) + Without(s[1..], c)
  }

  // ------------------------------------------------------------------- stripping

  /** No whitespace at either end. */
  predicate Trimmed(s: string) {
    |s| == 0 || (!IsSpace(s[0]) && !IsSpace(s[|s| - 1]))
  }

  /** The first position at or after `i` that does not hold whitespace. */
  function SkipSpaces(s: string, i: nat): (j: nat)
    requires i <= |s|
    ensures i <= j <= |s| && (j == |s| || !IsSpace(s[j]))
    ensures forall k :: i <= k < j ==> IsSpace(s[k])
    decreases |s| - i
  {
    if i < |s| && IsSpace(s[i]) then SkipSpaces(s, i + 1) else i
  }

  /** The end of `s[a..j]` once its trailing whitespace is dropped. */
  function SkipSpacesBack(s: string, a: nat, j: nat): (e: nat)
    requires a <= j <= |s|
    ensures a <= e <= j && (e == a || !IsSpace(s[e - 1]))
    ensures forall k :: e <= k < j ==> IsSpace(s[k])
    decreases j
  {
    if a < j && IsSpace(s[j - 1]) then SkipSpacesBack(s, a, j - 1) else j
  }

  /** `str.lstrip()`. */
  function TrimStart(s: string): (r: string)
    ensures |r| <= |s| && r == s[|s| - |r|..]
    ensures |r| == 0 || !IsSpace(r[0])
    ensures forall k :: 0 <= k < |s| - |r| ==> IsSpace(s[k])
  {
    s[SkipSpaces(s, 0)..]
  }

  /** `str.strip()`: the infix left once leading and trailing whitespace is gone. */
  function Strip(s: string): (r: string)
    ensures Trimmed(r)
    ensures |r| <= |s|
    ensures Trimmed(s) ==> r == s
  {
    var a := SkipSpaces(s, 0);
    s[a..SkipSpacesBack(s, a, |s|)]
  }

  /** What `Strip` removes is whitespace at the two ends, and nothing else. */
  lemma StripIsInfix(s: string)
    ensures var a := SkipSpaces(s, 0);
            var e := SkipSpacesBack(s, a, |s|);
              Strip(s) == s[a..e]
              && (forall k :: 0 <= k < a ==> IsSpace(s[k]))
              && (forall k :: e <= k < |s| ==> IsSpace(s[k]))
  {
  }

  /** Stripping leaves nothing exactly when the text is all whitespace. */
  lemma StripEmpty(s: string)
    ensures |Strip(s)| == 0 <==> All(s, IsSpace)
  {
    StripIsInfix(s);
    var a := SkipSpaces(s, 0);
    if a < |s| {
      assert !IsSpace(s[a]);
      assert SkipSpacesBack(s, a, |s|) > a;
    }
  }

  /** Upper-casing does not change whether stripping leaves anything. */
  lemma StripUpperEmpty(s: string)
    ensures |Strip(Upper(s))| == 0 <==> |Strip(s)| == 0
  {
    StripEmpty(s);
    StripEmpty(Upper(s));
    var u := Upper(s);
    assert All(u, IsSpace) <==> All(s, IsSpace) by {
      forall k | 0 <= k < |s| ensures IsSpace(u[k]) <==> IsSpace(s[k]) {
        assert u[k] == UpperChar(s[k]);
      }
    }
  }

  // ------------------------------------------------------------------- searching

  /** `q` occurs in `s` starting at position `i`. */
  predicate OccursAt(s: string, q: string, i: nat) {
    i + |q| <= |s| && s[i..i + |q|] == q
  }

  /** `s.find(q, i)`: the first position at or after `i` where `q` occurs. */
  function FindFrom(s: string, q: string, i: nat): (r: Option<nat>)
    ensures r.Some? ==> i <= r.value && OccursAt(s, q, r.value)
    ensures r.Some? ==> forall j :: i <= j < r.value ==> !OccursAt(s, q, j)
    ensures r.None? ==> forall j :: i <= j ==> !OccursAt(s, q, j)
    decreases |s| - i
  {
    if i + |q| > |s| then None
    else if s[i..i + |q|] == q then Some(i)
    else FindFrom(s, q, i + 1)
  }

  function Find(s: string, q: string): Option<nat> {
    FindFrom(s, q, 0)
  }

  /** Python's `q in s`. */
  predicate Contains(s: string, q: string) {
    Find(s, q).Some?
  }

  lemma ContainsIffOccurs(s: string, q: string)
    ensures Contains(s, q) <==> exists i :: OccursAt(s, q, i)
  {
  }

  /** A separator holding a character that `s` lacks does not occur in `s`;
      on a literal `s` this reduces a scan to one membership test. */
  lemma AbsentCharNotContained(s: string, q: string, c: char)
    requires c in q && c !in s
    ensures !Contains(s, q)
  {

  }

  lemma ContainsShift(s: string, q: string, i: nat, k: nat)
    requires i <= |s|
    requires OccursAt(s[i..], q, k)
    ensures OccursAt(s, q, i + k)
  {
    assert s[i..][k..k + |q|] == s[i + k..i + k + |q|];
  }

  /** The empty string is a substring of every string. */
  lemma EmptyContained(s: string)
    ensures Contains(s, [])
  {
    assert OccursAt(s, [], 0);
  }

  // ----------------------------------------------------------------- route split

  /** `s.split(sep)[-1]` for a non-empty separator: what follows the last
      separator met by Python's left-to-right, non-overlapping scan. */
  function LastPiece(s: string, sep: string): (r: string)
    requires |sep| > 0
    ensures |r| <= |s|
  {
    LastPieceFrom(s, sep, 0)
  }

  /** The scan of `LastPiece`, resumed at position `start`. */
  function LastPieceFrom(s: string, sep: string, start: nat): (r: string)
    requires |sep| > 0 && start <= |s|
    ensures |r| <= |s| - start
    decreases |s| - start
  {
    match FindFrom(s, sep, start)
    case None => s[start..]
    case Some(i) => LastPieceFrom(s, sep, i + |sep|)
  }

  /** The last split piece contains no separator. */
  lemma {:induction false} LastPieceFromHasNoSeparator(s: string, sep: string, start: nat)
    requires |sep| > 0 && start <= |s|
    ensures !Contains(LastPieceFrom(s, sep, start), sep)
    decreases |s| - start
  {
    if FindFrom(s, sep, start).None? {
      TailWithoutSeparator(s, sep, start);
    } else {
      var i := FindFrom(s, sep, start).value;
      LastPieceFromStep(s, sep, start, i);
      LastPieceFromHasNoSeparator(s, sep, i + |sep|);
    }
  }

  lemma LastPieceFromStep(s: string, sep: string, start: nat, i: nat)
    requires |sep| > 0 && start <= |s| && FindFrom(s, sep, start) == Some(i)
    ensures i + |sep| <= |s| && LastPieceFrom(s, sep, start) == LastPieceFrom(s, sep, i + |sep|)
  {
  }

  /** The last piece is a suffix of the string. */
  lemma {:induction false} LastPieceFromIsSuffix(s: string, sep: string, start: nat)
    requires |sep| > 0 && start <= |s|
    ensures var r := LastPieceFrom(s, sep, start); r == s[|s| - |r|..]
    decreases |s| - start
  {
    if FindFrom(s, sep, start).Some? {
      var i := FindFrom(s, sep, start).value;
      LastPieceFromStep(s, sep, start, i);
      LastPieceFromIsSuffix(s, sep, i + |sep|);
    }
  }

  /** When the scan from `start` finds no separator, the rest of the string
      contains none. */
  lemma TailWithoutSeparator(s: string, sep: string, start: nat)
    requires |sep| > 0 && start <= |s| && FindFrom(s, sep, start).None?
    ensures !Contains(s[start..], sep) && LastPieceFrom(s, sep, start) == s[start..]
  {
    var r := s[start..];
    if Contains(r, sep) {
      ContainsShift(s, sep, start, Find(r, sep).value);
      assert false;
    }
  }

  /** No proper prefix of `sep` is also a suffix of it, so two occurrences of
      `sep` never overlap. */
  predicate OverlapFree(sep: string) {
    forall k :: 0 < k < |sep| ==> !IsBorder(sep, k)
  }

  /** The last `|sep| - k` characters of `sep` equal its first ones. */
  predicate IsBorder(sep: string, k: nat)
    requires k <= |sep|
  {
    sep[k..] == sep[..|sep| - k]
  }

  /** Two occurrences of an overlap-free separator are at least its length apart. */
  lemma OccurrencesApart(s: string, sep: string, i: nat, j: nat)
    requires OverlapFree(sep)
    requires OccursAt(s, sep, i) && OccursAt(s, sep, j) && i < j
    ensures i + |sep| <= j
  {
    if j < i + |sep| {
      SharedBorder(s, sep, i, j);
    }
  }

  /** Overlapping occurrences at `i < j` make the overlap a border of `sep`. */
  lemma SharedBorder(s: string, sep: string, i: nat, j: nat)
    requires OccursAt(s, sep, i) && OccursAt(s, sep, j) && i < j < i + |sep|
    ensures IsBorder(sep, j - i)
  {
    assert sep[j - i..] == s[j..i + |sep|];
    assert sep[..|sep| - (j - i)] == s[j..i + |sep|];
  }

  /** For a separator whose occurrences cannot overlap, Python's last split
      piece is exactly the text after the last occurrence. */
  lemma LastPieceAfterLastOccurrence(s: string, sep: string, j: nat)
    requires |sep| > 0 && OverlapFree(sep)
    requires OccursAt(s, sep, j)
    requires forall j' :: j < j' ==> !OccursAt(s, sep, j')
    ensures LastPiece(s, sep) == s[j + |sep|..]
  {
    LastPieceFromLast(s, sep, 0, j);
  }

  lemma {:induction false} LastPieceFromLast(s: string, sep: string, start: nat, j: nat)
    requires |sep| > 0 && OverlapFree(sep)
    requires start <= j && OccursAt(s, sep, j)
    requires forall j' :: j < j' ==> !OccursAt(s, sep, j')
    ensures LastPieceFrom(s, sep, start) == s[j + |sep|..]
    decreases |s| - start
  {
    var i := FindFrom(s, sep, start).value;
    if i == j {
      LastPieceFromEnd(s, sep, start, j);
    } else {
      OccurrencesApart(s, sep, i, j);
      LastPieceFromLast(s, sep, i + |sep|, j);
    }
  }

  lemma LastPieceFromEnd(s: string, sep: string, start: nat, j: nat)
    requires |sep| > 0 && start <= j
    requires FindFrom(s, sep, start) == Some(j)
    requires forall j' :: j < j' ==> !OccursAt(s, sep, j')
    ensures LastPieceFrom(s, sep, start) == s[j + |sep|..]
  {
    assert FindFrom(s, sep, j + |sep|).None?;
  }

  // ---------------------------------------------------------------------- tokens

  /** A maximal run of non-separator characters. */
  predicate IsToken(t: string, isSep: char -> bool) {
    |t| > 0 && forall k :: 0 <= k < |t| ==> !isSep(t[k])
  }

  /** Length of the run of non-separator characters that starts `s`. */
  function RunLength(s: string, isSep: char -> bool): (n: nat)
    ensures n <= |s|
    ensures forall k :: 0 <= k < n ==> !isSep(s[k])
    ensures n == |s| || isSep(s[n])
  {
    if |s| == 0 || isSep(s[0]) then 0 else 1 + RunLength(s[1..], isSep)
  }

  /** `[p for p in re.split(SEP + '+', s) if p]`, and `s.split()` when the
      separator class is whitespace: the maximal runs of non-separators. */
  function Tokens(s: string, isSep: char -> bool): (ts: seq<string>)
    ensures forall k :: 0 <= k < |ts| ==> IsToken(ts[k], isSep)
    decreases |s|
  {
    if |s| == 0 then []
    else if isSep(s[0]) then Tokens(s[1..], isSep)
    else
      var n := RunLength(s, isSep);
      [s[..n]] + Tokens(s[n..], isSep)
  }

  /** `sep.join(ts)`. */
  function Join(ts: seq<string>, sep: string): string {
    if |ts| == 0 then []
    else if |ts| == 1 then ts[0]
    else ts[0] + sep + Join(ts[1..], sep)
  }

  lemma {:induction false} RunLengthOfToken(t: string, rest: string, isSep: char -> bool)
    requires IsToken(t, isSep)
    requires |rest| == 0 || isSep(rest[0])
    ensures RunLength(t + rest, isSep) == |t|
    decreases |t|
  {
    var s := t + rest;
    assert s[0] == t[0] && !isSep(s[0]);
    if |t| > 1 {
      assert s[1..] == t[1..] + rest;
      RunLengthOfToken(t[1..], rest, isSep);
    } else {
      assert s[1..] == rest;
    }
  }

  lemma TokensOfTokenThenRest(t: string, rest: string, isSep: char -> bool)
    requires IsToken(t, isSep)
    requires |rest| == 0 || isSep(rest[0])
    ensures Tokens(t + rest, isSep) == [t] + Tokens(rest, isSep)
  {
    RunLengthOfToken(t, rest, isSep);
    assert (t + rest)[..|t|] == t;
    assert (t + rest)[|t|..] == rest;
  }

  /** Splitting a space-joined list of tokens gives the tokens back. */
  lemma {:induction false} TokensOfJoin(ts: seq<string>, isSep: char -> bool)
    requires isSep(' ')
    requires forall k :: 0 <= k < |ts| ==> IsToken(ts[k], isSep)
    ensures Tokens(Join(ts, " "), isSep) == ts
  {
    if |ts| == 1 {
      TokensOfTokenThenRest(ts[0], [], isSep);
      assert ts[0] + [] == ts[0];
    } else if |ts| > 1 {
      var rest := " " + Join(ts[1..], " ");
      assert Join(ts, " ") == ts[0] + rest;
      TokensOfTokenThenRest(ts[0], rest, isSep);
      assert rest[1..] == Join(ts[1..], " ");
      TokensOfJoin(ts[1..], isSep);
      assert [ts[0]] + ts[1..] == ts;
    }
  }

  /** A non-separator in front of `y` starts a new token when `y` starts with
      a separator, and otherwise joins the first token of `y`. */
  lemma TokensCons(c: char, y: string, isSep: char -> bool)
    requires !isSep(c)
    ensures |y| == 0 || isSep(y[0]) ==> Tokens([c] + y, isSep) == [[c]] + Tokens(y, isSep)
    ensures |y| > 0 && !isSep(y[0]) ==>
              |Tokens(y, isSep)| > 0 && Tokens([c] + y, isSep) == [[c] + Tokens(y, isSep)[0]] + Tokens(y, isSep)[1..]
  {
    var s := [c] + y;
    assert s[0] == c && s[1..] == y;
    var n := RunLength(y, isSep);
    assert RunLength(s, isSep) == 1 + n;
    assert s[..1 + n] == [c] + y[..n];
    assert s[1 + n..] == y[n..];
  }

  /** Leading separators do not change the tokens. */
  lemma {:induction false} TokensSepPrefix(a: string, m: string, isSep: char -> bool)
    requires forall k :: 0 <= k < |a| ==> isSep(a[k])
    ensures Tokens(a + m, isSep) == Tokens(m, isSep)
    decreases |a|
  {
    if |a| > 0 {
      assert (a + m)[0] == a[0] && (a + m)[1..] == a[1..] + m;
      TokensSepPrefix(a[1..], m, isSep);
    } else {
      assert a + m == m;
    }
  }

  /** Trailing separators do not change the tokens. */
  lemma {:induction false} TokensSepSuffix(m: string, b: string, isSep: char -> bool)
    requires forall k :: 0 <= k < |b| ==> isSep(b[k])
    ensures Tokens(m + b, isSep) == Tokens(m, isSep)
    decreases |m|
  {
    if |m| == 0 {
      assert m + b == b + [];
      TokensSepPrefix(b, [], isSep);
    } else {
      var t := m[1..];
      assert m == [m[0]] + t && m + b == [m[0]] + (t + b);
      TokensSepSuffix(t, b, isSep);
      if isSep(m[0]) {
      } else {
        TokensCons(m[0], t + b, isSep);
        TokensCons(m[0], t, isSep);
        if |t| == 0 {
          assert t + b == b;
        } else {
          assert (t + b)[0] == t[0];
        }
      }
    }
  }

  /** Two strings have the same tokens when they agree on where the
      separators are and on every character outside them. */
  lemma {:induction false} TokensCongruent(a: string, b: string, sa: char -> bool, sb: char -> bool)
    requires |a| == |b|
    requires forall k :: 0 <= k < |a| ==> (sa(a[k]) <==> sb(b[k]))
    requires forall k :: 0 <= k < |a| && !sb(b[k]) ==> a[k] == b[k]
    ensures Tokens(a, sa) == Tokens(b, sb)
    decreases |a|
  {
    if |a| > 0 {
      var ta, tb := a[1..], b[1..];
      TokensCongruent(ta, tb, sa, sb);
      if !sa(a[0]) {
        assert a == [a[0]] + ta && b == [b[0]] + tb && a[0] == b[0];
        TokensCons(a[0], ta, sa);
        TokensCons(b[0], tb, sb);
        if |ta| > 0 {
          assert sa(ta[0]) <==> sb(tb[0]);
        }
      }
    }
  }

  /** Stripping whitespace keeps the tokens when whitespace separates. */
  lemma TokensStrip(s: string, isSep: char -> bool)
    requires forall c :: IsSpace(c) ==> isSep(c)
    ensures Tokens(Strip(s), isSep) == Tokens(s, isSep)
  {
    StripIsInfix(s);
    var a := SkipSpaces(s, 0);
    var e := SkipSpacesBack(s, a, |s|);
    var front, mid, back := s[..a], s[a..e], s[e..];
    assert s == front + (mid + back);
    assert forall k :: 0 <= k < |front| ==> isSep(front[k]) by {
      forall k | 0 <= k < |front| ensures isSep(front[k]) { assert IsSpace(s[k]); }
    }
    assert forall k :: 0 <= k < |back| ==> isSep(back[k]) by {
      forall k | 0 <= k < |back| ensures isSep(back[k]) { assert IsSpace(s[e + k]); }
    }
    TokensSepPrefix(front, mid + back, isSep);
    TokensSepSuffix(mid, back, isSep);
  }

  // ------------------------------------------------------------------ whitespace

  /** Every whitespace character is a plain space, and no two spaces are adjacent. */
  predicate SingleSpaced(s: string) {
    forall k :: 0 <= k < |s| && IsSpace(s[k]) ==> s[k] == ' ' && (k + 1 < |s| ==> s[k + 1] != ' ')
  }

  /** The shape `re.sub(r'\s+', ' ', s).strip()` leaves: single plain spaces
      between non-space characters only. */
  predicate CanonicalSpacing(s: string) {
    SingleSpaced(s) && Trimmed(s)
  }

  /** `re.sub(r'\s+', ' ', s)`: every maximal whitespace run becomes one space. */
  function CollapseSpaces(s: string): (r: string)
    ensures SingleSpaced(r)
    ensures |r| == 0 <==> |s| == 0
    ensures |s| > 0 ==> (r[0] == ' ' <==> IsSpace(s[0]))
    decreases |s|
  {
    if |s| == 0 then []
    else if IsSpace(s[0]) then [' '] + CollapseSpaces(TrimStart(s[1..]))
    else [s[0]] + CollapseSpaces(s[1..])
  }

  lemma {:induction false} CollapseKeeps(s: string, p: char -> bool)
    requires p(' ') && All(s, p)
    ensures All(CollapseSpaces(s), p)
    decreases |s|
  {
    if |s| > 0 {
      if IsSpace(s[0]) {
        var t := TrimStart(s[1..]);
        assert All(t, p) by {
          forall k | 0 <= k < |t| ensures p(t[k]) {
            assert t[k] == s[1..][|s| - 1 - |t| + k];
          }
        }
        CollapseKeeps(t, p);
      } else {
        CollapseKeeps(s[1..], p);
      }
    }
  }

  lemma StripKeeps(s: string, p: char -> bool)
    requires All(s, p)
    ensures All(Strip(s), p)
  {
  }

  /** Stripping a single-spaced string leaves it in canonical spacing. */
  lemma StripSingleSpaced(s: string)
    requires SingleSpaced(s)
    ensures CanonicalSpacing(Strip(s))
  {
    var t := TrimStart(s);
    assert SingleSpaced(t) by {
      forall k | 0 <= k < |t| && IsSpace(t[k])
        ensures t[k] == ' ' && (k + 1 < |t| ==> t[k + 1] != ' ')
      {
        assert t[k] == s[|s| - |t| + k];
      }
    }
  }

  /** A canonically spaced string is left alone by collapsing and stripping. */
  lemma {:induction false} CollapseCanonical(s: string)
    requires SingleSpaced(s)
    requires |s| == 0 || !IsSpace(s[0])
    ensures CollapseSpaces(s) == s
    decreases |s|
  {
    if |s| > 0 {
      var t := s[1..];
      SingleSpacedTail(s);
      if |t| > 0 && IsSpace(t[0]) {
        var u := t[1..];
        SingleSpacedTail(t);
        CollapseCanonical(u);
        CollapseSpaceStep(t);
        assert t == [' '] + u;
      } else {
        CollapseCanonical(t);
      }
      CollapseKeepStep(s);
    }
  }

  lemma SingleSpacedTail(s: string)
    requires |s| > 0 && SingleSpaced(s)
    ensures SingleSpaced(s[1..])
    ensures IsSpace(s[0]) ==> s[0] == ' ' && (|s| == 1 || !IsSpace(s[1]))
  {
    if IsSpace(s[0]) && |s| > 1 {
      assert s[1] != ' ';
    }
  }

  /** A single space followed by a non-space stays as it is. */
  lemma CollapseSpaceStep(t: string)
    requires |t| > 0 && t[0] == ' ' && (|t| == 1 || !IsSpace(t[1]))
    ensures CollapseSpaces(t) == [' '] + CollapseSpaces(t[1..])
  {
    var u := t[1..];
    assert |u| == 0 || !IsSpace(u[0]);
    assert SkipSpaces(u, 0) == 0;
    assert TrimStart(u) == u;
  }

  /** A leading non-space character is kept. */
  lemma CollapseKeepStep(s: string)
    requires |s| > 0 && !IsSpace(s[0])
    ensures CollapseSpaces(s) == [s[0]] + CollapseSpaces(s[1..])
  {
  }

  /** Collapsing whitespace runs keeps the whitespace-separated tokens. */
  lemma {:induction false} TokensCollapse(s: string)
    ensures Tokens(CollapseSpaces(s), IsSpace) == Tokens(s, IsSpace)
    decreases |s|
  {
    if |s| > 0 {
      var t := s[1..];
      if IsSpace(s[0]) {
        var u := TrimStart(t);
        TokensCollapse(u);
        TokensCollapseSpace(s, u);
      } else {
        TokensCollapse(t);
        TokensCollapseKeep(s);
      }
    }
  }

  /** A leading whitespace run becomes one space, which separates as the
      run did. */
  lemma TokensCollapseSpace(s: string, u: string)
    requires |s| > 0 && IsSpace(s[0]) && u == TrimStart(s[1..])
    requires Tokens(CollapseSpaces(u), IsSpace) == Tokens(u, IsSpace)
    ensures Tokens(CollapseSpaces(s), IsSpace) == Tokens(s, IsSpace)
  {
    var c := CollapseSpaces(u);
    assert CollapseSpaces(s) == [' '] + c;
    TokensSepPrefix([' '], c, IsSpace);
    TokensTrimStart(s[1..]);
  }

  /** Leading whitespace does not change the whitespace-separated tokens. */
  lemma TokensTrimStart(t: string)
    ensures Tokens(TrimStart(t), IsSpace) == Tokens(t, IsSpace)
  {
    var u := TrimStart(t);
    var w := t[..|t| - |u|];
    assert t == w + u;
    assert forall k :: 0 <= k < |w| ==> IsSpace(w[k]);
    TokensSepPrefix(w, u, IsSpace);
  }

  /** A leading non-space is kept and joins the same token either way. */
  lemma TokensCollapseKeep(s: string)
    requires |s| > 0 && !IsSpace(s[0])
    requires Tokens(CollapseSpaces(s[1..]), IsSpace) == Tokens(s[1..], IsSpace)
    ensures Tokens(CollapseSpaces(s), IsSpace) == Tokens(s, IsSpace)
  {
    var t := s[1..];
    var r := CollapseSpaces(t);
    assert s == [s[0]] + t;
    CollapseKeepStep(s);
    TokensCons(s[0], t, IsSpace);
    TokensCons(s[0], r, IsSpace);
    if |t| > 0 {
      assert IsSpace(r[0]) <==> IsSpace(t[0]);
    }
  }

  /** Collapsing keeps whether the text ends in whitespace. */
  lemma {:induction false} CollapseLast(s: string)
    requires |s| > 0
    ensures var r := CollapseSpaces(s); r[|r| - 1] == ' ' <==> IsSpace(s[|s| - 1])
    decreases |s|
  {
    var r := CollapseSpaces(s);
    var t := s[1..];
    if IsSpace(s[0]) {
      var u := TrimStart(t);
      if |u| > 0 {
        CollapseLast(u);
        assert u[|u| - 1] == s[|s| - 1];
      } else if |t| > 0 {
        assert IsSpace(t[|t| - 1]);
      }
    } else if |t| > 0 {
      CollapseLast(t);
    }
  }
}
