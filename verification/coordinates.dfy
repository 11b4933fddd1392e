/**
 * The Coordinates column of the UN/LOCODE code list, `DDMMH DDDMMH`
 * (degrees, minutes, hemisphere letter), read into signed decimal degrees
 * the way the dataset builder's `parse_coordinates` does.  Degrees are exact
 * `real`s here.
 */
module Coordinates {
  import opened Wrappers
  import opened Text

  // -------------------------------------------------------------------- numbers

  function DigitValue(c: char): nat
    requires IsDigit(c)
  {
    c as int - '0' as int
  }

  /** A non-empty field of ASCII digits. */
  predicate IsNumeral(f: string) {
    |f| > 0 && All(f, IsDigit)
  }

  /** The value of a string of decimal digits. */
  function Number(f: string): nat
    requires All(f, IsDigit)
  {
    if |f| == 0 then 0 else Number(f[..|f| - 1]) * 10 + DigitValue(f[|f| - 1])
  }

  /** Digits, with single underscores allowed between two digits: the body
      of a decimal literal that `int` accepts. */
  predicate IsDigitGroup(d: string)
    decreases |d|
  {
    && |d| > 0 && IsDigit(d[0])
    && (|d| == 1 || if d[1] == '_' then IsDigitGroup(d[2..]) else IsDigitGroup(d[1..]))
  }

  lemma {:induction false} NumeralIsDigitGroup(f: string)
    requires IsNumeral(f)
    ensures IsDigitGroup(f)
    decreases |f|
  {
    if |f| > 1 {
      NumeralIsDigitGroup(f[1..]);
    }
  }

  /** The digits of `d`, underscores dropped. */
  function DigitsOnly(d: string): (r: string)
    ensures All(r, IsDigit) && |r| <= |d|
  {
    if |d| == 0 then [] else (if IsDigit(d[0]) then [d[0]] else []) + DigitsOnly(d[1..])
  }

  lemma {:induction false} DigitsOnlyOfNumeral(d: string)
    requires All(d, IsDigit)
    ensures DigitsOnly(d) == d
  {
    if |d| > 0 {
      DigitsOnlyOfNumeral(d[1..]);
      assert d == [d[0]] + d[1..];
    }
  }

  predicate IsSign(c: char) { c == '+' || c == '-' }

  /** What `int(t)` accepts once surrounding whitespace is gone: an optional
      sign, then a digit group. */
  predicate IsIntLiteral(t: string) {
    if |t| > 0 && IsSign(t[0]) then IsDigitGroup(t[1..]) else IsDigitGroup(t)
  }

  /** `int(f)`: whitespace around the literal is ignored; None where Python
      would raise. */
  function PyInt(f: string): (r: Option<int>)
    ensures r.Some? <==> IsIntLiteral(Strip(f))
  {
    if Trimmed(f) then IntLiteralValue(f) else IntLiteralValue(Strip(f))
  }

  /** The value of an int literal with no surrounding whitespace. */
  function IntLiteralValue(t: string): (r: Option<int>)
    ensures r.Some? <==> IsIntLiteral(t)
  {
    if !IsIntLiteral(t) then None
    else if IsSign(t[0]) then
      var n: int := Number(DigitsOnly(t[1..]));
      Some(if t[0] == '-' then -n else n)
    else Some(Number(DigitsOnly(t)))
  }

  /** On a plain numeral `int` is the digits' value. */
  lemma PyIntOfNumeral(f: string)
    requires IsNumeral(f)
    ensures PyInt(f) == Some(Number(f))
  {
    assert Trimmed(f) by { assert !IsSpace(f[0]) && !IsSpace(f[|f| - 1]); }
    NumeralIsDigitGroup(f);
    DigitsOnlyOfNumeral(f);
  }

  /** Python's `s[a:b]` for `0 <= a <= b`: out-of-range ends are clipped. */
  function PySlice(s: string, a: nat, b: nat): (r: string)
    requires a <= b
    ensures b <= |s| ==> r == s[a..b]
  {
    if b <= |s| then s[a..b] else if a <= |s| then s[a..] else []
  }

  // ------------------------------------------------------------------ one half

  /** Width of the degrees field: two digits for latitude, three for longitude. */
  function DegreeWidth(isLat: bool): nat {
    if isLat then 2 else 3
  }

  /** The hemisphere letter that makes the value negative. */
  function NegativeHemisphere(isLat: bool): char {
    if isLat then 'S' else 'W'
  }

  /** Degrees plus minutes as decimal degrees. */
  function Decimal(degrees: int, minutes: int): real {
    degrees as real + minutes as real / 60.0
  }

  /** The inner `convert(raw, is_lat)`: degrees from the first two (three)
      characters, minutes from the next two, the hemisphere letter after
      them; any failure of `int` or a missing hemisphere gives None. */
  function Convert(raw: string, isLat: bool): (r: Option<real>)
    ensures var w := DegreeWidth(isLat);
      r.Some? <==> |raw| > w + 2 && IsIntLiteral(Strip(raw[..w])) && IsIntLiteral(Strip(raw[w..w + 2]))
  {
    var w := DegreeWidth(isLat);
    var degrees := PyInt(PySlice(raw, 0, w));
    var minutes := PyInt(PySlice(raw, w, w + 2));
    if degrees.None? || minutes.None? || |raw| <= w + 2 then None
    else
      var value := Decimal(degrees.value, minutes.value);
      Some(if raw[w + 2] == NegativeHemisphere(isLat) then -value else value)
  }

  /** `convert` once both fields are known to be read by `int`. */
  lemma ConvertFields(raw: string, isLat: bool, degrees: int, minutes: int)
    requires var w := DegreeWidth(isLat);
      |raw| > w + 2 && PyInt(raw[..w]) == Some(degrees) && PyInt(raw[w..w + 2]) == Some(minutes)
    ensures Convert(raw, isLat)
         == Some(if raw[DegreeWidth(isLat) + 2] == NegativeHemisphere(isLat)
                 then -Decimal(degrees, minutes) else Decimal(degrees, minutes))
  {
  }

  /** On digit fields the sign is negative only for 'S' (latitude) or 'W'
      (longitude); every other hemisphere character, 'N' and 'E' included,
      gives a value >= 0, and the magnitude is degrees + minutes / 60. */
  lemma ConvertSign(raw: string, isLat: bool)
    requires var w := DegreeWidth(isLat);
      |raw| > w + 2 && IsNumeral(raw[..w]) && IsNumeral(raw[w..w + 2])
    ensures var w := DegreeWidth(isLat);
      var m := Decimal(Number(raw[..w]), Number(raw[w..w + 2]));
      && m >= 0.0
      && Convert(raw, isLat) == Some(if raw[w + 2] == NegativeHemisphere(isLat) then -m else m)
  {
    var w := DegreeWidth(isLat);
    PyIntOfNumeral(raw[..w]);
    PyIntOfNumeral(raw[w..w + 2]);
    ConvertFields(raw, isLat, Number(raw[..w]), Number(raw[w..w + 2]));
  }

  /** `int` also reads a signed field, so a north latitude can come out
      negative: "-430N" is read as -4 degrees plus 30 minutes. */
  lemma SignedDegrees()
    ensures Convert("-430N", true) == Some(-3.5)
  {
    assert "-430N"[..2] == "-4" && "-430N"[2..4] == "30";
    MinusFour();
    PyIntOfNumeral("30");
    assert Number("30") == 30;
    ConvertFields("-430N", true, -4, 30);
  }

  lemma MinusFour()
    ensures PyInt("-4") == Some(-4)
  {
    assert Trimmed("-4");
    assert "-4"[1..] == "4";
    DigitsOnlyOfNumeral("4");
    assert Number("4") == 4;
  }

  /** Characters after the hemisphere letter are ignored. */
  lemma ConvertReadsFixedWidth(raw: string, isLat: bool)
    requires |raw| > DegreeWidth(isLat) + 2
    ensures Convert(raw, isLat) == Convert(raw[..DegreeWidth(isLat) + 3], isLat)
  {
    var w := DegreeWidth(isLat);
    assert raw[..w + 3][..w] == raw[..w];
    assert raw[..w + 3][w..w + 2] == raw[w..w + 2];
  }

  // ------------------------------------------------------------------- encoding

  function Pow10(n: nat): nat {
    if n == 0 then 1 else 10 * Pow10(n - 1)
  }

  function DigitChar(d: nat): (c: char)
    requires d < 10
    ensures IsDigit(c) && DigitValue(c) == d
  {
    ('0' as int + d) as char
  }

  /** The low `width` decimal digits of `n`, leading zeros included. */
  function Digits(n: nat, width: nat): (r: string)
    ensures |r| == width && All(r, IsDigit)
  {
    if width == 0 then [] else Digits(n / 10, width - 1) + [DigitChar(n % 10)]
  }

  lemma {:induction false} NumberOfDigits(n: nat, width: nat)
    requires n < Pow10(width)
    ensures Number(Digits(n, width)) == n
  {
    if width > 0 {
      var d := Digits(n, width);
      assert d[..width - 1] == Digits(n / 10, width - 1);
      NumberOfDigits(n / 10, width - 1);
    }
  }

  /** One half of a Coordinates cell: `DDMMH` for latitude, `DDDMMH` for longitude. */
  function EncodeHalf(degrees: nat, minutes: nat, hemisphere: char, isLat: bool): (raw: string)
    ensures |raw| == DegreeWidth(isLat) + 3
  {
    Digits(degrees, DegreeWidth(isLat)) + Digits(minutes, 2) + [hemisphere]
  }

  /** Reading back an encoded half gives degrees + minutes / 60, negated
      exactly for the negative hemisphere letter. */
  lemma ConvertEncodeHalf(degrees: nat, minutes: nat, hemisphere: char, isLat: bool)
    requires degrees < (if isLat then 100 else 1000) && minutes < 100
    ensures Convert(EncodeHalf(degrees, minutes, hemisphere, isLat), isLat)
         == Some(if hemisphere == NegativeHemisphere(isLat)
                 then -Decimal(degrees, minutes) else Decimal(degrees, minutes))
  {
    var w := DegreeWidth(isLat);
    var raw := EncodeHalf(degrees, minutes, hemisphere, isLat);
    assert Pow10(2) == 100 && Pow10(3) == 1000;
    assert raw[..w] == Digits(degrees, w);
    assert raw[w..w + 2] == Digits(minutes, 2);
    NumberOfDigits(degrees, w);
    NumberOfDigits(minutes, 2);
    PyIntOfNumeral(raw[..w]);
    PyIntOfNumeral(raw[w..w + 2]);
    ConvertFields(raw, isLat, degrees, minutes);
  }

  // ------------------------------------------------------------------- the cell

  /** `parse_coordinates(coord)`: (None, None) for a blank cell or one that does
      not split into exactly two whitespace-separated parts; otherwise each
      part is converted on its own. */
  function ParseCoordinates(coord: string): (r: (Option<real>, Option<real>))
    ensures Strip(coord) == [] ==> r == (None, None)
    ensures |Tokens(Strip(coord), IsSpace)| != 2 ==> r == (None, None)
    ensures |Tokens(Strip(coord), IsSpace)| == 2 ==>
              r.0 == Convert(Tokens(Strip(coord), IsSpace)[0], true)
              && r.1 == Convert(Tokens(Strip(coord), IsSpace)[1], false)
  {
    if Strip(coord) == [] then (None, None)
    else
      var parts := Tokens(Strip(coord), IsSpace);
      if |parts| != 2 then (None, None)
      else (Convert(parts[0], true), Convert(parts[1], false))
  }

  /** The two halves are read independently: a malformed half spoils only its
      own value. */
  lemma ParseHalvesIndependently(a: string, b: string)
    requires IsToken(a, IsSpace) && IsToken(b, IsSpace)
    ensures ParseCoordinates(a + " " + b) == (Convert(a, true), Convert(b, false))
  {
    var s := a + " " + b;
    assert Join([a, b], " ") == s;
    TokensOfJoin([a, b], IsSpace);
    assert Trimmed(s);
  }

  /** Writing a position as a Coordinates cell and parsing it gives it back. */
  lemma ParseEncodedCoordinates(latDeg: nat, latMin: nat, north: bool,
                                lonDeg: nat, lonMin: nat, east: bool)
    requires latDeg < 100 && latMin < 100 && lonDeg < 1000 && lonMin < 100
    ensures var cell := EncodeHalf(latDeg, latMin, if north then 'N' else 'S', true) + " "
                      + EncodeHalf(lonDeg, lonMin, if east then 'E' else 'W', false);
      ParseCoordinates(cell)
        == (Some(if north then Decimal(latDeg, latMin) else -Decimal(latDeg, latMin)),
            Some(if east then Decimal(lonDeg, lonMin) else -Decimal(lonDeg, lonMin)))
  {
    var a := EncodeHalf(latDeg, latMin, if north then 'N' else 'S', true);
    var b := EncodeHalf(lonDeg, lonMin, if east then 'E' else 'W', false);
    ParseHalvesIndependently(a, b);
    ConvertEncodeHalf(latDeg, latMin, if north then 'N' else 'S', true);
    ConvertEncodeHalf(lonDeg, lonMin, if east then 'E' else 'W', false);
  }

  /** The schema example: "4230N 00131E" is latitude 42.5 and longitude
      1 + 31/60 (about 1.5167). */
  lemma WorkedExample()
    ensures ParseCoordinates("4230N 00131E") == (Some(42.5), Some(1.0 + 31.0 / 60.0))
  {
    var a, b := "4230N", "00131E";
    ExampleHalves();
    ParseHalvesIndependently(a, b);
    LatitudeExample();
    LongitudeExample();
  }

  lemma ExampleHalves()
    ensures IsToken("4230N", IsSpace) && IsToken("00131E", IsSpace)
    ensures "4230N" + " " + "00131E" == "4230N 00131E"
  {
  }

  lemma LatitudeExample()
    ensures Convert("4230N", true) == Some(42.5)
  {
    assert "4230N"[..2] == "42" && "4230N"[2..4] == "30";
    assert Number("42") == 42 && Number("30") == 30;
    PyIntOfNumeral("42");
    PyIntOfNumeral("30");
    ConvertFields("4230N", true, 42, 30);
  }

  lemma LongitudeExample()
    ensures Convert("00131E", false) == Some(1.0 + 31.0 / 60.0)
  {
    assert "00131E"[..3] == "001" && "00131E"[3..5] == "31";
    LongitudeFields();
    ConvertFields("00131E", false, 1, 31);
  }

  lemma LongitudeFields()
    ensures PyInt("001") == Some(1) && PyInt("31") == Some(31)
  {
    assert "001"[..2] == "00" && "00"[..1] == "0" && "31"[..1] == "3";
    assert Number("001") == 1 && Number("31") == 31;
    PyIntOfNumeral("001");
    PyIntOfNumeral("31");
  }
}
