/**
 * The CSS `object-position` codec: `{x, y}` percentages to and from strings such as
 * "33.30% 50%". The editor's encoder pads a lone fraction digit with a zero; the
 * ImageContainer copies do not. Both copies of the parser are the same.
 */
module ObjectPosition {
  import opened Wrappers
  import opened JsNumber
  import opened JsString
  import opened Helpers

  /**
   * `roundWithTwoDecimals(clamp(n, 0, 100))` counted in hundredths of a percent, in [0, 10000];
   * None when `n` is NaN.
   */
  function CoordinateHundredths(n: Number): (h: Option<nat>)
    ensures h.None? <==> n == NaN
    ensures h.Some? ==> h.value <= 10000
  {
    var clamped := ClampNumber(n, 0.0, 100.0);
    if clamped.Finite? then Some(RoundHundredths(clamped.v)) else None
  }

  /** The number the encoder writes for `n`: clamped to [0, 100] and rounded to hundredths. */
  function Canonical(n: Number): (r: Number)
    ensures r == NaN <==> n == NaN
    ensures r != NaN ==> r.Finite? && 0.0 <= r.v <= 100.0
  {
    match CoordinateHundredths(n)
    case Some(h) => Finite(h as real / 100.0)
    case None => NaN
  }

  lemma CanonicalIsClampedRounded(v: real)
    ensures Canonical(Finite(v)) == Finite(RoundWithTwoDecimals(Clamp(v, 0.0, 100.0)))
  {
  }

  /** `String(h / 100)`: no trailing zeros in the fraction, no decimal point for whole numbers. */
  function Unpadded(h: nat): string {
    var whole := NatToString(h / 100);
    var fraction := h % 100;
    if fraction == 0 then whole
    else if fraction % 10 == 0 then whole + "." + [DigitChar(fraction / 10)]
    else whole + "." + [DigitChar(fraction / 10), DigitChar(fraction % 10)]
  }

  /** `.replace(/(\.\d)$/, "$10")`: a string ending in a point and one digit gets a trailing "0". */
  function PadOneFractionDigit(s: string): string {
    if |s| >= 2 && s[|s| - 2] == '.' && IsDigit(s[|s| - 1]) then s + "0" else s
  }

  function Padded(h: nat): string {
    PadOneFractionDigit(Unpadded(h))
  }

  /** The fraction digits of a whole number of hundredths: none, or always two. */
  function TwoFractionDigits(h: nat): string {
    [DigitChar((h % 100) / 10), DigitChar(h % 10)]
  }

  /** The padded token is the integer part, then, unless it is whole, a point and exactly two digits. */
  lemma PaddedFormat(h: nat)
    ensures Padded(h) == if h % 100 == 0 then NatToString(h / 100)
                         else NatToString(h / 100) + "." + TwoFractionDigits(h)
  {
    var whole := NatToString(h / 100);
    var fraction := h % 100;
    assert (fraction / 10) == (h % 100) / 10;
    if fraction == 0 {
      assert IsDigit(whole[|whole| - 1]);
      if |whole| >= 2 {
        assert IsDigit(whole[|whole| - 2]);
      }
    } else if fraction % 10 == 0 {
      assert h % 10 == 0;
      var u := whole + "." + [DigitChar(fraction / 10)];
      assert u[|u| - 2] == '.';
      assert u + "0" == whole + "." + TwoFractionDigits(h);
    } else {
      assert h % 10 == fraction % 10;
      var u := whole + "." + [DigitChar(fraction / 10), DigitChar(fraction % 10)];
      assert IsDigit(u[|u| - 2]);
    }
  }

  /** The unpadded token differs from the padded one exactly when one fraction digit is printed. */
  lemma PaddingIsTheOnlyDifference(h: nat)
    ensures h % 100 != 0 && h % 10 == 0 ==> Padded(h) == Unpadded(h) + "0"
    ensures h % 100 == 0 || h % 10 != 0 ==> Padded(h) == Unpadded(h)
  {
    PaddedFormat(h);
    assert h % 10 == (h % 100) % 10;
  }

  lemma OneDigitValue(d: nat)
    requires d < 10
    ensures DigitsValue([DigitChar(d)]) == d
  {
    assert [DigitChar(d)][..0] == [];
  }

  lemma TwoDigitsValue(d1: nat, d2: nat)
    requires d1 < 10 && d2 < 10
    ensures DigitsValue([DigitChar(d1), DigitChar(d2)]) == 10 * d1 + d2
  {
    assert [DigitChar(d1), DigitChar(d2)][..1] == [DigitChar(d1)];
    OneDigitValue(d1);
  }

  /** The value of a numeral for `q` whole units and `f` hundredths, `f` printed on two digits. */
  lemma TwoDigitNumeralValue(q: nat, d1: nat, d2: nat)
    requires d1 < 10 && d2 < 10
    ensures ToNumber(NatToString(q) + "." + [DigitChar(d1), DigitChar(d2)])
         == Finite((100 * q + 10 * d1 + d2) as real / 100.0)
  {
    NatToStringValue(q);
    NumeralValue(NatToString(q), [DigitChar(d1), DigitChar(d2)]);
    TwoDigitsValue(d1, d2);
    assert Pow10(2) == 100;
  }

  lemma OneDigitNumeralValue(q: nat, d1: nat)
    requires d1 < 10
    ensures ToNumber(NatToString(q) + "." + [DigitChar(d1)]) == Finite((100 * q + 10 * d1) as real / 100.0)
  {
    NatToStringValue(q);
    NumeralValue(NatToString(q), [DigitChar(d1)]);
    OneDigitValue(d1);
    assert Pow10(1) == 10;
  }

  lemma WholeNumeralValue(q: nat)
    ensures ToNumber(NatToString(q)) == Finite((100 * q) as real / 100.0)
  {
    NatToStringValue(q);
    NumeralValue(NatToString(q), "");
  }

  /** The JS number the unpadded token denotes is the value it was printed from. */
  lemma UnpaddedValue(h: nat)
    ensures ToNumber(Unpadded(h)) == Finite(h as real / 100.0)
  {
    var q, f := h / 100, h % 100;
    assert h == 100 * q + f;
    if f == 0 {
      WholeNumeralValue(q);
    } else if f % 10 == 0 {
      assert f == 10 * (f / 10);
      OneDigitNumeralValue(q, f / 10);
    } else {
      assert f == 10 * (f / 10) + f % 10;
      TwoDigitNumeralValue(q, f / 10, f % 10);
    }
  }

  /** The JS number the padded token denotes is the value it was printed from. */
  lemma PaddedValue(h: nat)
    ensures ToNumber(Padded(h)) == Finite(h as real / 100.0)
  {
    PaddedFormat(h);
    var q, f := h / 100, h % 100;
    if f == 0 {
      UnpaddedValue(h);
    } else {
      assert h == 100 * q + 10 * (f / 10) + h % 10;
      TwoDigitNumeralValue(q, f / 10, h % 10);
    }
  }

  /** The token `String(...)` prints for a coordinate: "NaN" or the unpadded decimal. */
  function UnpaddedToken(n: Number): string {
    match CoordinateHundredths(n)
    case Some(h) => Unpadded(h)
    case None => "NaN"
  }

  /** The FocusPointEditor token: the printed number with a lone fraction digit padded. */
  function PaddedToken(n: Number): string {
    PadOneFractionDigit(UnpaddedToken(n))
  }

  /** `cssObjectPositionObjectToString` of FocusPointEditor/helpers. */
  function ObjectToString(x: Number, y: Number): (s: string)
    ensures ' ' in s && s[|s| - 1] == '%'
  {
    var s := PaddedToken(x) + "% " + PaddedToken(y) + "%";
    assert s[|PaddedToken(x)| + 1] == ' ';
    s
  }

  /** `cssObjectPositionObjectToString` of ImageContainer/helpers and Image/ImageContainer/helpers. */
  function UnpaddedObjectToString(x: Number, y: Number): (s: string)
    ensures ' ' in s && s[|s| - 1] == '%'
  {
    var s := UnpaddedToken(x) + "% " + UnpaddedToken(y) + "%";
    assert s[|UnpaddedToken(x)| + 1] == ' ';
    s
  }

  /** The outcome of `cssObjectPositionStringToObject`: the two numbers, or the TypeError thrown on a missing second piece. */
  datatype Parsed = Parsed(x: Number, y: Number) | TypeError

  /** `cssObjectPositionStringToObject` (all three copies): split on " ", drop the first "%" of each piece, `Number` the rest. */
  function StringToObject(s: string): (r: Parsed)
    ensures r.TypeError? <==> ' ' !in s
  {
    var pieces := Split(s, ' ');
    SplitCount(s, ' ');
    if |pieces| < 2 then TypeError
    else Parsed(ToNumber(ReplaceFirst(pieces[0], '%', "")), ToNumber(ReplaceFirst(pieces[1], '%', "")))
  }

  /** Pieces after the second are ignored. */
  lemma ExtraPiecesIgnored(a: string, b: string, rest: string)
    requires ' ' !in a && ' ' !in b
    ensures StringToObject(a + " " + b + " " + rest) == StringToObject(a + " " + b)
  {
    SplitAfter(a, b + " " + rest, ' ');
    assert a + " " + b + " " + rest == a + [' '] + (b + " " + rest);
    assert b + " " + rest == b + [' '] + rest;
    SplitAfter(b, rest, ' ');
    SplitAfter(a, b, ' ');
    SplitFree(b, ' ');
    assert a + " " + b == a + [' '] + b;
  }

  /** The printed number holds only digits and a point. */
  lemma UnpaddedFree(h: nat)
    ensures ' ' !in Unpadded(h) && '%' !in Unpadded(h)
  {
    var w := NatToString(h / 100);
    assert forall i :: 0 <= i < |w| ==> IsDigit(w[i]);
    assert ' ' !in w && '%' !in w;
  }

  /** Padding adds only a "0". */
  lemma PadKeepsFree(s: string, c: char)
    requires c != '0' && c !in s
    ensures c !in PadOneFractionDigit(s)
  {
  }

  /** Tokens contain neither a space nor a "%". */
  lemma TokenCharacters(n: Number)
    ensures ' ' !in UnpaddedToken(n) && '%' !in UnpaddedToken(n)
    ensures ' ' !in PaddedToken(n) && '%' !in PaddedToken(n)
  {
    match CoordinateHundredths(n)
    case None =>
    case Some(h) =>
      UnpaddedFree(h);
      PadKeepsFree(Unpadded(h), ' ');
      PadKeepsFree(Unpadded(h), '%');
  }

  lemma TokenNumber(n: Number)
    ensures ToNumber(UnpaddedToken(n)) == Canonical(n)
    ensures ToNumber(PaddedToken(n)) == Canonical(n)
  {
    match CoordinateHundredths(n)
    case None =>
      assert ToNumber("NaN") == NaN by {
        assert UnsignedToNumber("NaN") == NaN by {
          var i := IndexOf("NaN", '.');
          assert !IsDigit("NaN"[0]);
          assert i == 3;
        }
      }
      assert PadOneFractionDigit("NaN") == "NaN";
    case Some(h) =>
      UnpaddedValue(h);
      PaddedValue(h);
  }

  /** Parsing "A% B%" built from two tokens gives back their numbers. */
  lemma ParseTokens(a: string, b: string)
    requires ' ' !in a && '%' !in a && ' ' !in b && '%' !in b
    ensures StringToObject(a + "% " + b + "%") == Parsed(ToNumber(a), ToNumber(b))
  {
    var s := a + "% " + b + "%";
    assert s == (a + "%") + [' '] + (b + "%");
    SplitAfter(a + "%", b + "%", ' ');
    SplitFree(b + "%", ' ');
    ReplaceFirstAtEnd(a, '%');
    ReplaceFirstAtEnd(b, '%');
  }

  /** Round trip of the padded encoder: parsing its output gives the clamped, rounded coordinates. */
  lemma RoundTrip(x: Number, y: Number)
    ensures StringToObject(ObjectToString(x, y)) == Parsed(Canonical(x), Canonical(y))
  {
    TokenCharacters(x);
    TokenCharacters(y);
    TokenNumber(x);
    TokenNumber(y);
    ParseTokens(PaddedToken(x), PaddedToken(y));
  }

  /** Round trip of the unpadded encoder with the same parser. */
  lemma UnpaddedRoundTrip(x: Number, y: Number)
    ensures StringToObject(UnpaddedObjectToString(x, y)) == Parsed(Canonical(x), Canonical(y))
  {
    TokenCharacters(x);
    TokenCharacters(y);
    TokenNumber(x);
    TokenNumber(y);
    ParseTokens(UnpaddedToken(x), UnpaddedToken(y));
  }

  lemma CanonicalHundredths(n: Number)
    ensures CoordinateHundredths(Canonical(n)) == CoordinateHundredths(n)
  {
    match CoordinateHundredths(n)
    case None =>
    case Some(h) =>
      RoundKeepsHundredths(h);
  }

  /** The encoder never reverses the order of two finite coordinates. */
  lemma CanonicalMonotone(a: real, b: real)
    requires a <= b
    ensures Canonical(Finite(a)).Finite? && Canonical(Finite(b)).Finite?
    ensures Canonical(Finite(a)).v <= Canonical(Finite(b)).v
  {
    RoundMonotone(Clamp(a, 0.0, 100.0), Clamp(b, 0.0, 100.0));
  }

  /** Re-encoding decoded output changes nothing: the encoders are idempotent through the parser. */
  lemma EncodeCanonical(x: Number, y: Number)
    ensures ObjectToString(Canonical(x), Canonical(y)) == ObjectToString(x, y)
    ensures UnpaddedObjectToString(Canonical(x), Canonical(y)) == UnpaddedObjectToString(x, y)
  {
    CanonicalHundredths(x);
    CanonicalHundredths(y);
  }

  /**
   * Every coordinate token of the padded encoder is "NaN", a whole number with no point, or a
   * number with exactly two fraction digits; it never has a minus sign.
   */
  lemma PaddedTokenShape(n: Number)
    ensures '-' !in PaddedToken(n)
    ensures CoordinateHundredths(n).Some? ==>
              var h := CoordinateHundredths(n).value;
              PaddedToken(n) == if h % 100 == 0 then NatToString(h / 100)
                                else NatToString(h / 100) + "." + TwoFractionDigits(h)
  {
    TokenCharacters(n);
    match CoordinateHundredths(n)
    case None =>
      assert PadOneFractionDigit("NaN") == "NaN";
    case Some(h) =>
      PaddedFormat(h);
      var w := NatToString(h / 100);
      assert forall i :: 0 <= i < |w| ==> IsDigit(w[i]);
  }

  /** Encoding numbers that are already whole hundredths in [0, 100] prints their tokens. */
  lemma EncodeHundredths(hx: nat, hy: nat)
    requires hx <= 10000 && hy <= 10000
    ensures ObjectToString(Finite(hx as real / 100.0), Finite(hy as real / 100.0)) == Padded(hx) + "% " + Padded(hy) + "%"
    ensures UnpaddedObjectToString(Finite(hx as real / 100.0), Finite(hy as real / 100.0)) == Unpadded(hx) + "% " + Unpadded(hy) + "%"
  {
    RoundKeepsHundredths(hx);
    RoundKeepsHundredths(hy);
  }

  /** A whole percentage in [0, 100] prints as its numeral, with no point, in both encoders. */
  lemma WholeToken(q: nat)
    requires q <= 100
    ensures UnpaddedToken(Finite(q as real)) == NatToString(q)
    ensures PaddedToken(Finite(q as real)) == NatToString(q)
  {
    var h := 100 * q;
    assert h as real / 100.0 == q as real;
    RoundKeepsHundredths(h);
    assert CoordinateHundredths(Finite(q as real)) == Some(h);
    PaddedFormat(h);
    assert h % 100 == 0 && h / 100 == q;
  }

  lemma NumeralExamples()
    ensures NatToString(0) == "0" && NatToString(25) == "25" && NatToString(30) == "30"
    ensures NatToString(50) == "50" && NatToString(100) == "100"
  {
    TwoDigitNumeral(25);
    TwoDigitNumeral(30);
    TwoDigitNumeral(50);
    TwoDigitNumeral(10);
  }

  lemma EncodeWholeExamples(x: Number, lo: Number, hi: Number)
    requires x == Finite(50.0) && lo == Finite(0.0) && hi == Finite(100.0)
    ensures ObjectToString(x, x) == "50% 50%"
    ensures ObjectToString(lo, lo) == "0% 0%"
    ensures ObjectToString(hi, hi) == "100% 100%"
  {
    WholeTokens();
    EncodedTokens(x, x, "50", "50");
    EncodedTokens(lo, lo, "0", "0");
    EncodedTokens(hi, hi, "100", "100");
  }

  lemma EncodeShiftedExample(x: Number, y: Number)
    requires x == Finite(30.0) && y == Finite(50.0)
    ensures ObjectToString(x, y) == "30% 50%"
  {
    WholeTokens();
    EncodedTokens(x, y, "30", "50");
  }

  /** Coordinates outside [0, 100] print as the nearest bound. */
  lemma EncodeClampExamples(below: Number, x: Number, above: Number)
    requires below == Finite(-10.0) && x == Finite(50.0) && above == Finite(150.0)
    ensures ObjectToString(below, x) == "0% 50%"
    ensures ObjectToString(x, above) == "50% 100%"
  {
    assert CoordinateHundredths(below) == CoordinateHundredths(Finite(0.0));
    assert CoordinateHundredths(above) == CoordinateHundredths(Finite(100.0));
    WholeTokens();
    EncodedTokens(below, x, "0", "50");
    EncodedTokens(x, above, "50", "100");
  }

  /** The padded tokens of the whole percentages the examples use. */
  lemma WholeTokens()
    ensures PaddedToken(Finite(0.0)) == "0" && PaddedToken(Finite(25.0)) == "25" && PaddedToken(Finite(30.0)) == "30"
    ensures PaddedToken(Finite(50.0)) == "50" && PaddedToken(Finite(100.0)) == "100"
  {
    WholeToken(0);
    WholeToken(25);
    WholeToken(30);
    WholeToken(50);
    WholeToken(100);
    NumeralExamples();
  }

  /** The padded encoding, put together from tokens already known. */
  lemma EncodedTokens(x: Number, y: Number, tx: string, ty: string)
    requires PaddedToken(x) == tx && PaddedToken(y) == ty
    ensures ObjectToString(x, y) == tx + "% " + ty + "%"
  {
  }

  /** Coordinates are rounded to hundredths, halves up. */
  lemma EncodeRoundExamples(x: Number, y: Number)
    requires x == Finite(33.333) && y == Finite(66.666)
    ensures ObjectToString(x, y) == "33.33% 66.67%"
  {
    RoundingExamples(x, y);
    PaddedRoundedExamples();
  }

  /** 33.333 rounds down to 3333 hundredths and 66.666 up to 6667. */
  lemma RoundingExamples(x: Number, y: Number)
    requires x == Finite(33.333) && y == Finite(66.666)
    ensures CoordinateHundredths(x) == Some(3333) && CoordinateHundredths(y) == Some(6667)
  {
  }

  lemma PaddedRoundedExamples()
    ensures Padded(3333) == "33.33" && Padded(6667) == "66.67"
  {
    PaddedFormat(3333);
    PaddedFormat(6667);
    TwoDigitNumeral(33);
    TwoDigitNumeral(66);
  }

  /** A lone fraction digit is padded by one encoder and not by the other. */
  lemma EncodePadExamples(x: Number, y: Number)
    requires x == Finite(33.3) && y == Finite(66.6)
    ensures ObjectToString(x, y) == "33.30% 66.60%"
    ensures UnpaddedObjectToString(x, y) == "33.3% 66.6%"
  {
    OneFractionDigitExample(x, 3330, "33.3");
    OneFractionDigitExample(y, 6660, "66.6");
  }

  lemma OneFractionDigitExample(x: Number, h: nat, token: string)
    requires || (x == Finite(33.3) && h == 3330 && token == "33.3")
             || (x == Finite(66.6) && h == 6660 && token == "66.6")
    ensures UnpaddedToken(x) == token && PaddedToken(x) == token + "0"
  {
    assert CoordinateHundredths(x) == Some(h);
    TwoDigitNumeral(h / 100);
    assert token[|token| - 2] == '.';
  }

  lemma FractionTokenExample(a: string, b: string)
    requires a == "25.35" && b == "75.65"
    ensures ToNumber(a) == Finite(25.35)
    ensures ToNumber(b) == Finite(75.65)
  {
    TwoDigitNumeral(25);
    TwoDigitNumeral(75);
    assert a == NatToString(25) + "." + [DigitChar(3), DigitChar(5)];
    assert b == NatToString(75) + "." + [DigitChar(6), DigitChar(5)];
    TwoDigitNumeralValue(25, 3, 5);
    TwoDigitNumeralValue(75, 6, 5);
  }

  lemma ParseFractionExample(s: string)
    requires s == "25.35% 75.65%"
    ensures StringToObject(s) == Parsed(Finite(25.35), Finite(75.65))
  {
    assert s == "25.35" + "% " + "75.65" + "%";
    ParseTokens("25.35", "75.65");
    FractionTokenExample("25.35", "75.65");
  }

  lemma ParseWholeExample(s: string)
    requires s == "50% 50%"
    ensures StringToObject(s) == Parsed(Finite(50.0), Finite(50.0))
  {
    NumeralExamples();
    assert s == NatToString(50) + "% " + NatToString(50) + "%";
    ParseTokens(NatToString(50), NatToString(50));
    WholeNumeralValue(50);
  }

  /** Without a space there is no second piece: the parser throws. */
  lemma ParseNoSpaceExample(s: string)
    requires s == "50%"
    ensures StringToObject(s) == TypeError
  {
    assert s[0] != ' ' && s[1] != ' ' && s[2] != ' ';
  }
}
