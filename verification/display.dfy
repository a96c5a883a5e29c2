/** Rounding for display and the decimal text of an amount in millionths:
    `roundScaledToDigits`, `scaledToDecimalString`, and the part of
    `formatRationalMoney` that comes before the host's number formatting. */
module Display {
  import opened Ints
  import opened Text
  import opened Digits
  import opened Rationals
  import opened MoneyParser
  import opened MoneyParserFacts
  import opened Fields
  import opened Wrappers

  /** `Math.max(0, Math.min(6, digits))`. */
  function ClampDigits(digits: int): (d: nat)
    ensures d <= 6
    ensures 0 <= digits <= 6 ==> d == digits
    ensures digits < 0 ==> d == 0
    ensures digits > 6 ==> d == 6
  {
    if digits < 0 then 0 else if digits > 6 then 6 else digits
  }

  /** The step of the display: 10^(6 - d) millionths. */
  function Unit(digits: int): (u: nat)
    ensures u >= 1
  {
    Pow10(6 - ClampDigits(digits))
  }

  // ---------------------------------------------------------------------
  // Rounding

  /** `roundScaledToDigits`: the magnitude is rounded half up to a multiple
      of the step and the sign is put back, so the result is the nearest
      multiple of the step, ties going away from zero. */
  function RoundScaledToDigits(scaled: int, digits: int): (r: int)
    ensures Divides(Unit(digits), r)
    ensures 2 * Abs(r - scaled) <= Unit(digits)
    ensures 2 * Abs(r - scaled) == Unit(digits) ==> Abs(r) > Abs(scaled)
    ensures (r < 0 ==> scaled < 0) && (r > 0 ==> scaled > 0)
  {
    var factor := Unit(digits);
    var half := factor / 2;
    var x := Abs(scaled);
    var rounded := (x + half) / factor;
    var back := rounded * factor;
    UnitParity(6 - ClampDigits(digits));
    RoundMagnitude(x, factor, half, rounded, back);
    if scaled < 0 then
      DividesNeg(factor, back);
      -back
    else back
  }

  /** Every step but the smallest (one millionth) is even, so half a step is
      exact. */
  lemma UnitParity(k: nat)
    ensures Pow10(k) == 1 || Pow10(k) % 2 == 0
  {
    if k > 0 {
      assert Pow10(k) == 2 * (5 * Pow10(k - 1));
    }
  }

  /** Rounding a magnitude half up to a multiple of `f`. */
  lemma RoundMagnitude(x: nat, f: nat, half: nat, q: int, back: int)
    requires f >= 1 && (f == 1 || f % 2 == 0) && half == f / 2
    requires q == (x + half) / f && back == q * f
    ensures Divides(f, back) && back >= 0 && (back > 0 ==> x > 0)
    ensures 2 * Abs(back - x) <= f
    ensures 2 * Abs(back - x) == f ==> back > x
  {
    var rem := (x + half) % f;
    DivModBasic(x + half, f);
    assert back - x == half - rem;
    DividesProduct(f, q);
    assert f * q == back;
  }

  /** The rounded value is a nearest multiple of the step: no multiple is
      closer to the input. */
  lemma RoundIsNearest(scaled: int, digits: int, m: int)
    requires Divides(Unit(digits), m)
    ensures Abs(RoundScaledToDigits(scaled, digits) - scaled) <= Abs(m - scaled)
  {
    var r := RoundScaledToDigits(scaled, digits);
    var f := Unit(digits);
    if m != r {
      DividesNeg(f, r);
      DividesLinear(f, m, -r, 1);
      DividesNeg(f, m - r);
      DividesBound(f, Abs(m - r));
    }
  }

  /** A multiple of the step is left as it is; in particular rounding twice
      is rounding once. */
  lemma RoundKeepsMultiples(scaled: int, digits: int)
    requires Divides(Unit(digits), scaled)
    ensures RoundScaledToDigits(scaled, digits) == scaled
  {
    var r := RoundScaledToDigits(scaled, digits);
    var f := Unit(digits);
    if r != scaled {
      DividesNeg(f, scaled);
      DividesLinear(f, r, -scaled, 1);
      DividesNeg(f, r - scaled);
      DividesBound(f, Abs(r - scaled));
    }
  }

  lemma RoundIdempotent(scaled: int, digits: int)
    ensures RoundScaledToDigits(RoundScaledToDigits(scaled, digits), digits) == RoundScaledToDigits(scaled, digits)
  {
    RoundKeepsMultiples(RoundScaledToDigits(scaled, digits), digits);
  }

  /** With six (or more) digits nothing is rounded. */
  lemma RoundAtSix(scaled: int, digits: int)
    requires digits >= 6
    ensures RoundScaledToDigits(scaled, digits) == scaled
  {
    assert Unit(digits) == 1;
    RoundKeepsMultiples(scaled, digits);
  }

  /** Rounding commutes with negation. */
  lemma RoundSymmetric(scaled: int, digits: int)
    ensures RoundScaledToDigits(-scaled, digits) == -RoundScaledToDigits(scaled, digits)
  {
    assert Abs(-scaled) == Abs(scaled);
  }

  // ---------------------------------------------------------------------
  // Decimal text

  /** The text before any sign: whole units and, when there is a dot, the
      fraction digits after it (an empty fraction means no dot). */
  datatype Decimal = Decimal(whole: string, fraction: string)

  function DecimalText(dec: Decimal): string {
    if dec.fraction == [] then dec.whole else dec.whole + "." + dec.fraction
  }

  /** `x` millionths with `d` fraction digits: `intPart.toString()` and, unless
      `d` is 0, the first `d` of the six fraction digits
      (`fracPart.toString().padStart(6, "0").slice(0, d)`). */
  function Plain(x: nat, d: nat): Decimal
    requires d <= 6
  {
    var whole := NatToString(x / Scale);
    var frac6 := PadStart(NatToString(x % Scale), 6, '0');
    if d == 0 then Decimal(whole, "") else Decimal(whole, Prefix(frac6, d))
  }

  /** `f` without its trailing zeros. */
  function DropTrailingZeros(f: string): (g: string)
    ensures |g| <= |f| && g == f[..|g|]
    ensures forall i :: |g| <= i < |f| ==> f[i] == '0'
    ensures g == [] || g[|g| - 1] != '0'
  {
    if f != [] && f[|f| - 1] == '0' then DropTrailingZeros(f[..|f| - 1]) else f
  }

  /** `trimTrailingZeros`: `/(\.\d*?[1-9])0+$/` drops the zeros after the last
      non-zero fraction digit, then `/\.0+$/` drops a fraction of zeros with
      its dot. */
  function TrimZeros(dec: Decimal): Decimal {
    var f := if AllZeros(dec.fraction) then dec.fraction else DropTrailingZeros(dec.fraction);
    if AllZeros(f) then Decimal(dec.whole, "") else Decimal(dec.whole, f)
  }

  /** `fixed`: the fraction padded with zeros, or cut, to exactly `d` digits.
      The pattern `^(-?\d+)(?:\.(\d+))?$` always matches the unsigned text
      built here, so the unmatched case does not arise. */
  function FixDigits(dec: Decimal, d: nat): Decimal {
    Decimal(dec.whole, Prefix(PadEnd(dec.fraction, d, '0'), d))
  }

  /** The unsigned part of `scaledToDecimalString`. */
  function Shown(x: nat, d: nat, fixed: bool, trim: bool): Decimal
    requires d <= 6
  {
    var out0 := Plain(x, d);
    var out1 := if trim && d > 0 then TrimZeros(out0) else out0;
    if fixed && d > 0 then FixDigits(out1, d) else out1
  }

  /** `scaledToDecimalString(scaled, digits, { fixed, trimTrailingZeros })`:
      a minus sign for a negative amount, then its magnitude. */
  function ScaledToDecimalString(scaled: int, digits: int, fixed: bool, trim: bool): (s: string)
    ensures s != [] && (s[0] == '-' <==> scaled < 0)
  {
    var d := ClampDigits(digits);
    var out := Shown(Abs(scaled), d, fixed, trim);
    ShownIsDecimal(Abs(scaled), d, fixed, trim);
    if scaled < 0 then "-" + DecimalText(out) else DecimalText(out)
  }

  // ---------------------------------------------------------------------
  // Reading the text back

  /** An amount in millionths truncated toward zero to a multiple of `u`. */
  function TruncateTo(s: int, u: nat): (t: int)
    requires u >= 1
    ensures Divides(u, t)
    ensures Abs(s - t) < u
    ensures (t > 0 ==> s > 0) && (t < 0 ==> s < 0) && Abs(t) <= Abs(s)
  {
    var x := Abs(s);
    DownToMultiple(x, u);
    if s < 0 then
      DividesNeg(u, x - x % u);
      -(x - x % u)
    else x - x % u
  }

  /** Removing the remainder leaves a multiple. */
  lemma DownToMultiple(x: nat, u: int)
    requires u >= 1
    ensures Divides(u, x - x % u) && 0 <= x % u < u && x % u <= x
  {
    var q := x / u;
    DivModBasic(x, u);
    DividesProduct(u, q);
    assert x - x % u == u * q;
    assert q >= 0;
  }

  /** The amount a decimal text denotes, in millionths: an optional minus
      sign, digits, and an optional dot with digits (fraction digits beyond
      six are cut). */
  function ReadDecimal(t: string): (r: Option<int>) {
    if t != [] && t[0] == '-' then
      if IsDecimalString(t[1..]) then Some(-(ScaledValue(t[1..]) as int)) else None
    else if IsDecimalString(t) then Some(ScaledValue(t))
    else None
  }

  /** The text reads back as the amount truncated toward zero to the step
      of the digits shown; with six digits it reads back exactly, whatever
      the options. */
  lemma ReadScaledToDecimalString(scaled: int, digits: int, fixed: bool, trim: bool)
    ensures ReadDecimal(ScaledToDecimalString(scaled, digits, fixed, trim)) == Some(TruncateTo(scaled, Unit(digits)))
  {
    SignedShown(scaled, digits, fixed, trim);
    ReadSigned(scaled, ClampDigits(digits), Unit(digits), fixed, trim);
  }

  /** `ReadScaledToDecimalString` with the step as a parameter. */
  lemma ReadSigned(scaled: int, d: nat, u: nat, fixed: bool, trim: bool)
    requires d <= 6 && u == Pow10(6 - d)
    ensures var t := DecimalText(Shown(Abs(scaled), d, fixed, trim));
      ReadDecimal(if scaled < 0 then "-" + t else t) == Some(TruncateTo(scaled, u))
  {
    var x := Abs(scaled);
    var out := Shown(x, d, fixed, trim);
    var v := ShownAt(x, d, u, fixed, trim);
    DecimalTextValue(out);
    ReadUnsigned(DecimalText(out), v);
    ReadWithSign(scaled, u, DecimalText(out), v);
  }

  /** Reading the signed text, given how the unsigned text reads. */
  lemma ReadWithSign(scaled: int, u: nat, t: string, v: int)
    requires u >= 1 && v == Abs(scaled) - Abs(scaled) % u
    requires ReadDecimal(t) == Some(v) && ReadDecimal("-" + t) == Some(-v)
    ensures ReadDecimal(if scaled < 0 then "-" + t else t) == Some(TruncateTo(scaled, u))
  {
    TruncateOfMagnitude(scaled, u);
  }

  /** The shown decimal is well formed and worth the magnitude cut down to a
      multiple of the step, which is returned. */
  lemma ShownAt(x: nat, d: nat, u: nat, fixed: bool, trim: bool) returns (v: nat)
    requires d <= 6 && u == Pow10(6 - d)
    ensures v == x - x % u && v <= x
    ensures WellFormed(Shown(x, d, fixed, trim)) && DecimalValue(Shown(x, d, fixed, trim)) == v
  {
    ShownValue(x, d, fixed, trim);
    DownToMultiple(x, u);
    v := x - x % u;
  }

  /** The sign, then the unsigned text. */
  lemma SignedShown(scaled: int, digits: int, fixed: bool, trim: bool)
    ensures var t := DecimalText(Shown(Abs(scaled), ClampDigits(digits), fixed, trim));
      ScaledToDecimalString(scaled, digits, fixed, trim) == if scaled < 0 then "-" + t else t
  {
  }

  /** The digits before the dot are `intPart.toString()` of the magnitude:
      the whole number of units, with no leading zero. After the sign and
      those digits comes either nothing or the dot. */
  lemma WholeDigits(scaled: int, digits: int, fixed: bool, trim: bool)
    ensures var s := ScaledToDecimalString(scaled, digits, fixed, trim);
      var body := if scaled < 0 then s[1..] else s;
      var w := NatToString(Abs(scaled) / Scale);
      && |w| <= |body| && body[..|w|] == w
      && (|body| == |w| || body[|w|] == '.')
  {
    var d := ClampDigits(digits);
    var out := Shown(Abs(scaled), d, fixed, trim);
    var w := NatToString(Abs(scaled) / Scale);
    SignedShown(scaled, digits, fixed, trim);
    assert out.whole == w;
    var t := DecimalText(out);
    if out.fraction != [] {
      assert t == w + "." + out.fraction;
      assert t[..|w|] == w;
    }
  }

  /** Unsigned decimal text reads as its value, and with a minus sign in
      front as the negated value. */
  lemma ReadUnsigned(t: string, v: int)
    requires t != [] && t[0] != '-' && IsDecimalString(t) && ScaledValue(t) == v
    ensures ReadDecimal(t) == Some(v) && ReadDecimal("-" + t) == Some(-v)
  {
    assert ("-" + t)[1..] == t;
  }

  lemma ReadExactAtSix(scaled: int, fixed: bool, trim: bool)
    ensures ReadDecimal(ScaledToDecimalString(scaled, 6, fixed, trim)) == Some(scaled)
  {
    ReadScaledToDecimalString(scaled, 6, fixed, trim);
    assert Unit(6) == 1;
  }

  /** The money parser reads the text of a non-negative amount within its
      limit back to the amount (truncated to the digits shown), and rejects
      the text of a negative amount as negative. */
  lemma ParseScaledToDecimalString(scaled: int, digits: int, fixed: bool, trim: bool)
    requires scaled <= MaxScaled
    ensures var s := ScaledToDecimalString(scaled, digits, fixed, trim);
      ParseMoney(s) == if scaled < 0 then Err(Negative) else Ok(TruncateTo(scaled, Unit(digits)), s)
  {
    SignedShown(scaled, digits, fixed, trim);
    ParseSigned(scaled, ClampDigits(digits), Unit(digits), fixed, trim);
  }

  /** `ParseScaledToDecimalString` with the step as a parameter. */
  lemma ParseSigned(scaled: int, d: nat, u: nat, fixed: bool, trim: bool)
    requires scaled <= MaxScaled && d <= 6 && u == Pow10(6 - d)
    ensures var t := DecimalText(Shown(Abs(scaled), d, fixed, trim));
      var s := if scaled < 0 then "-" + t else t;
      ParseMoney(s) == if scaled < 0 then Err(Negative) else Ok(TruncateTo(scaled, u), s)
  {
    var x := Abs(scaled);
    var out := Shown(x, d, fixed, trim);
    var t := DecimalText(out);
    var v := ShownAt(x, d, u, fixed, trim);
    if scaled < 0 {
      assert ParseMoney("-" + t) == Err(Negative) by {
        DecimalTextValue(out);
        NegativeText(t);
      }
    } else {
      assert ParseMoney(t) == Ok(v, t) by {
        ParseDecimalText(out);
      }
      TruncateOfMagnitude(scaled, u);
    }
  }

  /** Truncation works on the magnitude and puts the sign back. */
  lemma TruncateOfMagnitude(s: int, u: nat)
    requires u >= 1
    ensures TruncateTo(s, u) == if s < 0 then -(Abs(s) - Abs(s) % u) else Abs(s) - Abs(s) % u
  {
  }

  /** A minus sign before plain digits and one dot is rejected as negative. */
  lemma NegativeText(t: string)
    requires t != [] && AllDigitOrSep(t)
    ensures ParseMoney("-" + t) == Err(Negative)
  {
    PlainHasNoSigns(t);
    CountAppend("-", t, IsSign);
    KeepAppend("-", t, IsNumeric);
    ParseMoneyNegative("-" + t);
  }

  /** The parser reads a well-formed decimal text as itself and its value. */
  lemma ParseDecimalText(dec: Decimal)
    requires WellFormed(dec) && DecimalValue(dec) <= MaxScaled
    ensures ParseMoney(DecimalText(dec)) == Ok(DecimalValue(dec), DecimalText(dec))
  {
    if dec.fraction == [] {
      ParseWholeText(dec.whole);
    } else {
      ParseFractionText(dec.whole, dec.fraction);
    }
  }

  lemma ParseWholeText(w: string)
    requires AllDigits(w) && |w| > 0 && DecimalValue(Decimal(w, "")) <= MaxScaled
    ensures ParseMoney(w) == Ok(DecimalValue(Decimal(w, "")), w)
  {
    Frac6Empty();
    ParseWhole(w, DecimalValue(Decimal(w, "")));
  }

  lemma ParseFractionText(w: string, f: string)
    requires AllDigits(w) && |w| > 0 && AllDigits(f) && |f| > 0
    requires DecimalValue(Decimal(w, f)) <= MaxScaled
    ensures ParseMoney(w + "." + f) == Ok(DecimalValue(Decimal(w, f)), w + "." + f)
  {
    ParseDecimal(w, f, DecimalValue(Decimal(w, f)));
  }

  // ---------------------------------------------------------------------
  // The digits after the dot

  /** The digits after the dot, or nothing when there is no dot. */
  function FractionOf(s: string): string {
    if '.' in s then SplitAt(s, '.').1 else ""
  }

  /** Without trimming, or with `fixed`, a text shown with d > 0 digits has
      exactly d digits after its dot; with no digits there is no dot. */
  lemma FractionWidth(scaled: int, digits: int, fixed: bool, trim: bool)
    ensures var s := ScaledToDecimalString(scaled, digits, fixed, trim);
      ClampDigits(digits) == 0 ==> '.' !in s
    ensures var s := ScaledToDecimalString(scaled, digits, fixed, trim);
      ClampDigits(digits) > 0 && (fixed || !trim) ==> '.' in s && |FractionOf(s)| == ClampDigits(digits)
  {
    var d := ClampDigits(digits);
    var x := Abs(scaled);
    ShownIsDecimal(x, d, fixed, trim);
    PlainValue(x, d);
    if trim && d > 0 {
      TrimKeepsValue(Plain(x, d));
    }
    if fixed && d > 0 {
      FixKeepsValue(if trim then TrimZeros(Plain(x, d)) else Plain(x, d), d);
    }
    ScaledText(scaled, digits, fixed, trim);
  }

  /** Trimmed text never ends its fraction with a zero, and a fraction of
      zeros loses its dot. */
  lemma TrimmedFraction(scaled: int, digits: int)
    ensures var s := ScaledToDecimalString(scaled, digits, false, true);
      '.' in s ==> FractionOf(s) != [] && FractionOf(s)[|FractionOf(s)| - 1] != '0'
  {
    ScaledText(scaled, digits, false, true);
    TrimmedEnd(Abs(scaled), ClampDigits(digits));
  }

  lemma TrimmedEnd(x: nat, d: nat)
    requires d <= 6
    ensures var f := Shown(x, d, false, true).fraction;
      f == [] || f[|f| - 1] != '0'
  {
  }

  /** The sign and the unsigned text: the dot, if any, is the one before the
      fraction. */
  lemma ScaledText(scaled: int, digits: int, fixed: bool, trim: bool)
    ensures var out := Shown(Abs(scaled), ClampDigits(digits), fixed, trim);
      var s := ScaledToDecimalString(scaled, digits, fixed, trim);
      (out.fraction == [] ==> '.' !in s) && (out.fraction != [] ==> '.' in s && FractionOf(s) == out.fraction)
  {
    var out := Shown(Abs(scaled), ClampDigits(digits), fixed, trim);
    var sign := if scaled < 0 then "-" else "";
    ShownIsDecimal(Abs(scaled), ClampDigits(digits), fixed, trim);
    SignedText(sign, out);
    assert ScaledToDecimalString(scaled, digits, fixed, trim) == sign + DecimalText(out);
  }

  lemma SignedText(sign: string, dec: Decimal)
    requires sign == "" || sign == "-"
    requires WellFormed(dec)
    ensures var s := sign + DecimalText(dec);
      (dec.fraction == [] ==> '.' !in s) && (dec.fraction != [] ==> '.' in s && FractionOf(s) == dec.fraction)
  {
    NoSeparators(dec.whole);
    var s := sign + DecimalText(dec);
    if dec.fraction == [] {
      assert s == sign + dec.whole;
    } else {
      assert s == (sign + dec.whole) + ['.'] + dec.fraction;
      SplitUnique(s, sign + dec.whole, dec.fraction, '.');
    }
  }

  // ---------------------------------------------------------------------
  // Facts about the unsigned text

  /** Non-empty whole digits and fraction digits. */
  predicate WellFormed(dec: Decimal) {
    |dec.whole| > 0 && AllDigits(dec.whole) && AllDigits(dec.fraction)
  }

  /** The amount a decimal denotes, in millionths (fraction digits beyond
      six are cut, as the parser does). */
  function DecimalValue(dec: Decimal): nat
    requires WellFormed(dec)
  {
    Value(dec.whole) * Scale + Value(Frac6(dec.fraction))
  }

  lemma DecimalTextValue(dec: Decimal)
    requires WellFormed(dec)
    ensures DecimalText(dec) != [] && DecimalText(dec)[0] != '-'
    ensures IsDecimalString(DecimalText(dec)) && AllDigitOrSep(DecimalText(dec))
    ensures ScaledValue(DecimalText(dec)) == DecimalValue(dec)
  {
    assert DecimalText(dec)[0] == dec.whole[0];
    if dec.fraction == [] {
      NoSeparators(dec.whole);
      Frac6Empty();
    } else {
      DecimalParts(dec.whole, dec.fraction);
    }
  }

  lemma ShownIsDecimal(x: nat, d: nat, fixed: bool, trim: bool)
    requires d <= 6
    ensures WellFormed(Shown(x, d, fixed, trim))
    ensures DecimalText(Shown(x, d, fixed, trim)) != []
    ensures DecimalText(Shown(x, d, fixed, trim))[0] != '-'
  {
    ShownValue(x, d, fixed, trim);
    DecimalTextValue(Shown(x, d, fixed, trim));
  }

  /** The unsigned text is worth the magnitude truncated to the step. */
  lemma ShownValue(x: nat, d: nat, fixed: bool, trim: bool)
    requires d <= 6
    ensures WellFormed(Shown(x, d, fixed, trim))
    ensures DecimalValue(Shown(x, d, fixed, trim)) == x - x % Pow10(6 - d)
  {
    PlainValue(x, d);
    var out0 := Plain(x, d);
    var out1 := if trim && d > 0 then TrimZeros(out0) else out0;
    if trim && d > 0 {
      TrimKeepsValue(out0);
    }
    if fixed && d > 0 {
      FixKeepsValue(out1, d);
    }
  }

  /** The plain text: whole units and `d` fraction digits worth the magnitude
      truncated to the step. */
  lemma PlainValue(x: nat, d: nat)
    requires d <= 6
    ensures WellFormed(Plain(x, d)) && |Plain(x, d).fraction| == d
    ensures DecimalValue(Plain(x, d)) == x - x % Pow10(6 - d)
  {
    var w, m := x / Scale, x % Scale;
    DivModBasic(x, Scale);
    var f6 := PadStart(NatToString(m), 6, '0');
    SixDigits(m);
    var fr := Prefix(f6, d);
    PrefixValue(f6, d);
    assert Plain(x, d).fraction == fr;
    var u := Pow10(6 - d);
    ScaleSplit(d);
    WholeAndFraction(x, w, m, u, Pow10(d));
  }

  /** `m.toString().padStart(6, "0")` for m below a million: six digits worth m. */
  lemma SixDigits(m: nat)
    requires m < Scale
    ensures var f6 := PadStart(NatToString(m), 6, '0');
      |f6| == 6 && AllDigits(f6) && Value(f6) == m
  {
    var t := NatToString(m);
    Pow10Scale();
    ShortDigits(t, 6);
    PadStartValue(t, 6);
  }

  /** The first d of six digits, padded back to six with zeros, are the six
      digits' value truncated to a multiple of 10^(6-d). */
  lemma PrefixValue(f6: string, d: nat)
    requires |f6| == 6 && AllDigits(f6) && d <= 6
    ensures AllDigits(Prefix(f6, d)) && |Prefix(f6, d)| == d
    ensures Value(Frac6(Prefix(f6, d))) == Value(f6) - Value(f6) % Pow10(6 - d)
  {
    var fr := Prefix(f6, d);
    var tail := f6[d..];
    assert f6 == fr + tail;
    ValueAppend(fr, tail);
    assert Prefix(fr, 6) == fr;
    PadEndValue(fr, 6);
    CutRemainder(Value(f6), Value(fr), Value(tail), Pow10(6 - d));
  }

  /** `a * u + b` with `b` below `u` loses exactly `b` when cut to a multiple
      of `u`. */
  lemma CutRemainder(v: int, a: int, b: int, u: int)
    requires u >= 1 && 0 <= b < u && v == a * u + b
    ensures v - v % u == a * u
  {
    DivModUnique(v, u, a, b);
  }

  lemma ScaleSplit(d: nat)
    requires d <= 6
    ensures Scale == Pow10(d) * Pow10(6 - d)
  {
    Pow10Add(d, 6 - d);
    Pow10Scale();
  }

  /** Whole units and a remainder below a unit: truncating to a step that
      divides the unit only touches the remainder. */
  lemma WholeAndFraction(x: int, w: int, m: int, u: int, k: int)
    requires u >= 1 && k >= 1 && 0 <= m < k * u
    requires x == (k * u) * w + m
    ensures x - x % u == w * (k * u) + (m - m % u)
  {
    DivModBasic(m, u);
    assert x == u * (w * k + m / u) + m % u;
    DivModUnique(x, u, w * k + m / u, m % u);
  }

  /** `toString()` of a number below 10^k (k at least 1) has at most k
      digits. */
  lemma ShortDigits(t: string, k: nat)
    requires k >= 1
    requires AllDigits(t) && |t| >= 1 && (|t| > 1 ==> t[0] != '0') && Value(t) < Pow10(k)
    ensures |t| <= k
  {
  }

  /** Trimming zeros does not change the fraction's six digits. */
  lemma TrimKeepsValue(dec: Decimal)
    requires WellFormed(dec) && |dec.fraction| <= 6
    ensures WellFormed(TrimZeros(dec)) && |TrimZeros(dec).fraction| <= 6
    ensures DecimalValue(TrimZeros(dec)) == DecimalValue(dec)
  {
    var f := if AllZeros(dec.fraction) then dec.fraction else DropTrailingZeros(dec.fraction);
    SameSixDigits(f, dec.fraction);
    if AllZeros(f) {
      SameSixDigits([], f);
    }
  }

  /** Padding to `d` digits does not change the fraction's six digits. */
  lemma FixKeepsValue(dec: Decimal, d: nat)
    requires WellFormed(dec) && |dec.fraction| <= d <= 6
    ensures WellFormed(FixDigits(dec, d)) && |FixDigits(dec, d).fraction| == d
    ensures DecimalValue(FixDigits(dec, d)) == DecimalValue(dec)
  {
    var p := PadEnd(dec.fraction, d, '0');
    assert Prefix(p, d) == p;
    SameSixDigits(dec.fraction, p);
  }

  /** A fraction and the same fraction with zeros after it, up to six
      digits, have the same six digits. */
  lemma SameSixDigits(f: string, g: string)
    requires |f| <= |g| <= 6 && f == g[..|f|] && AllDigits(g)
    requires forall i :: |f| <= i < |g| ==> g[i] == '0'
    ensures AllDigits(f) && Frac6(f) == Frac6(g)
  {
    assert Prefix(f, 6) == f && Prefix(g, 6) == g;
    var a, b := Frac6(f), Frac6(g);
    assert forall i :: 0 <= i < 6 ==> a[i] == b[i];
  }

  // ---------------------------------------------------------------------
  // formatRationalMoney

  /** The decimal text `formatRationalMoney` hands to the host's money
      formatting: the figure in millionths (truncated toward zero), rounded
      to the chosen decimals when rounding is on, shown with six digits;
      trailing zeros are trimmed when rounding is off. No figure shows a
      dash. */
  function MoneyText(r: Option<Rational>, round: bool, decimals: int): (s: string)
    ensures r.None? ==> s == "—"
  {
    if r.None? then "—"
    else
      var scaled := ToScaled(r.value);
      var rounded := if round then RoundScaledToDigits(scaled, decimals) else scaled;
      ScaledToDecimalString(rounded, 6, round && decimals > 0, !round)
  }

  /** The text reads back as the figure in millionths, rounded to the chosen
      decimals when rounding is on. */
  lemma MoneyTextValue(r: Rational, round: bool, decimals: int)
    requires r.d != 0
    ensures ReadDecimal(MoneyText(Some(r), round, decimals))
      == Some(if round then RoundScaledToDigits(ToScaled(r), decimals) else ToScaled(r))
    ensures TruncatesTo(Val(r) * Scale as real, ToScaled(r))
  {
    var scaled := ToScaled(r);
    var rounded := if round then RoundScaledToDigits(scaled, decimals) else scaled;
    ReadExactAtSix(rounded, round && decimals > 0, !round);
  }

  /** Rounded text always carries all six digits after the dot (the host's
      formatting then shows the chosen number); unrounded text has its
      trailing zeros trimmed. */
  lemma MoneyTextShape(r: Rational, round: bool, decimals: int)
    ensures var s := MoneyText(Some(r), round, decimals);
      round ==> '.' in s && |FractionOf(s)| == 6
    ensures var s := MoneyText(Some(r), round, decimals);
      !round && '.' in s ==> FractionOf(s) != [] && FractionOf(s)[|FractionOf(s)| - 1] != '0'
  {
    var scaled := ToScaled(r);
    if round {
      FractionWidth(RoundScaledToDigits(scaled, decimals), 6, decimals > 0, false);
    } else {
      TrimmedFraction(scaled, 6);
    }
  }
}
