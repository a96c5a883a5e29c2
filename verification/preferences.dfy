/** The guards that read saved preferences back: `safeFrequency`,
    `safeCurrency` and `safeDisplayDecimals`. A missing entry is `None`. */
module Preferences {
  import opened Ints
  import opened Text
  import opened Digits
  import opened Fields
  import opened Wrappers

  // ---------------------------------------------------------------------
  // Frequency

  /** The name a frequency is saved under. */
  function FrequencyName(f: Frequency): string {
    match f
    case Weekly => "weekly"
    case Biweekly => "biweekly"
    case SemiMonthly => "semi_monthly"
    case Monthly => "monthly"
    case Irregular => "irregular"
  }

  /** `safeFrequency`: the frequency whose name is saved; otherwise (missing,
      empty or unknown) the fallback. */
  function SafeFrequency(saved: Option<string>, fallback: Frequency): (r: Frequency)
    ensures r == fallback || saved == Some(FrequencyName(r))
    ensures forall f :: saved == Some(FrequencyName(f)) ==> r == f
  {
    if saved.None? || saved.value == [] then fallback
    else if saved.value == "weekly" then Weekly
    else if saved.value == "biweekly" then Biweekly
    else if saved.value == "semi_monthly" then SemiMonthly
    else if saved.value == "monthly" then Monthly
    else if saved.value == "irregular" then Irregular
    else fallback
  }

  /** Saving a frequency and reading it back gives the same frequency. */
  lemma FrequencyRoundTrip(f: Frequency, fallback: Frequency)
    ensures SafeFrequency(Some(FrequencyName(f)), fallback) == f
  {
  }

  // ---------------------------------------------------------------------
  // Currency

  /** The currency codes on offer. */
  const CurrencyCodes: seq<string> := [
    "USD", "CAD", "EUR", "GBP", "AUD", "NZD", "JPY", "CNY", "HKD",
    "SGD", "INR", "KRW", "CHF", "SEK", "NOK", "DKK", "MXN", "BRL"]

  /** `safeCurrency`: the saved text in capitals when that is a code on
      offer; otherwise (missing, empty or unknown) the fallback. */
  function SafeCurrency(saved: Option<string>, fallback: string): (r: string)
    ensures r == fallback || r in CurrencyCodes
    ensures r != fallback ==> saved.Some? && ToUpperCase(saved.value) == r
  {
    if saved.None? || saved.value == [] then fallback
    else if ToUpperCase(saved.value) in CurrencyCodes then ToUpperCase(saved.value)
    else fallback
  }

  /** Capitalising twice is capitalising once. */
  lemma UpperIdempotent(s: string)
    ensures ToUpperCase(ToUpperCase(s)) == ToUpperCase(s)
  {
  }

  /** Every code on offer is already in capitals. */
  lemma CodesAreUpper(c: string)
    requires c in CurrencyCodes
    ensures ToUpperCase(c) == c
  {
    var k :| 0 <= k < |CurrencyCodes| && CurrencyCodes[k] == c;
    assert |c| == 3;
    assert forall i :: 0 <= i < 3 ==> 'A' <= c[i] <= 'Z';
  }

  /** Saving a code and reading it back gives the same code. */
  lemma CurrencyRoundTrip(c: string, fallback: string)
    requires c in CurrencyCodes
    ensures SafeCurrency(Some(c), fallback) == c
  {
    CodesAreUpper(c);
  }

  /** Letter case in the saved text does not matter: "usd" reads as "USD". */
  lemma CurrencyIgnoresCase(s: string, fallback: string)
    ensures SafeCurrency(Some(s), fallback) == SafeCurrency(Some(ToUpperCase(s)), fallback)
  {
    UpperIdempotent(s);
  }

  // ---------------------------------------------------------------------
  // Display decimals and `Number`

  /** A digit in base 2, 8 or 16, or -1. */
  function BaseDigit(c: char, base: nat): (v: int)
    ensures -1 <= v < base
  {
    var d :=
      if '0' <= c <= '9' then c as int - '0' as int
      else if 'a' <= c <= 'f' then c as int - 'a' as int + 10
      else if 'A' <= c <= 'F' then c as int - 'A' as int + 10
      else -1;
    if d < base then d else -1
  }

  predicate AllInBase(s: string, base: nat) {
    forall i :: 0 <= i < |s| ==> BaseDigit(s[i], base) >= 0
  }

  function BaseValue(s: string, base: nat): (v: nat)
    requires AllInBase(s, base)
  {
    if s == [] then 0 else BaseValue(s[..|s| - 1], base) * base + BaseDigit(s[|s| - 1], base)
  }

  /** 10^k as a real, for an exponent of either sign. */
  function Pow10Real(k: int): (r: real)
    ensures r > 0.0
  {
    if k >= 0 then Pow10(k) as real else 1.0 / Pow10(-k) as real
  }

  /** The optional sign and digits after `e`. */
  function ExponentOf(s: string): (r: Option<int>) {
    if s != [] && (s[0] == '+' || s[0] == '-') then
      if |s| > 1 && AllDigits(s[1..]) then Some(if s[0] == '-' then 0 - Value(s[1..]) as int else Value(s[1..]))
      else None
    else if s != [] && AllDigits(s) then Some(Value(s))
    else None
  }

  /** Digits with an optional dot (at least one digit): the digits' value and
      the number of digits after the dot. */
  function MantissaOf(m: string): (r: Option<(nat, nat)>) {
    if '.' in m then
      var parts := SplitAt(m, '.');
      if AllDigits(parts.0) && AllDigits(parts.1) && |parts.0| + |parts.1| > 0 then
        ValueAppend(parts.0, parts.1);
        Some((Value(parts.0 + parts.1), |parts.1|))
      else None
    else if m != [] && AllDigits(m) then Some((Value(m), 0))
    else None
  }

  predicate IsExponentMark(c: char) {
    c == 'e' || c == 'E'
  }

  /** The position of the first `e` or `E`, or -1. */
  function ExponentMark(u: string): (k: int)
    ensures -1 <= k < |u|
    ensures k >= 0 ==> IsExponentMark(u[k])
    ensures forall i :: 0 <= i < |u| && (k == -1 || i < k) ==> !IsExponentMark(u[i])
  {
    if u == [] then -1
    else if IsExponentMark(u[0]) then 0
    else
      var k := ExponentMark(u[1..]);
      if k == -1 then -1 else k + 1
  }

  /** An unsigned decimal literal with an optional exponent. */
  function UnsignedDecimalOf(u: string): (r: Option<real>) {
    var e := ExponentMark(u);
    var mant := if e == -1 then MantissaOf(u) else MantissaOf(u[..e]);
    var exp := if e == -1 then Some(0) else ExponentOf(u[e + 1..]);
    if mant.None? || exp.None? then None
    else Some(mant.value.0 as real * Pow10Real(exp.value - mant.value.1))
  }

  /** `Number(s)` where it is a finite number; `None` for NaN and for the
      infinities. Whitespace around the literal is ignored and empty text is
      0; `0x`, `0o` and `0b` prefixes give hexadecimal, octal and binary. */
  function NumberOf(s: string): (r: Option<real>) {
    var t := Trim(s);
    if t == [] then Some(0.0)
    else if |t| > 2 && t[0] == '0' && (t[1] == 'x' || t[1] == 'X') then
      if AllInBase(t[2..], 16) then Some(BaseValue(t[2..], 16) as real) else None
    else if |t| > 2 && t[0] == '0' && (t[1] == 'o' || t[1] == 'O') then
      if AllInBase(t[2..], 8) then Some(BaseValue(t[2..], 8) as real) else None
    else if |t| > 2 && t[0] == '0' && (t[1] == 'b' || t[1] == 'B') then
      if AllInBase(t[2..], 2) then Some(BaseValue(t[2..], 2) as real) else None
    else if t[0] == '+' || t[0] == '-' then
      match UnsignedDecimalOf(t[1..])
      case None => None
      case Some(v) => Some(if t[0] == '-' then -v else v)
    else UnsignedDecimalOf(t)
  }

  predicate IsDisplayDecimals(d: nat) {
    d == 0 || d == 2 || d == 4 || d == 6
  }

  /** `safeDisplayDecimals`: the saved number when it is 0, 2, 4 or 6;
      otherwise (missing or any other value) the fallback. */
  function SafeDisplayDecimals(saved: Option<string>, fallback: nat): (d: nat)
    requires IsDisplayDecimals(fallback)
    ensures IsDisplayDecimals(d)
    ensures d != fallback ==> saved.Some? && NumberOf(saved.value) == Some(d as real)
    ensures saved.Some? && NumberOf(saved.value).Some?
      && NumberOf(saved.value).value in {0.0, 2.0, 4.0, 6.0}
      ==> d as real == NumberOf(saved.value).value
  {
    if saved.None? then fallback
    else
      match NumberOf(saved.value)
      case None => fallback
      case Some(v) =>
        if v == 0.0 then 0
        else if v == 2.0 then 2
        else if v == 4.0 then 4
        else if v == 6.0 then 6
        else fallback
  }

  /** A plain run of digits, with whitespace around it, is its value. */
  lemma NumberOfDigits(s: string)
    requires Trim(s) != [] && AllDigits(Trim(s))
    ensures NumberOf(s) == Some(Value(Trim(s)) as real)
  {
    var t := Trim(s);
    UnsignedDigits(t);
    assert !(t[0] == '+' || t[0] == '-');
    assert |t| > 2 ==> IsDigit(t[1]);
  }

  lemma UnsignedDigits(t: string)
    requires t != [] && AllDigits(t)
    ensures UnsignedDecimalOf(t) == Some(Value(t) as real)
  {
    assert ExponentMark(t) == -1;
    assert '.' !in t;
    assert MantissaOf(t) == Some((Value(t), 0));
    assert Pow10Real(0) == 1.0;
  }

  /** The saved `String(decimals)` reads back as the same number of
      decimals. */
  lemma DisplayDecimalsRoundTrip(d: nat, fallback: nat)
    requires IsDisplayDecimals(d) && IsDisplayDecimals(fallback)
    ensures SafeDisplayDecimals(Some(NatToString(d)), fallback) == d
  {
    var s := NatToString(d);
    assert NumberOf(s) == Some(d as real) by {
      assert |s| == 1;
      TrimNoSpace(s);
      NumberOfDigits(s);
    }
  }

  /** Empty or blank saved text is the number 0, so it selects no decimals
      rather than the fallback. */
  lemma BlankDisplayDecimals(s: string, fallback: nat)
    requires IsDisplayDecimals(fallback) && Trim(s) == []
    ensures SafeDisplayDecimals(Some(s), fallback) == 0
  {
  }
}
