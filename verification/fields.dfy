/** The advanced-settings fields of the calculator: percentages, fixed annual
    amounts with their "zero" fast path, and pay periods per year. */
module Fields {
  import opened Ints
  import opened Text
  import opened Digits
  import opened Rationals
  import opened MoneyParser
  import opened MoneyParserFacts

  /** A field's outcome: its value in millionths, or the message shown. */
  datatype Field = Accepted(scaled: int) | Rejected(message: string)

  /** A parser outcome as a field outcome (the rejection's text becomes the
      message). */
  function FromParsed(p: Parsed): (f: Field)
    ensures f.Accepted? <==> p.Ok?
    ensures p.Ok? ==> f.scaled == p.scaled
    ensures p.Err? ==> f.message == Message(p.error)
    ensures f.Rejected? ==> |f.message| > 0
  {
    match p
    case Ok(v, _) => Accepted(v)
    case Err(e) => MessageNonEmpty(e); Rejected(Message(e))
  }

  /** 100 percent, in millionths of a percent. */
  const Hundred: int := 100 * Scale

  // ---------------------------------------------------------------------
  // Percentages

  /** `parsePercentToScaled`: blank is 0 %, otherwise a money amount between
      0 and 100 inclusive, in millionths of a percent (12.5 % is 12500000). */
  function ParsePercent(input: string, name: string): (r: Field)
    ensures r.Accepted? ==> 0 <= r.scaled <= Hundred
    ensures r.Rejected? ==> |r.message| > 0
  {
    if Trim(input) == [] then Accepted(0) else PercentOf(ParseMoney(Trim(input)), name)
  }

  /** The checks on the parsed percentage. */
  function PercentOf(p: Parsed, name: string): (r: Field)
    ensures r.Accepted? ==> 0 <= r.scaled <= Hundred
    ensures r.Rejected? ==> |r.message| > 0
  {
    match p
    case Err(e) => MessageNonEmpty(e); Rejected(Message(e))
    case Ok(v, _) =>
      if v < 0 then Rejected(name + " cannot be negative.")
      else if v > Hundred then Rejected(name + " must be 0 to 100.")
      else Accepted(v)
  }

  /** On anything the money parser can return, the negative check never
      fires: a percentage is rejected with the parser's message or for being
      over 100, and accepted otherwise. */
  lemma PercentOfParsed(p: Parsed, name: string)
    requires p.Ok? ==> p.scaled >= 0
    ensures PercentOf(p, name) ==
      if p.Err? then Rejected(Message(p.error))
      else if p.scaled > Hundred then Rejected(name + " must be 0 to 100.")
      else Accepted(p.scaled)
  {
  }

  /** A percentage field accepts exactly blank text (as 0) and amounts the
      money parser reads as at most 100; the negative check never fires, as
      the parser rejects negatives itself. */
  lemma ParsePercentMeaning(x: string, name: string)
    ensures ParsePercent(x, name) ==
      if Trim(x) == [] then Accepted(0)
      else if ParseMoney(x).Err? then Rejected(Message(ParseMoney(x).error))
      else if ParseMoney(x).scaled > Hundred then Rejected(name + " must be 0 to 100.")
      else Accepted(ParseMoney(x).scaled)
  {
    ParseMoneyTrim(x);
    PercentOfParsed(ParseMoney(x), name);
  }

  /** Accepted percentages, as an if-and-only-if. */
  lemma ParsePercentAccepted(x: string, name: string, v: int)
    ensures ParsePercent(x, name) == Accepted(v) <==>
      (Trim(x) == [] && v == 0) ||
      (Trim(x) != [] && ParseMoney(x).Ok? && ParseMoney(x).scaled == v && v <= Hundred)
  {
    ParsePercentMeaning(x, name);
  }

  /** `percentScaledToRatioR`: the percentage as a fraction of one, in lowest
      terms. */
  function PercentRatio(p: int): (r: Rational)
    ensures IsNormal(r)
    ensures Val(r) == p as real / Hundred as real
  {
    Norm(Rational(p, Hundred))
  }

  /** An accepted percentage is a ratio between 0 and 1; 0 % and 100 % are
      exactly 0/1 and 1/1. */
  lemma PercentRatioUnit(p: int)
    requires 0 <= p <= Hundred
    ensures 0.0 <= Val(PercentRatio(p)) <= 1.0
    ensures p == 0 ==> PercentRatio(p) == Zero
    ensures p == Hundred ==> PercentRatio(p) == Rational(1, 1)
  {
    var r := PercentRatio(p);
    assert Val(r) == p as real / Hundred as real;
    if p == Hundred {
      assert Val(Rational(1, 1)) == 1.0;
      assert Gcd(1, 1) == 1 by {
        assert Gcd(1, 1) == Gcd(1, 0);
      }
      NormalUnique(r, Rational(1, 1));
    }
  }

  // ---------------------------------------------------------------------
  // Fixed annual amounts

  predicate AllZeros(s: string) {
    forall k :: 0 <= k < |s| ==> s[k] == '0'
  }

  /** The pattern `^0+(\.0+)?$`. */
  predicate IsZeroPattern(t: string) {
    if '.' in t then
      var parts := SplitAt(t, '.');
      |parts.0| > 0 && |parts.1| > 0 && AllZeros(parts.0) && AllZeros(parts.1)
    else
      |t| > 0 && AllZeros(t)
  }

  /** `isZeroString`: blank, or zeros with an optional fraction of zeros. */
  predicate IsZeroString(s: string) {
    Trim(s) == [] || IsZeroPattern(Trim(s))
  }

  /** A fixed annual amount (withholding, pre-tax, post-tax, or the extra gross
      on this paycheck): a zero string is 0 without parsing, anything else is
      parsed as money. */
  function FixedAmount(s: string): (r: Field)
    ensures r.Accepted? ==> 0 <= r.scaled <= MaxScaled
    ensures r.Rejected? ==> |r.message| > 0
  {
    if IsZeroString(s) then Accepted(0) else FromParsed(ParseMoney(s))
  }

  lemma AllZerosValue(s: string)
    requires AllZeros(s)
    ensures AllDigits(s) && Value(s) == 0
  {
    assert s == seq(|s|, _ => '0');
    ValueZeros(|s|);
  }

  /** The money parser reads a zero pattern as 0. */
  lemma ZeroPatternParsesToZero(t: string)
    requires IsZeroPattern(t)
    ensures ParseMoney(t).Ok? && ParseMoney(t).scaled == 0
  {
    if '.' in t {
      var parts := SplitAt(t, '.');
      ZeroDecimal(t, parts.0, parts.1);
    } else {
      AllZerosValue(t);
      ParseWhole(t, 0);
    }
  }

  lemma ZeroDecimal(t: string, a: string, b: string)
    requires t == a + ['.'] + b && AllZeros(a) && AllZeros(b) && |a| > 0
    ensures ParseMoney(t).Ok? && ParseMoney(t).scaled == 0
  {
    AllZerosValue(a);
    ZeroFraction(b);
    assert a + "." + b == t;
    ParseDecimal(a, b, 0);
  }

  lemma ZeroFraction(b: string)
    requires AllZeros(b)
    ensures AllDigits(b) && Value(Frac6(b)) == 0
  {
    AllZerosValue(b);
    Frac6Truncates(b);
  }

  /** The fast path is only a shortcut: on any text that is not blank, a fixed
      amount is exactly what the money parser makes of it. Blank text is 0,
      where the parser would ask for an amount. */
  lemma FixedAmountIsParse(s: string)
    ensures Trim(s) == [] ==> FixedAmount(s) == Accepted(0)
    ensures Trim(s) != [] ==> FixedAmount(s) == FromParsed(ParseMoney(s))
  {
    if Trim(s) != [] && IsZeroPattern(Trim(s)) {
      ZeroPatternParsesToZero(Trim(s));
      ParseMoneyTrim(s);
    }
  }

  // ---------------------------------------------------------------------
  // Pay frequency and periods per year

  datatype Frequency = Weekly | Biweekly | SemiMonthly | Monthly | Irregular

  /** The paychecks in a year for each regular frequency. */
  function DefaultPeriods(f: Frequency): (n: nat)
    requires f != Irregular
    ensures 12 <= n <= 52
  {
    match f
    case Weekly => 52
    case Biweekly => 26
    case SemiMonthly => 24
    case Monthly => 12
  }

  const PeriodsZero := "Pay periods per year must be greater than 0."
  const PeriodsNegative := "Pay periods per year cannot be negative."
  const PeriodsWhole := "Pay periods per year must be a whole number."
  const PeriodsUnusual := "Pay periods per year looks unusual. Check the value."

  /** Pay periods per year, in millionths: the table for a regular frequency,
      otherwise the typed text, which must be a whole number from 1 to 366. */
  function ResolvePeriods(f: Frequency, text: string): (r: Field)
    ensures r.Accepted? ==> Divides(Scale, r.scaled) && Scale <= r.scaled <= 366 * Scale
    ensures r.Rejected? ==> |r.message| > 0
  {
    if f != Irregular then Accepted(DefaultPeriods(f) * Scale) else PeriodsOf(ParseMoney(text))
  }

  /** The checks on typed periods. */
  function PeriodsOf(p: Parsed): (r: Field)
    ensures r.Accepted? ==> Divides(Scale, r.scaled) && Scale <= r.scaled <= 366 * Scale
    ensures r.Rejected? ==> |r.message| > 0
  {
    match p
    case Err(e) => MessageNonEmpty(e); Rejected(Message(e))
    case Ok(v, _) =>
      if v == 0 then Rejected(PeriodsZero)
      else if v < 0 then Rejected(PeriodsNegative)
      else if v % Scale != 0 then Rejected(PeriodsWhole)
      else
        var n := v / Scale;
        if n < 1 || n > 366 then Rejected(PeriodsUnusual)
        else
          DivModBasic(v, Scale);
          Accepted(v)
  }

  /** The periods of a regular frequency are its table entry. */
  lemma RegularPeriods(f: Frequency, text: string)
    ensures f == Weekly ==> ResolvePeriods(f, text) == Accepted(52 * Scale)
    ensures f == Biweekly ==> ResolvePeriods(f, text) == Accepted(26 * Scale)
    ensures f == SemiMonthly ==> ResolvePeriods(f, text) == Accepted(24 * Scale)
    ensures f == Monthly ==> ResolvePeriods(f, text) == Accepted(12 * Scale)
  {
  }

  /** Typed periods are accepted exactly when they parse to a whole number
      of paychecks from 1 to 366. */
  lemma IrregularPeriodsAccepted(text: string, v: int)
    ensures ResolvePeriods(Irregular, text) == Accepted(v) <==>
      ParseMoney(text).Ok? && ParseMoney(text).scaled == v && Divides(Scale, v) && Scale <= v <= 366 * Scale
  {
    PeriodsOfAccepted(ParseMoney(text), v);
  }

  lemma PeriodsOfAccepted(p: Parsed, v: int)
    ensures PeriodsOf(p) == Accepted(v) <==>
      p.Ok? && p.scaled == v && Divides(Scale, v) && Scale <= v <= 366 * Scale
  {
    if p.Ok? && p.scaled == v && Divides(Scale, v) && Scale <= v <= 366 * Scale {
      DivModBasic(v, Scale);
      assert v / Scale >= 1 && v / Scale <= 366;
    }
  }

  /** Which rejection typed periods get: the parser's, then zero, then a
      fraction, then out of range; the negative check never fires. */
  lemma IrregularPeriodsRejected(text: string)
    ensures var r := ResolvePeriods(Irregular, text);
      r.Rejected? ==>
        || (ParseMoney(text).Err? && r.message == Message(ParseMoney(text).error))
        || (ParseMoney(text).Ok? && ParseMoney(text).scaled == 0 && r.message == PeriodsZero)
        || (ParseMoney(text).Ok? && ParseMoney(text).scaled % Scale != 0 && r.message == PeriodsWhole)
        || (ParseMoney(text).Ok? && ParseMoney(text).scaled % Scale == 0 && ParseMoney(text).scaled > 366 * Scale
            && r.message == PeriodsUnusual)
  {
    PeriodsOfRejected(ParseMoney(text));
  }

  lemma PeriodsOfRejected(p: Parsed)
    requires p.Ok? ==> p.scaled >= 0
    ensures var r := PeriodsOf(p);
      r.Rejected? ==>
        || (p.Err? && r.message == Message(p.error))
        || (p.Ok? && p.scaled == 0 && r.message == PeriodsZero)
        || (p.Ok? && p.scaled % Scale != 0 && r.message == PeriodsWhole)
        || (p.Ok? && p.scaled % Scale == 0 && p.scaled > 366 * Scale && r.message == PeriodsUnusual)
  {
    if p.Ok? && p.scaled > 0 && p.scaled % Scale == 0 && p.scaled <= 366 * Scale {
      DivModBasic(p.scaled, Scale);
      assert 1 <= p.scaled / Scale <= 366;
    }
  }

  /** The outcome for typed periods in the order the checks run: the
      parser's rejection, then zero, then a fraction of a paycheck (so
      "400.5" is told to be whole before it is told it is unusual), then
      more than 366. A parsed amount is never negative, so the negative
      check never decides. */
  lemma IrregularPeriodsMeaning(text: string)
    ensures ResolvePeriods(Irregular, text) ==
      match ParseMoney(text)
      case Err(e) => Rejected(Message(e))
      case Ok(v, _) =>
        if v == 0 then Rejected(PeriodsZero)
        else if v % Scale != 0 then Rejected(PeriodsWhole)
        else if v > 366 * Scale then Rejected(PeriodsUnusual)
        else Accepted(v)
  {
    var p := ParseMoney(text);
    if p.Ok? {
      ParseMoneyOkIsNonNegative(text);
      PeriodsOfOk(p.scaled, p.normalized);
    }
  }

  lemma PeriodsOfOk(v: int, t: string)
    requires v >= 0
    ensures PeriodsOf(Ok(v, t)) ==
      if v == 0 then Rejected(PeriodsZero)
      else if v % Scale != 0 then Rejected(PeriodsWhole)
      else if v > 366 * Scale then Rejected(PeriodsUnusual)
      else Accepted(v)
  {
    if v > 0 && v % Scale == 0 {
      DivModBasic(v, Scale);
      assert (v / Scale > 366) <==> (v > 366 * Scale);
    }
  }
}
