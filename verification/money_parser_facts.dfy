/** What `parseMoneyToScaled` accepts and rejects, stated on the input text. */
module MoneyParserFacts {
  import opened Ints
  import opened Text
  import opened Digits
  import opened MoneyParser

  predicate IsDigitOrSep(c: char) {
    IsDigit(c) || c == '.' || c == ','
  }

  // ---------------------------------------------------------------------
  // From the raw input to the digits and separators

  /** Sanitising and stripping parentheses, glyphs and whitespace leaves the
      digits, separators and signs of the text, in order. */
  lemma {:induction false} StripIsNumeric(s: string)
    ensures Drop(Drop(Drop(Keep(s, IsAllowed), IsParen), IsCurrencyGlyph), IsJsSpace) == Keep(s, IsNumeric)
  {
    if s != [] {
      StripChar(s[0]);
      StripIsNumeric(s[1..]);
    }
  }

  /** A character survives sanitising and stripping exactly when it is a
      digit, a separator or a sign. */
  lemma StripChar(c: char)
    ensures (IsAllowed(c) && !IsParen(c) && !IsCurrencyGlyph(c) && !IsJsSpace(c)) == IsNumeric(c)
  {
  }

  /** Removing the signs from the numeric characters leaves the digits and
      separators. */
  lemma {:induction false} UnsignedIsDigitOrSep(s: string)
    ensures Drop(Keep(s, IsNumeric), IsSign) == Keep(s, IsDigitOrSep)
  {
    if s != [] {
      UnsignedIsDigitOrSep(s[1..]);
    }
  }

  /** Trimming never removes a character that is not whitespace. */
  lemma TrimMember(x: string, c: char)
    requires !IsJsSpace(c)
    ensures c in Trim(x) <==> c in x
  {
    var p := (d: char) => d == c;
    KeepTrim(x, p);
    assert c in Keep(Trim(x), p) <==> c in Trim(x);
    assert c in Keep(x, p) <==> c in x;
  }

  /** Whatever whitespace, glyphs or other characters surround them, the
      parser only looks at the digits, separators and signs of the input, and
      at whether it holds both parentheses and no minus sign. */
  lemma ParseMoneyOnNumeric(x: string)
    ensures ParseMoney(x) == ParseStripped(Keep(x, IsNumeric), '(' in x && ')' in x && '-' !in x)
  {
    if Trim(x) == [] {
      TrimKeepsNumeric(x);
      BlankInput(x);
    } else {
      NonBlankOnNumeric(x);
    }
  }

  lemma NonBlankOnNumeric(x: string)
    requires Trim(x) != []
    ensures ParseMoney(x) == ParseStripped(Keep(x, IsNumeric), '(' in x && ')' in x && '-' !in x)
  {
    var t := Trim(x);
    var sanitized := Keep(t, IsAllowed);
    var stripped := Drop(Drop(Drop(sanitized, IsParen), IsCurrencyGlyph), IsJsSpace);
    var negative := '(' in sanitized && ')' in sanitized && '-' !in sanitized;
    assert ParseMoney(x) == ParseStripped(stripped, negative) by { UnfoldParseMoney(x); }
    assert stripped == Keep(x, IsNumeric) by { StripIsNumeric(t); TrimKeepsNumeric(x); }
    assert negative == ('(' in x && ')' in x && '-' !in x) by { ParenNegativeOnInput(x); }
  }

  lemma BlankInput(x: string)
    requires Trim(x) == []
    ensures Keep(Trim(x), IsNumeric) == []
    ensures ParseMoney(x) == Err(EnterAmount)
    ensures ParseStripped([], '(' in x && ')' in x && '-' !in x) == Err(EnterAmount)
  {
  }

  lemma ParenNegativeOnInput(x: string)
    ensures var sanitized := Keep(Trim(x), IsAllowed);
      ('(' in sanitized && ')' in sanitized && '-' !in sanitized) <==> ('(' in x && ')' in x && '-' !in x)
  {
    TrimMember(x, '(');
    TrimMember(x, ')');
    TrimMember(x, '-');
  }

  lemma UnfoldParseMoney(x: string)
    requires Trim(x) != []
    ensures var sanitized := Keep(Trim(x), IsAllowed);
      ParseMoney(x) == ParseStripped(Drop(Drop(Drop(sanitized, IsParen), IsCurrencyGlyph), IsJsSpace),
                                     '(' in sanitized && ')' in sanitized && '-' !in sanitized)
  {
  }

  /** The parser trims its input itself, so trimming first changes nothing. */
  lemma ParseMoneyTrim(x: string)
    ensures ParseMoney(Trim(x)) == ParseMoney(x)
  {
    TrimKeepsNumeric(x);
    SameNumeric(Trim(x), x);
  }

  lemma TrimKeepsNumeric(x: string)
    ensures Keep(Trim(x), IsNumeric) == Keep(x, IsNumeric)
    ensures ('(' in Trim(x) <==> '(' in x) && (')' in Trim(x) <==> ')' in x) && ('-' in Trim(x) <==> '-' in x)
  {
    TrimMember(x, '(');
    TrimMember(x, ')');
    TrimMember(x, '-');
    KeepTrim(x, IsNumeric);
  }

  /** Two inputs with the same digits, separators and signs, and the same
      parentheses and minus sign, parse alike. */
  lemma SameNumeric(x: string, y: string)
    requires Keep(x, IsNumeric) == Keep(y, IsNumeric)
    requires ('(' in x <==> '(' in y) && (')' in x <==> ')' in y) && ('-' in x <==> '-' in y)
    ensures ParseMoney(x) == ParseMoney(y)
  {
    ParseMoneyOnNumeric(x);
    ParseMoneyOnNumeric(y);
  }

  /** The parser, stage by stage, in terms of the original input: no digit,
      separator or sign, then more than one sign, then a minus sign or a pair
      of parentheses, then the separator rules on the digits and separators. */
  lemma ParseMoneyStages(x: string)
    ensures ParseMoney(x) ==
      if Keep(x, IsNumeric) == [] then Err(EnterAmount)
      else if Count(x, IsSign) > 1 then Err(ExtraSigns)
      else if '-' in x || ('(' in x && ')' in x) then Err(Negative)
      else ParseUnsigned(Keep(x, IsDigitOrSep))
  {
    ParseMoneyOnNumeric(x);
    CountKeep(x, IsSign, IsNumeric);
    UnsignedIsDigitOrSep(x);
    assert '-' in Keep(x, IsNumeric) <==> '-' in x;
  }

  // ---------------------------------------------------------------------
  // The rejections, each as an if-and-only-if

  /** "Enter an amount." exactly when the text holds no digit, separator or
      sign (blank, whitespace, glyphs, parentheses or other characters only). */
  lemma ParseMoneyBlank(x: string)
    ensures ParseMoney(x) == Err(EnterAmount) <==> Keep(x, IsNumeric) == []
  {
    ParseMoneyStages(x);
  }

  /** More than one `+`/`-` anywhere in the text is rejected, and that
      rejection is given for nothing else. */
  lemma ParseMoneyExtraSigns(x: string)
    ensures ParseMoney(x) == Err(ExtraSigns) <==> Count(x, IsSign) > 1
  {
    ParseMoneyStages(x);
    SignsAreNumeric(x);
  }

  lemma SignsAreNumeric(x: string)
    ensures Count(x, IsSign) > 0 ==> Keep(x, IsNumeric) != []
  {
    CountKeep(x, IsSign, IsNumeric);
  }

  /** A minus sign, or a pair of parentheses, makes the amount negative and
      rejected (once there is something numeric and at most one sign). */
  lemma ParseMoneyNegative(x: string)
    ensures ParseMoney(x) == Err(Negative) <==>
      Keep(x, IsNumeric) != [] && Count(x, IsSign) <= 1 && ('-' in x || ('(' in x && ')' in x))
  {
    ParseMoneyStages(x);
  }

  /** An accepted amount never came from text with a minus sign, a pair of
      parentheses, or more than one sign. */
  lemma ParseMoneyOkIsNonNegative(x: string)
    requires ParseMoney(x).Ok?
    ensures '-' !in x && !('(' in x && ')' in x) && Count(x, IsSign) <= 1
    ensures 0 <= ParseMoney(x).scaled <= MaxScaled
  {
    ParseMoneyStages(x);
  }

  // ---------------------------------------------------------------------
  // Plain digits and separators

  predicate AllDigitOrSep(x: string) {
    forall i :: 0 <= i < |x| ==> IsDigitOrSep(x[i])
  }

  /** Text made only of digits and separators goes straight to the separator
      rules. */
  lemma ParseMoneyPlain(x: string)
    requires x != [] && AllDigitOrSep(x)
    ensures ParseMoney(x) == ParseUnsigned(x)
  {
    ParseMoneyStages(x);
    KeepAll(x, IsDigitOrSep);
    KeepAll(x, IsNumeric);
    PlainHasNoSigns(x);
  }

  lemma PlainHasNoSigns(x: string)
    requires AllDigitOrSep(x)
    ensures Count(x, IsSign) == 0
    ensures '-' !in x && '(' !in x
  {
  }

  /** A digit string has no separator in it. */
  lemma NoSeparators(s: string)
    requires AllDigits(s)
    ensures '.' !in s && ',' !in s
  {
  }

  /** `split` on the only occurrence of a character. */
  lemma SplitUnique(s: string, a: string, b: string, c: char)
    requires s == a + [c] + b && c !in a
    ensures c in s && SplitAt(s, c) == (a, b)
  {
    assert s[|a|] == c;
    var k := IndexOf(s, c);
    assert s[..k] == a;
    assert s[k + 1..] == b;
  }

  /** A digit string, with or without a fractional part, and with a bare
      leading or trailing dot: the integer part times 10^6 plus the first six
      fraction digits, cut (not rounded) and padded with zeros. */
  lemma FinishDecimal(i: string, f: string, v: int)
    requires AllDigits(i) && AllDigits(f) && (|i| > 0 || |f| > 0)
    requires v == Value(i) * Scale + Value(Frac6(f))
    ensures Finish(i + "." + f) == if v > MaxScaled then Err(TooLarge)
      else Ok(v, (if i == [] then "0" else i) + "." + (if f == [] then "0" else f))
  {
    PadBareDotDecimal(i, f);
    PaddedValue(i, f, v);
    FinishOf(i + "." + f, (if i == [] then "0" else i) + "." + (if f == [] then "0" else f), v);
  }

  /** The text with its bare dot padded is worth what `i.f` is. */
  lemma PaddedValue(i: string, f: string, v: int)
    requires AllDigits(i) && AllDigits(f)
    requires v == Value(i) * Scale + Value(Frac6(f))
    ensures var u := (if i == [] then "0" else i) + "." + (if f == [] then "0" else f);
      IsDecimalString(u) && ScaledValue(u) == v
  {
    var i' := if i == [] then "0" else i;
    var f' := if f == [] then "0" else f;
    DecimalValue(i', f');
    ZeroPadding(i, f);
    SameScaled(Value(i'), Value(i), Value(Frac6(f')), Value(Frac6(f)));
  }

  lemma SameScaled(a: int, b: int, c: int, d: int)
    requires a == b && c == d
    ensures a * Scale + c == b * Scale + d
  {
  }

  /** `i.f` passes the format check and is worth `i` units and the first
      six digits of `f` in millionths. */
  lemma DecimalValue(i: string, f: string)
    requires AllDigits(i) && AllDigits(f) && |i| > 0 && |f| > 0
    ensures IsDecimalString(i + "." + f)
    ensures ScaledValue(i + "." + f) == Value(i) * Scale + Value(Frac6(f))
  {
    DecimalParts(i, f);
  }

  lemma PadBareDotDecimal(i: string, f: string)
    requires AllDigits(i) && AllDigits(f)
    ensures PadBareDot(i + "." + f) == (if i == [] then "0" else i) + "." + (if f == [] then "0" else f)
  {
    var i' := if i == [] then "0" else i;
    var s1 := i' + "." + f;
    assert i == [] ==> "0" + (i + "." + f) == s1;
    assert i != [] ==> (i + "." + f)[0] == i[0] && IsDigit(i[0]);
    assert f != [] ==> s1[|s1| - 1] == f[|f| - 1] && IsDigit(f[|f| - 1]);
    assert f == [] ==> s1[|s1| - 1] == '.';
  }

  /** The `0` put before a bare leading dot or after a bare trailing dot adds
      nothing to the value. */
  lemma ZeroPadding(i: string, f: string)
    requires AllDigits(i) && AllDigits(f)
    ensures Value(if i == [] then "0" else i) == Value(i)
    ensures Value(Frac6(if f == [] then "0" else f)) == Value(Frac6(f))
  {
    if f == [] {
      assert Frac6("0") == seq(6, _ => '0') == Frac6(f);
    }
  }

  lemma FinishOf(t: string, u: string, v: int)
    requires PadBareDot(t) == u && IsDecimalString(u) && ScaledValue(u) == v
    ensures Finish(t) == if v > MaxScaled then Err(TooLarge) else Ok(v, u)
  {
  }

  /** `i.f` passes the format check and splits back into `i` and `f`. */
  lemma DecimalParts(i: string, f: string)
    requires AllDigits(i) && AllDigits(f) && |i| > 0 && |f| > 0
    ensures IsDecimalString(i + "." + f)
    ensures IntPart(i + "." + f) == i && FracPart(i + "." + f) == f
  {
    NoSeparators(i);
    SplitUnique(i + "." + f, i, f, '.');
  }

  /** A whole number: its value times 10^6. */
  lemma FinishInteger(i: string, v: int)
    requires AllDigits(i) && |i| > 0 && v == Value(i) * Scale
    ensures Finish(i) == if v > MaxScaled then Err(TooLarge) else Ok(v, i)
  {
    assert PadBareDot(i) == i && IsDecimalString(i) by {
      NoSeparators(i);
    }
    assert ScaledValue(i) == v by {
      NoSeparators(i);
      Frac6Empty();
    }
    FinishOf(i, i, v);
  }

  // ---------------------------------------------------------------------
  // The separator rules, stated on whole inputs

  predicate DigitsAndCommas(a: string) {
    forall k :: 0 <= k < |a| ==> IsDigit(a[k]) || a[k] == ','
  }

  predicate DigitsAndDots(a: string) {
    forall k :: 0 <= k < |a| ==> IsDigit(a[k]) || a[k] == '.'
  }

  /** Digits with one dot: they stay as they are. */
  lemma ResolveOneDot(y: string)
    requires ',' !in y && Count(y, IsDot) <= 1
    ensures ResolveSeparators(y) == Next(y)
  {
    DropNone(y, IsComma);
  }

  lemma DecimalLayout(a: string, c: string)
    requires '.' !in a && '.' !in c
    ensures Count(a + "." + c, IsDot) == 1
    ensures LastIndexOf(a + "." + c, '.') == |a|
  {
    OneDot(a, c);
    var y := a + "." + c;
    assert y[|a|] == '.';
    assert forall k :: |a| < k < |y| ==> y[k] == c[k - |a| - 1];
  }

  lemma DropAround(a: string, sep: char, c: string, p: char -> bool)
    requires !p(sep) && forall k :: 0 <= k < |c| ==> !p(c[k])
    ensures Drop(a + [sep] + c, p) == Drop(a, p) + [sep] + c
  {
    DropAppend(a + [sep], c, p);
    DropAppend(a, [sep], p);
    DropNone(c, p);
    assert Drop([sep], p) == [sep];
  }

  /** Two texts that the separator rules bring to the same digits and dot
      parse alike. */
  lemma SameResolution(x: string, y: string)
    requires x != [] && AllDigitOrSep(x) && y != [] && AllDigitOrSep(y)
    requires ResolveSeparators(x) == Next(y) && ResolveSeparators(y) == Next(y)
    ensures ParseMoney(x) == ParseMoney(y)
  {
    ParseMoneyPlain(x);
    ParseMoneyPlain(y);
  }

  /** Grouping commas before a decimal dot are ignored:
      "1,234,567.89" reads as "1234567.89". */
  lemma ParseThousands(a: string, c: string)
    requires DigitsAndCommas(a) && ',' in a && AllDigits(c)
    ensures ParseMoney(a + "." + c) == ParseMoney(Drop(a, IsComma) + "." + c)
  {
    ResolveThousands(a, c);
    ThousandsPlain(a, c);
    SameResolution(a + "." + c, Drop(a, IsComma) + "." + c);
  }

  lemma ThousandsPlain(a: string, c: string)
    requires DigitsAndCommas(a) && AllDigits(c)
    ensures AllDigitOrSep(a + "." + c) && AllDigitOrSep(Drop(a, IsComma) + "." + c)
    ensures ResolveSeparators(Drop(a, IsComma) + "." + c) == Next(Drop(a, IsComma) + "." + c)
  {
    JoinPlain(a, '.', c);
    DigitsAfterDrop(a, IsComma);
    DecimalPlain(Drop(a, IsComma), c);
  }

  /** Digits and separators joined by a separator. */
  lemma JoinPlain(a: string, sep: char, c: string)
    requires AllDigitOrSep(a) && AllDigitOrSep(c) && IsDigitOrSep(sep)
    ensures AllDigitOrSep(a + [sep] + c)
  {
    var x := a + [sep] + c;
    forall k | 0 <= k < |x|
      ensures IsDigitOrSep(x[k])
    {
      if k < |a| {
        assert x[k] == a[k];
      } else if k > |a| {
        assert x[k] == c[k - |a| - 1];
      }
    }
  }

  /** Removing the one kind of separator from digits and that separator
      leaves digits. */
  lemma DigitsAfterDrop(a: string, p: char -> bool)
    requires forall k :: 0 <= k < |a| ==> IsDigit(a[k]) || p(a[k])
    ensures AllDigits(Drop(a, p))
  {
    var b := Drop(a, p);
    forall k | 0 <= k < |b|
      ensures IsDigit(b[k])
    {
      assert b[k] in a && !p(b[k]);
    }
  }

  lemma ResolveThousands(a: string, c: string)
    requires DigitsAndCommas(a) && ',' in a && AllDigits(c)
    ensures ResolveSeparators(a + "." + c) == Next(Drop(a, IsComma) + "." + c)
  {
    var x := a + "." + c;
    var y := Drop(a, IsComma) + "." + c;
    NoSeparators(c);
    assert '.' !in a;
    assert '.' !in Drop(a, IsComma);
    DecimalLayout(a, c);
    DecimalLayout(Drop(a, IsComma), c);
    DropAround(a, '.', c, IsComma);
    LastBefore(a, '.', c, ',');
  }

  /** A character that occurs only before a separator is last seen before
      it. */
  lemma LastBefore(a: string, sep: char, c: string, ch: char)
    requires ch in a && ch != sep && ch !in c
    ensures 0 <= LastIndexOf(a + [sep] + c, ch) < |a|
  {
    var x := a + [sep] + c;
    var i :| 0 <= i < |a| && a[i] == ch;
    assert x[i] == ch;
  }

  /** Grouping dots before a decimal comma are ignored and the comma becomes
      the decimal separator: "1.234.567,89" reads as "1234567.89". */
  lemma ParseEuropean(a: string, c: string)
    requires DigitsAndDots(a) && '.' in a && AllDigits(c)
    ensures ParseMoney(a + "," + c) == ParseMoney(Drop(a, IsDot) + "." + c)
  {
    ResolveEuropean(a, c);
    EuropeanSource(a, c);
    EuropeanTarget(a, c);
    SameResolution(a + "," + c, Drop(a, IsDot) + "." + c);
  }

  lemma EuropeanSource(a: string, c: string)
    requires DigitsAndDots(a) && AllDigits(c)
    ensures AllDigitOrSep(a + "," + c)
  {
    JoinPlain(a, ',', c);
  }

  lemma EuropeanTarget(a: string, c: string)
    requires DigitsAndDots(a) && AllDigits(c)
    ensures AllDigitOrSep(Drop(a, IsDot) + "." + c)
    ensures ResolveSeparators(Drop(a, IsDot) + "." + c) == Next(Drop(a, IsDot) + "." + c)
  {
    DigitsAfterDrop(a, IsDot);
    DecimalPlain(Drop(a, IsDot), c);
  }

  lemma ResolveEuropean(a: string, c: string)
    requires DigitsAndDots(a) && '.' in a && AllDigits(c)
    ensures ResolveSeparators(a + "," + c) == Next(Drop(a, IsDot) + "." + c)
  {
    var x := a + "," + c;
    var a' := Drop(a, IsDot);
    var y := a' + "." + c;
    NoSeparators(c);
    assert ',' !in a && ',' !in a' && '.' !in a';
    DropAround(a, ',', c, IsDot);
    var z := a' + "," + c;
    SplitUnique(z, a', c, ',');
    assert ReplaceFirst(z, ',', '.') == y;
    assert x[|a|] == ',';
    assert LastIndexOf(x, ',') == |a| by {
      assert forall k :: |a| < k < |x| ==> x[k] != ',';
    }
    LastBefore(a, ',', c, '.');
    DecimalLayout(a', c);
  }

  /** A lone comma is a decimal separator only with exactly two digits after
      it: "1250,50" reads as "1250.50", "1,5" and "1,234" are rejected. */
  lemma ParseCommaDecimal(a: string, b: string)
    requires AllDigits(a) && AllDigits(b)
    ensures ParseMoney(a + "," + b) == if |b| == 2 then ParseMoney(a + "." + b) else Err(CommaDigits)
  {
    ResolveCommaDecimal(a, b);
    DecimalPlain(a, b);
    CommaPlain(a, b);
    if |b| == 2 {
      SameResolution(a + "," + b, a + "." + b);
    } else {
      ParseMoneyPlain(a + "," + b);
    }
  }

  lemma CommaPlain(a: string, b: string)
    requires AllDigits(a) && AllDigits(b)
    ensures AllDigitOrSep(a + "," + b)
  {
    JoinPlain(a, ',', b);
  }

  /** `i.f` is made of digits and one dot, which the separator rules keep. */
  lemma DecimalPlain(i: string, f: string)
    requires AllDigits(i) && AllDigits(f)
    ensures AllDigitOrSep(i + "." + f)
    ensures ResolveSeparators(i + "." + f) == Next(i + "." + f)
  {
    NoSeparators(i);
    NoSeparators(f);
    JoinPlain(i, '.', f);
    DecimalLayout(i, f);
    ResolveOneDot(i + "." + f);
  }

  lemma ResolveCommaDecimal(a: string, b: string)
    requires AllDigits(a) && AllDigits(b)
    ensures ResolveSeparators(a + "," + b) == if |b| == 2 then Next(a + "." + b) else Stop(CommaDigits)
  {
    var x := a + "," + b;
    NoSeparators(a);
    NoSeparators(b);
    assert '.' !in x;
    SplitUnique(x, a, b, ',');
    OneComma(a, b);
  }

  lemma OneComma(a: string, b: string)
    requires ',' !in a && ',' !in b
    ensures Count(a + "," + b, IsComma) == 1
  {
    CountAppend(a, "," + b, IsComma);
    CountAppend(",", b, IsComma);
    assert a + "," + b == a + ("," + b);
  }

  /** More than one comma and no dot is rejected as ambiguous
      ("1,234,567"). */
  lemma ParseManyCommas(x: string)
    requires DigitsAndCommas(x) && Count(x, IsComma) > 1
    ensures ParseMoney(x) == Err(AmbiguousComma)
  {
    assert '.' !in x;
    assert x != [];
    assert AllDigitOrSep(x);
    ParseMoneyPlain(x);
  }

  /** More than one dot and no comma is rejected ("1.234.567"). */
  lemma ParseManyDots(x: string)
    requires DigitsAndDots(x) && Count(x, IsDot) > 1
    ensures ParseMoney(x) == Err(Unclear)
  {
    assert ',' !in x;
    assert x != [];
    assert AllDigitOrSep(x);
    ParseMoneyPlain(x);
  }

  /** A plain decimal: the integer part times 10^6 plus the first six
      fraction digits, padded with zeros (`Frac6Truncates`: the fraction in
      millionths, truncated); a bare leading or trailing dot counts as a zero
      on that side (".5" is "0.5", "12." is "12.0"). */
  lemma ParseDecimal(i: string, f: string, v: int)
    requires AllDigits(i) && AllDigits(f) && (|i| > 0 || |f| > 0)
    requires v == Value(i) * Scale + Value(Frac6(f))
    ensures ParseMoney(i + "." + f) == if v > MaxScaled then Err(TooLarge)
      else Ok(v, (if i == [] then "0" else i) + "." + (if f == [] then "0" else f))
  {
    DecimalFinish(i, f);
    FinishDecimal(i, f, v);
  }

  lemma DecimalFinish(i: string, f: string)
    requires AllDigits(i) && AllDigits(f)
    ensures ParseMoney(i + "." + f) == Finish(i + "." + f)
  {
    DecimalPlain(i, f);
    ParseMoneyPlain(i + "." + f);
  }

  /** A whole number of units: its value times 10^6. */
  lemma ParseWhole(i: string, v: int)
    requires AllDigits(i) && |i| > 0 && v == Value(i) * Scale
    ensures ParseMoney(i) == if v > MaxScaled then Err(TooLarge) else Ok(v, i)
  {
    assert ParseMoney(i) == Finish(i) by {
      NoSeparators(i);
      assert Count(i, IsDot) == 0;
      ResolveOneDot(i);
      assert AllDigitOrSep(i);
      ParseMoneyPlain(i);
    }
    FinishInteger(i, v);
  }

  /** Currency glyphs, whitespace and other stray characters do not change
      the outcome, unless they include a pair of parentheses. */
  lemma ParseMoneyIgnoresDecoration(x: string)
    requires !('(' in x && ')' in x)
    ensures ParseMoney(x) == ParseMoney(Keep(x, IsNumeric))
  {
    var n := Keep(x, IsNumeric);
    ParseMoneyOnNumeric(x);
    ParseMoneyOnNumeric(n);
    KeepAll(n, IsNumeric);
  }
}
