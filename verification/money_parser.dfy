/** `parseMoneyToScaled` (app/routes/home.tsx): loosely formatted money text
    to an amount in millionths, or the specific message that rejects it. */
module MoneyParser {
  import opened Ints
  import opened Text
  import opened Digits

  /** The parser's rejections; `Message` gives the text the user sees. */
  datatype ParseError =
    | EnterAmount | ExtraSigns | Negative | Unclear
    | AmbiguousDecimal | AmbiguousComma | CommaDigits | BadFormat | TooLarge

  function Message(e: ParseError): string {
    match e
    case EnterAmount => "Enter an amount."
    case ExtraSigns => "That number format looks unclear. Remove extra + or - signs."
    case Negative => "Amount cannot be negative."
    case Unclear => "That number format looks unclear. Try 1250.50 or 1,250.50."
    case AmbiguousDecimal => "That number format is ambiguous. Use only one decimal separator (like 1250.50)."
    case AmbiguousComma => "That comma format is ambiguous. Use a dot for decimals (example: 1250.50)."
    case CommaDigits => "That comma-decimal format is ambiguous. Use 2 digits after the comma (example: 1250,50) or use a dot (1250.50)."
    case BadFormat => "That number format looks unclear. Try 1250.50 or 1,250.50 (and avoid mixed separators)."
    case TooLarge => "That value is extremely large. Please enter a smaller amount (under 1,000,000,000)."
  }

  /** Every rejection comes with text to show. The four helper lemmas below
      group the messages only to keep each proof small for the solver; the
      grouping carries no meaning of its own. */
  lemma MessageNonEmpty(e: ParseError)
    ensures |Message(e)| > 0
  {
    if e.EnterAmount? || e.ExtraSigns? || e.Negative? || e.Unclear? {
      ShortMessages(e);
    } else if e.AmbiguousDecimal? || e.AmbiguousComma? {
      SeparatorMessages(e);
    } else if e.CommaDigits? {
      CommaDigitsMessage();
    } else {
      FormatMessages(e);
    }
  }

  lemma ShortMessages(e: ParseError)
    requires e.EnterAmount? || e.ExtraSigns? || e.Negative? || e.Unclear?
    ensures |Message(e)| > 0
  {
  }

  lemma SeparatorMessages(e: ParseError)
    requires e.AmbiguousDecimal? || e.AmbiguousComma?
    ensures |Message(e)| > 0
  {
  }

  lemma CommaDigitsMessage()
    ensures |Message(CommaDigits)| > 0
  {
  }

  lemma FormatMessages(e: ParseError)
    requires e.BadFormat? || e.TooLarge?
    ensures |Message(e)| > 0
  {
  }

  /** The parser's outcome: the scaled amount with the normalised text it was
      read from, or a rejection. */
  datatype Parsed = Ok(scaled: int, normalized: string) | Err(error: ParseError)

  /** An intermediate stage: the text so far, or an early rejection. */
  datatype Stage = Next(text: string) | Stop(error: ParseError)

  /** One billion, in millionths. */
  const MaxScaled: int := 1000000000 * Scale

  /** The currency glyphs the parser tolerates and strips. */
  predicate IsCurrencyGlyph(c: char) {
    || c == '$' || c == '€' || c == '£' || c == '¥' || c == '₹' || c == '₩'
    || c == '₽' || c == '₫' || c == '₴' || c == '₱' || c == '₦' || c == '₲'
    || c == '₵' || c == '₡' || c == '₺' || c == '₸'
  }

  /** The sanitiser's allow-list: digits, `.`, `,`, `+`, `-`, parentheses,
      whitespace and the currency glyphs. */
  predicate IsAllowed(c: char) {
    || IsDigit(c) || c == '.' || c == ',' || c == '+' || c == '-' || c == '(' || c == ')'
    || IsJsSpace(c) || IsCurrencyGlyph(c)
  }

  predicate IsParen(c: char) { c == '(' || c == ')' }

  predicate IsSign(c: char) { c == '+' || c == '-' }

  predicate IsDot(c: char) { c == '.' }

  predicate IsComma(c: char) { c == ',' }

  /** The characters that survive sanitising and stripping. */
  predicate IsNumeric(c: char) {
    IsDigit(c) || c == '.' || c == ',' || IsSign(c)
  }

  /** The final format check `^\d+(\.\d+)?$`. */
  predicate IsDecimalString(s: string) {
    if '.' in s then
      var parts := SplitAt(s, '.');
      |parts.0| > 0 && |parts.1| > 0 && AllDigits(parts.0) && AllDigits(parts.1)
    else
      |s| > 0 && AllDigits(s)
  }

  /** Integer part and fraction digits of a decimal string (the fraction is
      empty when there is no dot, as `split(".")` leaves it undefined). */
  function IntPart(s: string): (i: string)
    requires IsDecimalString(s)
    ensures AllDigits(i) && |i| > 0
  {
    if '.' in s then SplitAt(s, '.').0 else s
  }

  function FracPart(s: string): (f: string)
    requires IsDecimalString(s)
    ensures AllDigits(f)
    ensures s == if '.' in s then IntPart(s) + "." + f else IntPart(s)
  {
    if '.' in s then SplitAt(s, '.').1 else ""
  }

  /** `intPart * SCALE + fracPart` for a string that passed the format check:
      the fraction is cut to six digits and padded with zeros. */
  function ScaledValue(s: string): (v: nat)
    requires IsDecimalString(s)
  {
    Value(IntPart(s)) * Scale + Value(Frac6(FracPart(s)))
  }

  /** The separator rules: when both `.` and `,` occur the later one is the
      decimal separator and the other is deleted; a lone comma is a decimal
      separator only with exactly two characters after it; otherwise dots are
      the decimal separator and at most one is allowed. */
  function ResolveSeparators(s: string): (r: Stage)
    ensures r.Next? ==> Count(r.text, IsDot) <= 1
    ensures r.Stop? ==> r.error in {AmbiguousDecimal, AmbiguousComma, CommaDigits, Unclear}
  {
    var lastDot := LastIndexOf(s, '.');
    var lastComma := LastIndexOf(s, ',');
    if lastDot != -1 && lastComma != -1 then
      // The later separator is the decimal one; the other one is removed.
      var t := if lastDot > lastComma then Drop(s, IsComma) else ReplaceFirst(Drop(s, IsDot), ',', '.');
      if Count(t, IsDot) > 1 then Stop(AmbiguousDecimal) else Next(t)
    else if lastComma != -1 && lastDot == -1 then
      if Count(s, IsComma) != 1 then Stop(AmbiguousComma)
      else
        var parts := SplitAt(s, ',');
        if |parts.1| != 2 then Stop(CommaDigits)
        else
          var t := parts.0 + "." + parts.1;
          assert '.' !in s;
          assert s == parts.0 + [','] + parts.1;
          assert forall c :: c in parts.0 || c in parts.1 ==> c in s;
          OneDot(parts.0, parts.1);
          Next(t)
    else
      if Count(s, IsDot) > 1 then Stop(Unclear)
      else
        CountDrop(s, IsDot, IsComma);
        Next(Drop(s, IsComma))
  }

  lemma OneDot(a: string, b: string)
    requires '.' !in a && '.' !in b
    ensures Count(a + "." + b, IsDot) == 1
  {
    CountAppend(a, "." + b, IsDot);
    CountAppend(".", b, IsDot);
    assert a + "." + b == a + ("." + b);
  }

  /** `.5` becomes `0.5` and `12.` becomes `12.0`. */
  function PadBareDot(s: string): (r: string)
    ensures r == s || r == "0" + s || r == s + "0" || r == "0" + s + "0"
  {
    var s1 := if |s| > 0 && s[0] == '.' then "0" + s else s;
    if |s1| > 0 && s1[|s1| - 1] == '.' then s1 + "0" else s1
  }

  /** The tail of the parser once the separators are settled. */
  function Finish(t: string): (r: Parsed)
    ensures r.Ok? ==> 0 <= r.scaled <= MaxScaled && IsDecimalString(r.normalized)
    ensures r.Ok? ==> r.scaled == ScaledValue(r.normalized)
    ensures r.Err? ==> r.error == BadFormat || r.error == TooLarge
  {
    var u := PadBareDot(t);
    if !IsDecimalString(u) then Err(BadFormat)
    else
      var scaled := ScaledValue(u);
      if scaled > MaxScaled then Err(TooLarge) else Ok(scaled, u)
  }

  /** `parseMoneyToScaled`: trim, keep the allowed characters, note a
      parenthesised negative, strip parentheses, glyphs and whitespace. */
  function ParseMoney(input: string): (r: Parsed)
    ensures r.Ok? ==> 0 <= r.scaled <= MaxScaled && IsDecimalString(r.normalized)
    ensures r.Ok? ==> r.scaled == ScaledValue(r.normalized)
  {
    var raw := Trim(input);
    if raw == [] then Err(EnterAmount)
    else
      var sanitized := Keep(raw, IsAllowed);
      var isParenNeg := '(' in sanitized && ')' in sanitized && '-' !in sanitized;
      var noParens := Drop(sanitized, IsParen);
      ParseStripped(Drop(Drop(noParens, IsCurrencyGlyph), IsJsSpace), isParenNeg)
  }

  /** The rest of the parser, on the digits, separators and signs that remain:
      nothing left, more than one sign, a negative, then the separators. */
  function ParseStripped(s0: string, isParenNeg: bool): (r: Parsed)
    ensures r.Ok? ==> 0 <= r.scaled <= MaxScaled && IsDecimalString(r.normalized)
    ensures r.Ok? ==> r.scaled == ScaledValue(r.normalized)
  {
    if s0 == [] then Err(EnterAmount)
    else if Count(s0, IsSign) > 1 then Err(ExtraSigns)
    else
      var hasMinus := '-' in s0;
      var s := Drop(s0, IsSign);
      if isParenNeg || hasMinus then Err(Negative) else ParseUnsigned(s)
  }

  /** The separator rules and the format check on the unsigned digits and
      separators; none of the earlier rejections can come from here. */
  function ParseUnsigned(s: string): (r: Parsed)
    ensures r.Ok? ==> 0 <= r.scaled <= MaxScaled && IsDecimalString(r.normalized)
    ensures r.Ok? ==> r.scaled == ScaledValue(r.normalized)
    ensures r.Err? ==> r.error !in {EnterAmount, ExtraSigns, Negative}
  {
    if s == [] then Err(Unclear)
    else
      match ResolveSeparators(s)
      case Stop(e) => Err(e)
      case Next(t) => Finish(t)
  }
}
