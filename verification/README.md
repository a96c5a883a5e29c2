# Paycheck calculator: the exact numeric engine

This project models, in Dafny, the numeric engine of the paycheck calculator's
home page (`app/routes/home.tsx`), and proves properties of it. That engine turns
loosely typed money text into whole millionths, computes a paycheck breakdown
with exact BigInt fractions, and renders the figures back as decimal text. The
model covers:

- **Rationals** (`rationals.dfy`, module `Rationals`): `gcdBigInt` (as a
  function and as its loop), `normRational`, `addR`, `subR`, `mulR`, `divR`
  (with its 0/1 answer for a zero divisor), `fromScaledUnits`, and
  `toScaledUnits` with BigInt division truncating toward zero (`Ints.Quot`).
  Each rational is given its exact value `Val(r) = n / d` as a real.
- **The money parser** (`money_parser.dfy`, module `MoneyParser`;
  `money_parser_facts.dfy`, module `MoneyParserFacts`): `parseMoneyToScaled`,
  stage by stage and branch by branch. That covers trimming, the allow-list,
  the parenthesised negative, stripping glyphs and whitespace, the sign
  count, the negative check, the three separator regimes, the bare-dot
  padding, the format check, six-digit truncation and the 10^15 cap. Each
  rejection message is reproduced exactly. The facts module restates the
  parser in terms of the input alone and works through the documented
  examples in general form.
- **Field parsers** (`fields.dfy`, module `Fields`): `parsePercentToScaled`,
  `percentScaledToRatioR`, `isZeroString` with the fixed-amount fast path,
  the periods table and the validation of typed irregular periods.
- **Saved preferences** (`preferences.dfy`, module `Preferences`):
  `safeFrequency`, `safeCurrency` (with `toUpperCase`) and
  `safeDisplayDecimals` (with JavaScript's `Number()` on strings).
- **Form validation** (`validation.dfy`, module `Validation`):
  `advancedOk`, `advancedMessage` and `validation`, including the order of
  precedence among their messages.
- **The pipeline** (`pipeline.dfy`, module `Pipeline`): `annualGrossR`,
  `periodsPerYearR`, `calc` and `netIsNegative`.
- **Display** (`display.dfy`, module `Display`): `roundScaledToDigits`,
  `scaledToDecimalString` (with its `fixed` and `trimTrailingZeros` options)
  and the part of `formatRationalMoney` that builds the decimal text handed
  to the host's formatter.

Supporting modules: `Ints` (powers of ten, divisibility, truncating division),
`Text` (JavaScript whitespace, `trim`, character filters, `lastIndexOf`,
`split`, `padStart`/`padEnd`/`slice`, `toUpperCase`), `Digits` (digit
strings and their values, `toString` of a natural number, the parser's six
fraction digits) and `Wrappers` (`Option`).

With rounding on, `formatRationalMoney` still renders six fraction digits and
leaves the final count to the host's `Intl` formatting (its minimum and maximum
fraction digits). `Display.MoneyTextShape` states that rounded text carries six
fraction digits.

Everything is stated over unbounded `int`, as JavaScript BigInt is unbounded.
The one division that can see a negative numerator (`toScaledUnits` on a
negative net paycheck) truncates toward zero, and the model says so
explicitly. Text is a sequence of `char`.

## Model

| member | source | states |
|---|---|---|
| Ints.Quot | app/routes/home.tsx:197-200 | BigInt `/`: the remainder is smaller than the divisor in magnitude and never has the opposite sign of the dividend (truncation toward zero, not Dafny's Euclidean division) |
| Rationals.GcdBigInt | app/routes/home.tsx:151-160 | the result is positive, divides both arguments when one is non-zero, and every common divisor divides it; 1 when both are zero |
| Rationals.GcdLoop | app/routes/home.tsx:151-160 | the Euclidean loop as written returns a positive greatest common divisor of the magnitudes (the same three facts, proved through loop invariants) |
| Rationals.Norm | app/routes/home.tsx:164-174 | the result is in lowest terms with a positive denominator; a zero denominator gives exactly 0/1; otherwise the value n/d is kept; a zero numerator gives 0/1 |
| Rationals.NormOfNormal | app/routes/home.tsx:164-174 | a rational already in lowest terms with a positive denominator is returned unchanged |
| Rationals.NormalUnique | app/routes/home.tsx:164-174 | two normal rationals of equal value are identical |
| Rationals.NormCanonical | app/routes/home.tsx:164-174 | for non-zero denominators, two fractions normalise to the same rational if and only if they have the same value |
| Rationals.Add | app/routes/home.tsx:176-178 | the result is normal and its value is the exact sum; 0/1 when an operand has a zero denominator |
| Rationals.Sub | app/routes/home.tsx:180-182 | the result is normal and its value is the exact difference; 0/1 when an operand has a zero denominator |
| Rationals.Mul | app/routes/home.tsx:184-186 | the result is normal and its value is the exact product; 0/1 when an operand has a zero denominator |
| Rationals.Div | app/routes/home.tsx:188-191 | the result is normal and its value is the exact quotient when the divisor is non-zero; exactly 0/1 when the divisor's numerator is 0 |
| Rationals.FromScaled | app/routes/home.tsx:193-195 | the fraction has a positive denominator and is worth the amount in millionths divided by 10^6 |
| Rationals.ToScaled | app/routes/home.tsx:197-200 | the result is the value times 10^6 truncated toward zero (for negative values as well); 0 for a zero denominator |
| Rationals.TruncationUnique | app/routes/home.tsx:197-200 | the truncation toward zero of a real is unique, so the contract of `ToScaled` determines its result |
| Rationals.ToScaledFromScaled | app/routes/home.tsx:193-200 | `toScaledUnits(fromScaledUnits(s)) == s` for every integer s, negative included |
| Digits.Value | app/routes/home.tsx:364-365 | `BigInt` of a digit string is a natural number below 10 to the power of its length |
| Digits.NatToString | app/routes/home.tsx:229-232 | `toString()` of a natural number is a digit string with no leading zero whose value is the number |
| Digits.Frac6 | app/routes/home.tsx:361-362 | the first six fraction digits, right-padded with zeros, are exactly six digits |
| Digits.Frac6Truncates | app/routes/home.tsx:360-367 | the six fraction digits are worth the fraction times 10^6 truncated, never rounded |
| Text.Trim | app/routes/home.tsx:267 | `trim()` is a contiguous slice of the text with only whitespace cut from either end, has no whitespace at either end, and is empty exactly when the text is all whitespace |
| Text.TrimIdempotent | app/routes/home.tsx:267 | trimming twice is trimming once |
| Text.Keep | app/routes/home.tsx:270 | the global regex replace leaves only characters in the class, and every character of the class that occurs survives |
| Text.Count | app/routes/home.tsx:282 | the length of a global match counts the matching characters, and is 0 exactly when none match |
| Text.LastIndexOf | app/routes/home.tsx:306-307 | `lastIndexOf` is -1 exactly when the character is absent, and otherwise the position of its last occurrence |
| Text.ReplaceFirst | app/routes/home.tsx:312 | a string-pattern `replace` changes only the first occurrence |
| Text.SplitAt | app/routes/home.tsx:329 | the text is the part before the first separator, the separator, then the rest |
| Text.PadStart | app/routes/home.tsx:229 | `padStart` keeps a long enough text and otherwise pads on the left to the width |
| Text.PadEnd | app/routes/home.tsx:362 | `padEnd` keeps a long enough text and otherwise pads on the right to the width |
| Text.Prefix | app/routes/home.tsx:361 | `slice(0, n)` is the first n characters, or all of them when there are fewer |
| Text.UpperChar | app/routes/home.tsx:134 | `toUpperCase` on one character: a-z become A-Z, dotless i becomes I, long s becomes S, and every other character is kept |
| MoneyParser.MessageNonEmpty | app/routes/home.tsx:268-376 | every rejection of the parser comes with non-empty text |
| MoneyParser.ResolveSeparators | app/routes/home.tsx:306-347 | when the separator rules pass, at most one dot remains; when they reject, the error is one of the four separator messages |
| MoneyParser.PadBareDot | app/routes/home.tsx:349-350 | padding a bare dot only adds a `0` before it, after it, or both |
| MoneyParser.Finish | app/routes/home.tsx:349-378 | after the separators are settled, an accepted amount is in [0, 10^15], its normalised text passes `^\d+(\.\d+)?$` and it is that text's value; a rejection is the format message or the size message |
| MoneyParser.ParseMoney | app/routes/home.tsx:261-379 | every accepted amount lies in [0, 10^15] and equals the value (integer part times 10^6 plus six truncated fraction digits) of the normalised text, which passes the format check |
| MoneyParser.ParseUnsigned | app/routes/home.tsx:299-378 | the separator and format stages produce the same accepted-value facts and never give the empty, sign or negative rejections |
| MoneyParserFacts.StripIsNumeric | app/routes/home.tsx:270-278 | sanitising, then stripping parentheses, glyphs and whitespace, leaves exactly the digits, separators and signs of the text, in order |
| MoneyParserFacts.ParseMoneyOnNumeric | app/routes/home.tsx:267-297 | the outcome depends only on the digits, separators and signs of the input and on whether it holds both parentheses and no minus |
| MoneyParserFacts.ParseMoneyTrim | app/routes/home.tsx:267 | trimming the input first changes nothing |
| MoneyParserFacts.SameNumeric | app/routes/home.tsx:270-297 | two inputs with the same digits, separators and signs and the same parentheses and minus sign parse alike |
| MoneyParserFacts.ParseMoneyStages | app/routes/home.tsx:267-304 | the parser, in terms of the input: nothing numeric is "Enter an amount.", then more than one sign, then a minus or a pair of parentheses is negative, then the separator rules on the digits and separators |
| MoneyParserFacts.ParseMoneyBlank | app/routes/home.tsx:267-280 | "Enter an amount." if and only if the text holds no digit, separator or sign |
| MoneyParserFacts.ParseMoneyExtraSigns | app/routes/home.tsx:282-288 | the extra-signs rejection if and only if the text holds more than one `+` or `-` |
| MoneyParserFacts.ParseMoneyNegative | app/routes/home.tsx:272-297 | the negative rejection if and only if there is something numeric, at most one sign, and a minus or both parentheses |
| MoneyParserFacts.ParseMoneyOkIsNonNegative | app/routes/home.tsx:272-378 | an accepted amount never came from text with a minus, a pair of parentheses or more than one sign, and lies in [0, 10^15] |
| MoneyParserFacts.ParseMoneyIgnoresDecoration | app/routes/home.tsx:270-278 | without a pair of parentheses, glyphs, whitespace and stray characters do not change the outcome |
| MoneyParserFacts.ParseThousands | app/routes/home.tsx:306-319 | grouping commas before a decimal dot are ignored ("1,234.56" parses as "1234.56") |
| MoneyParserFacts.ParseEuropean | app/routes/home.tsx:306-319 | grouping dots before a decimal comma are ignored and the comma is the decimal separator ("1.234,56" parses as "1234.56") |
| MoneyParserFacts.ParseCommaDecimal | app/routes/home.tsx:320-338 | a lone comma is a decimal separator exactly when two digits follow it ("1250,50" parses as "1250.50"); otherwise the comma-digits rejection ("1,2", "1,234") |
| MoneyParserFacts.ParseManyCommas | app/routes/home.tsx:320-328 | digits with more than one comma and no dot get the ambiguous-comma rejection ("1,234,56") |
| MoneyParserFacts.ParseManyDots | app/routes/home.tsx:339-345 | digits with more than one dot and no comma get the unclear rejection |
| MoneyParserFacts.ParseDecimal | app/routes/home.tsx:349-378 | `i.f` is worth i times 10^6 plus the first six digits of f padded with zeros, a bare dot counting as a zero on its side (".5" is 500000, "12." is 12000000), unless that is over 10^15 |
| MoneyParserFacts.ParseWhole | app/routes/home.tsx:360-378 | a digit string is worth its value times 10^6 and is its own normalised text, unless that is over 10^15 |
| Fields.FromParsed | app/routes/home.tsx:683-684 | a parser outcome as a field: accepted exactly when the parser accepted, with its amount; otherwise the parser's own message, which is non-empty |
| Fields.ParsePercent | app/routes/home.tsx:418-444 | an accepted percentage lies in [0, 100 * 10^6]; a rejection has a message |
| Fields.PercentOfParsed | app/routes/home.tsx:429-443 | on any output of the money parser, the negative check never fires: the parser's rejection, else over 100, else accepted |
| Fields.ParsePercentMeaning | app/routes/home.tsx:418-444 | blank text is 0; otherwise the parser's rejection, or "must be 0 to 100" above 100 %, or the parsed amount |
| Fields.ParsePercentAccepted | app/routes/home.tsx:418-444 | a percentage is accepted with value v if and only if the text is blank and v is 0, or it parses to v and v is at most 100 % |
| Fields.PercentRatio | app/routes/home.tsx:446-449 | the ratio is in lowest terms and worth the percentage over 100 * 10^6 |
| Fields.PercentRatioUnit | app/routes/home.tsx:446-449 | an accepted percentage is a ratio in [0, 1]; 0 % is exactly 0/1 and 100 % exactly 1/1 |
| Fields.ZeroPatternParsesToZero | app/routes/home.tsx:451-453 | text matching `^0+(\.0+)?$` is read by the money parser as 0, so the fast path agrees with it |
| Fields.FixedAmount | app/routes/home.tsx:628-650 | an accepted fixed amount lies in [0, 10^15]; a rejection has a message |
| Fields.FixedAmountIsParse | app/routes/home.tsx:628-650 | blank text is 0; any other text is exactly what the money parser makes of it (the zero fast path is only a shortcut) |
| Fields.DefaultPeriods | app/routes/home.tsx:85-93 | a regular frequency has between 12 and 52 paychecks a year |
| Fields.RegularPeriods | app/routes/home.tsx:569-579 | weekly, bi-weekly, semi-monthly and monthly resolve to 52, 26, 24 and 12 periods, in millionths |
| Fields.ResolvePeriods | app/routes/home.tsx:576-611 | accepted periods (in millionths) are a whole number from 1 to 366; a rejection has a message |
| Fields.IrregularPeriodsAccepted | app/routes/home.tsx:576-611 | typed periods are accepted with value v if and only if the text parses to v, a whole number from 1 to 366 |
| Fields.IrregularPeriodsRejected | app/routes/home.tsx:581-608 | a rejection of typed periods is the parser's message, or the zero message for 0, the whole-number message for a fraction, or the unusual-value message for a whole number above 366; the negative check never fires |
| Fields.IrregularPeriodsMeaning | app/routes/home.tsx:581-608 | the full outcome for typed periods in the order the checks run: the parser's rejection, then zero, then not whole (so "400.5" is told to be whole before it is told it is unusual), then above 366, otherwise accepted |
| Preferences.SafeFrequency | app/routes/home.tsx:126-130 | the result is the fallback or the frequency whose name was saved, and a saved name always selects its frequency |
| Preferences.FrequencyRoundTrip | app/routes/home.tsx:126-130 | saving a frequency's name and reading it back gives that frequency |
| Preferences.SafeCurrency | app/routes/home.tsx:132-136 | the result is the fallback or a code on offer; a result other than the fallback is the saved text in capitals |
| Preferences.CurrencyRoundTrip | app/routes/home.tsx:132-136 | saving a code on offer and reading it back gives that code |
| Preferences.CurrencyIgnoresCase | app/routes/home.tsx:132-136 | the saved text's letter case does not matter ("usd" reads as "USD") |
| Preferences.SafeDisplayDecimals | app/routes/home.tsx:138-143 | the result is 0, 2, 4 or 6; saved text whose `Number()` is 0, 2, 4 or 6 selects that value, and a result other than the fallback is the number the saved text denotes |
| Preferences.DisplayDecimalsRoundTrip | app/routes/home.tsx:138-143 | `String(decimals)` for 0, 2, 4 or 6 reads back as the same number of decimals |
| Preferences.BlankDisplayDecimals | app/routes/home.tsx:138-143 | empty or blank saved text is `Number("") == 0`, so it selects 0 decimals rather than the fallback |
| Validation.AdvancedFields | app/routes/home.tsx:652-662 | the eight advanced settings, in precedence order, each rejection with a message |
| Validation.FirstRejection | app/routes/home.tsx:674-690 | for settings whose rejections carry messages, the first rejection's message is empty if and only if all are accepted |
| Validation.AdvancedMessageIsFirstRejection | app/routes/home.tsx:674-690 | the explicit chain of checks in `advancedMessage` is the message of the first rejected setting |
| Validation.GrossOf | app/routes/home.tsx:709-716 | the gross check passes if and only if there is gross text and it parses; a failure has a message |
| Validation.DecideIsFirstRejection | app/routes/home.tsx:709-729 | results are shown if and only if the gross check and all advanced settings pass; otherwise the message is the first rejection's, gross first, so the generic fallback never shows |
| Validation.DecideShown | app/routes/home.tsx:722-729 | shown results come from parsed gross text, and carry the zero note exactly when the gross is 0 |
| Validation.ValidateIsFirstRejection | app/routes/home.tsx:709-729 | `validation` on the form: shown exactly when everything is accepted, otherwise the first rejection's message, gross first |
| Validation.ValidateZeroNote | app/routes/home.tsx:722-729 | when results are shown the gross parsed, and the message is the zero note exactly for a zero gross, else empty |
| Pipeline.AmountsOf | app/routes/home.tsx:739-753 | the amounts handed to `calc` are the parsed gross amount and the resolved periods, in millionths |
| Pipeline.Results | app/routes/home.tsx:739-826 | the breakdown is computed if and only if the form validates |
| Pipeline.ResultsAreReference | app/routes/home.tsx:739-826 | whenever results are shown, every field was accepted and the figures are the reference paycheck arithmetic of the values entered, each from its own field: gross, pay periods, withholding, pre-tax and post-tax percentages, the three fixed amounts and the extra gross |
| Pipeline.FormAmounts | app/routes/home.tsx:739-797 | when the form validates, periods are 1 to 366, the gross is in [0, 10^15], percentages are in [0, 100] and fixed amounts are non-negative |
| Pipeline.Calc | app/routes/home.tsx:755-826 | every figure of the breakdown is a normalised rational |
| Pipeline.CalcIsExact | app/routes/home.tsx:755-826 | each figure's value is the exact real arithmetic of the inputs and the figures before it: gross over periods, pre-tax fixed plus share of gross over periods, taxable base, withholding on the taxable base, post-tax on gross, net, annual, monthly |
| Pipeline.CalcIsReference | app/routes/home.tsx:755-826 | the breakdown's values are an independent real-number reference computation of the same inputs |
| Pipeline.NetAccounting | app/routes/home.tsx:799-813 | in the reference, net = gross - total deductions + extra, annual = net times periods, and 12 months make the annual net |
| Pipeline.NoDeductions | app/routes/home.tsx:758-813 | with no deductions or extra, net per paycheck is the annual gross over the periods and the annual net is the annual gross |
| Pipeline.NetAtMostGross | app/routes/home.tsx:766-805 | with non-negative fixed amounts and withholding at most 100 %, net never exceeds gross plus extra, even when pre-tax exceeds gross |
| Pipeline.NetFallsWithWithholding | app/routes/home.tsx:771-805 | raising the annual fixed withholding never raises the net paycheck |
| Pipeline.CalcAccounting | app/routes/home.tsx:799-813 | the computed net is the gross paycheck less the total deductions plus the extra, and 12 monthly nets make the annual net |
| Pipeline.CalcNoDeductions | app/routes/home.tsx:755-826 | computed with no deductions or extra: total deductions 0, net = annual gross over periods, annual net = annual gross |
| Pipeline.CalcNetAtMostGross | app/routes/home.tsx:755-826 | for accepted settings the computed net paycheck is at most the gross paycheck plus the extra gross |
| Pipeline.CalcNetFallsWithWithholding | app/routes/home.tsx:771-805 | the computed net paycheck does not rise when the fixed withholding rises |
| Pipeline.ResultsNetAtMostGross | app/routes/home.tsx:739-826 | whenever results are shown, net per paycheck is at most gross per paycheck plus the extra gross |
| Pipeline.NetIsNegativeMeaning | app/routes/home.tsx:839-842 | the negative-net warning shows exactly when the net paycheck is at least one millionth below zero; a smaller shortfall truncates to 0 |
| Display.ClampDigits | app/routes/home.tsx:207 | the digits are clamped into [0, 6] and unchanged inside it |
| Display.RoundScaledToDigits | app/routes/home.tsx:206-217 | the result is a multiple of 10^(6-d), within half a step of the input, ties away from zero, and never takes a sign the input does not have |
| Display.RoundIsNearest | app/routes/home.tsx:206-217 | no multiple of the step is closer to the input than the rounded value |
| Display.RoundKeepsMultiples | app/routes/home.tsx:206-217 | a multiple of the step is left unchanged |
| Display.RoundIdempotent | app/routes/home.tsx:206-217 | rounding twice is rounding once |
| Display.RoundAtSix | app/routes/home.tsx:206-217 | with six or more digits nothing is rounded |
| Display.RoundSymmetric | app/routes/home.tsx:206-217 | round(-s) == -round(s) |
| Display.DropTrailingZeros | app/routes/home.tsx:235-237 | the result is a prefix of the fraction, everything cut is a zero, and it does not end in a zero |
| Display.ScaledToDecimalString | app/routes/home.tsx:219-250 | the text is non-empty and starts with a minus sign exactly for a negative amount |
| Display.TruncateTo | app/routes/home.tsx:225-230 | reference for cutting digits: a multiple of the step, less than a step from the input, toward zero |
| Display.ReadScaledToDecimalString | app/routes/home.tsx:219-250 | the text reads back as the amount truncated toward zero to the digits shown, whatever the options |
| Display.ReadExactAtSix | app/routes/home.tsx:219-250 | with six digits the text reads back as exactly the amount |
| Display.ParseScaledToDecimalString | app/routes/home.tsx:219-250 | the money parser reads the text of a non-negative amount up to 10^15 back as the amount truncated to the digits shown, with the text as its normalised form, and rejects the text of a negative amount as negative |
| Display.FractionWidth | app/routes/home.tsx:229-247 | with 0 digits there is no dot; with d > 0 digits and no trimming (or with `fixed`) exactly d digits follow the dot |
| Display.WholeDigits | app/routes/home.tsx:225-249 | after the sign, the text starts with `intPart.toString()` of the magnitude (its whole units, with no leading zero), followed by nothing or by the dot |
| Display.TrimmedFraction | app/routes/home.tsx:235-237 | trimmed text never ends its fraction in a zero, and a fraction of zeros loses its dot |
| Display.ShownValue | app/routes/home.tsx:225-247 | the unsigned text, under every combination of options, is worth the magnitude truncated to a multiple of 10^(6-d) |
| Display.TrimKeepsValue | app/routes/home.tsx:235-237 | trimming zeros does not change the value of the text |
| Display.FixKeepsValue | app/routes/home.tsx:240-246 | padding to d fraction digits does not change the value of the text |
| Display.MoneyText | app/routes/home.tsx:845-856 | a missing figure shows the em dash placeholder |
| Display.MoneyTextValue | app/routes/home.tsx:845-856 | the decimal text reads back as the figure times 10^6 truncated toward zero, rounded to the chosen decimals when rounding is on |
| Display.MoneyTextShape | app/routes/home.tsx:849-856 | rounded text has all six fraction digits; unrounded text never ends its fraction in a zero |

## Left out

- `formatMoneyFromDecimalString` and `formatGroupedNumberFromDecimalString` (app/routes/home.tsx:381-407), and the grouped input display: they convert to a float and call the host's `Intl.NumberFormat`. The model stops at the decimal text handed to them.
- `safeJsonParseBoolean` (app/routes/home.tsx:116-124): it rests on `JSON.parse`. The rounding flag is a plain `bool` parameter instead.
- `safeEnvIsDev` and the development self-check (app/routes/home.tsx:409-416, 888-909): they are environment probing and console output. Its parser cases appear here as the general parser lemmas.
- React state, effects and rendering, and `localStorage` reads and writes (app/routes/home.tsx:455-560 and the JSX): each input is a plain value, and a saved preference is an `Option<string>` with `None` for a missing key.
- The static pages, navigation, routing and analytics provider: they contain no logic.
- Preferences.SafeDisplayDecimals: `Number()` is modelled as the exact value of the decimal, hex, octal or binary literal, not as the nearest IEEE double. A text such as "2.0000000000000001", which JavaScript rounds to 2, falls back to the default here. `Infinity` and numeric separators are left out; both fall back in JavaScript as well.
- Text.UpperChar: only the mappings that can produce an ASCII capital are modelled. Other characters keep their case, which cannot change whether the result is a listed code.
- Characters are Unicode scalar values rather than UTF-16 code units. Every glyph in the parser's allow-list is in the Basic Multilingual Plane, so the sanitiser removes the same characters either way.
- The `?? 0n` and `?? "…"` fallbacks of `calc`, `advancedMessage` and the field parsers are not modelled: every accepted field carries an amount and every rejection carries a non-empty message (proved above), so they never apply.
- The `Number(p.scaled / SCALE)` range check for typed periods is an integer comparison. Accepted values are at most 10^9, which a double holds exactly.
- `digits` in `roundScaledToDigits` and `scaledToDecimalString` is an integer. A fractional `digits` would make `BigInt` throw in the source; the page only passes 0, 2, 4 and 6.
- The branch of `scaledToDecimalString` for text that fails the `fixed` regex is not modelled: the text built just before always matches it.
- `scaledToDecimalString` with fewer than six digits renders a small negative amount as "-0" or "-0.00", since the sign is taken before truncation. The model reproduces this. `formatRationalMoney` only ever asks for six digits, so it never happens on the page.
- Display.MoneyText: its own contract covers only the missing figure. What the text is worth and how it looks are stated by `Display.MoneyTextValue` and `Display.MoneyTextShape`.
- Display.ScaledToDecimalString: its own contract states only the sign. Its value, its read-back through the money parser, its whole digits and its fraction width are the lemmas `Display.ReadScaledToDecimalString`, `Display.ParseScaledToDecimalString`, `Display.WholeDigits` and `Display.FractionWidth`.
- Pipeline.Calc: its own contract states only that every figure is normalised. The figures' values are stated by `Pipeline.CalcIsExact` and `Pipeline.CalcIsReference`.
