/** Validation of the whole form: the gross amount first, then the advanced
    settings in a fixed order, then the note for a gross of zero. */
module Validation {
  import opened Text
  import opened MoneyParser
  import opened Fields

  /** The text of every input, and the chosen frequency. */
  datatype Inputs = Inputs(
    gross: string,
    frequency: Frequency,
    periods: string,
    withholdPct: string,
    pretaxPct: string,
    posttaxPct: string,
    withholdFixed: string,
    pretaxFixed: string,
    posttaxFixed: string,
    extraGross: string)

  /** Whether results are shown, and the message under the form. */
  datatype Verdict = Verdict(ok: bool, message: string)

  const EnterGross := "Enter a gross annual amount."
  const FixAdvanced := "Fix advanced settings to see results."
  const ZeroNote := "A value of 0 converts to 0. If that is not what you intend, enter your gross pay above."

  /** The advanced settings in the order their messages take precedence:
      periods, withholding %, pre-tax %, post-tax %, then the fixed amounts for
      withholding, pre-tax, post-tax and the extra gross on this paycheck. */
  function AdvancedFields(inp: Inputs): (fs: seq<Field>)
    ensures |fs| == 8
    ensures Explained(fs)
  {
    var periods := ResolvePeriods(inp.frequency, inp.periods);
    var withholdPct := ParsePercent(inp.withholdPct, "Withholding %");
    var pretaxPct := ParsePercent(inp.pretaxPct, "Pre-tax %");
    var posttaxPct := ParsePercent(inp.posttaxPct, "Post-tax %");
    var withholdFixed := FixedAmount(inp.withholdFixed);
    var pretaxFixed := FixedAmount(inp.pretaxFixed);
    var posttaxFixed := FixedAmount(inp.posttaxFixed);
    var extraGross := FixedAmount(inp.extraGross);
    ExplainedEight(periods, withholdPct, pretaxPct, posttaxPct,
      withholdFixed, pretaxFixed, posttaxFixed, extraGross);
    [periods, withholdPct, pretaxPct, posttaxPct, withholdFixed, pretaxFixed, posttaxFixed, extraGross]
  }

  /** Every rejection in the list comes with text to show. */
  predicate Explained(fs: seq<Field>) {
    forall i :: 0 <= i < |fs| ==> Explains(fs[i])
  }

  predicate Explains(f: Field) {
    f.Rejected? ==> |f.message| > 0
  }

  lemma ExplainedEight(a: Field, b: Field, c: Field, d: Field, e: Field, f: Field, g: Field, h: Field)
    requires Explains(a) && Explains(b) && Explains(c) && Explains(d)
    requires Explains(e) && Explains(f) && Explains(g) && Explains(h)
    ensures Explained([a, b, c, d, e, f, g, h])
  {
  }

  predicate AllAccepted(fs: seq<Field>) {
    forall i :: 0 <= i < |fs| ==> fs[i].Accepted?
  }

  /** `advancedMessage`: the message of the first rejected setting, or empty
      text when all are accepted. */
  function AdvancedMessage(fs: seq<Field>): string
    requires |fs| == 8
  {
    if fs[0].Rejected? then fs[0].message
    else if fs[1].Rejected? then fs[1].message
    else if fs[2].Rejected? then fs[2].message
    else if fs[3].Rejected? then fs[3].message
    else if fs[4].Rejected? then fs[4].message
    else if fs[5].Rejected? then fs[5].message
    else if fs[6].Rejected? then fs[6].message
    else if fs[7].Rejected? then fs[7].message
    else ""
  }

  /** The message of the first rejection in a list of outcomes. */
  function FirstRejection(fs: seq<Field>): (m: string)
    ensures Explained(fs) ==> (m == "" <==> AllAccepted(fs))
  {
    if fs == [] then ""
    else if fs[0].Rejected? then fs[0].message
    else FirstRejection(fs[1..])
  }

  /** The explicit chain of checks is the first rejection. */
  lemma AdvancedMessageIsFirstRejection(fs: seq<Field>)
    requires |fs| == 8
    ensures AdvancedMessage(fs) == FirstRejection(fs)
  {
    var t1 := fs[1..]; var t2 := t1[1..]; var t3 := t2[1..]; var t4 := t3[1..];
    var t5 := t4[1..]; var t6 := t5[1..]; var t7 := t6[1..]; var t8 := t7[1..];
    assert t1[0] == fs[1] && t2[0] == fs[2] && t3[0] == fs[3] && t4[0] == fs[4];
    assert t5[0] == fs[5] && t6[0] == fs[6] && t7[0] == fs[7] && t8 == [];
    assert FirstRejection(t8) == "";
    FirstRejectionStep(t7); FirstRejectionStep(t6); FirstRejectionStep(t5); FirstRejectionStep(t4);
    FirstRejectionStep(t3); FirstRejectionStep(t2); FirstRejectionStep(t1); FirstRejectionStep(fs);
  }

  lemma FirstRejectionStep(fs: seq<Field>)
    requires fs != []
    ensures FirstRejection(fs) == if fs[0].Rejected? then fs[0].message else FirstRejection(fs[1..])
  {
  }

  /** `validation`, given whether there is any gross text, the parsed gross
      amount and the advanced settings. */
  function Decide(hasInput: bool, gross: Parsed, advanced: seq<Field>): (v: Verdict)
    requires |advanced| == 8
  {
    if !hasInput then Verdict(false, EnterGross)
    else if gross.Err? then Verdict(false, Message(gross.error))
    else if !AllAccepted(advanced) then
      var m := AdvancedMessage(advanced);
      Verdict(false, if m != "" then m else FixAdvanced)
    else if gross.scaled == 0 then Verdict(true, ZeroNote)
    else Verdict(true, "")
  }

  function Validate(inp: Inputs): (v: Verdict) {
    Decide(Trim(inp.gross) != [], ParseMoney(inp.gross), AdvancedFields(inp))
  }

  /** The gross amount as the first check in the list: blank text asks for
      an amount, otherwise the parser decides. */
  function GrossOf(hasInput: bool, gross: Parsed): (f: Field)
    ensures f.Accepted? <==> hasInput && gross.Ok?
    ensures Explains(f)
  {
    if !hasInput then Rejected(EnterGross) else FromParsed(gross)
  }

  function GrossField(inp: Inputs): (f: Field) {
    GrossOf(Trim(inp.gross) != [], ParseMoney(inp.gross))
  }

  /** Results are shown exactly when the gross amount and every advanced
      setting are accepted; otherwise the message is that of the first
      rejection, gross first, so the generic advanced fallback is never
      needed when every rejection explains itself. */
  lemma DecideIsFirstRejection(hasInput: bool, gross: Parsed, advanced: seq<Field>)
    requires |advanced| == 8 && Explained(advanced)
    ensures Decide(hasInput, gross, advanced).ok <==> GrossOf(hasInput, gross).Accepted? && AllAccepted(advanced)
    ensures !Decide(hasInput, gross, advanced).ok ==>
      Decide(hasInput, gross, advanced).message == FirstRejection([GrossOf(hasInput, gross)] + advanced)
  {
    AdvancedMessageIsFirstRejection(advanced);
    assert ([GrossOf(hasInput, gross)] + advanced)[1..] == advanced;
  }

  /** When results are shown the gross amount parsed, and the message is the
      zero note exactly when it is zero. */
  lemma DecideShown(hasInput: bool, gross: Parsed, advanced: seq<Field>)
    requires |advanced| == 8
    ensures Decide(hasInput, gross, advanced).ok ==> hasInput && gross.Ok?
    ensures Decide(hasInput, gross, advanced).ok ==>
      Decide(hasInput, gross, advanced).message == (if gross.scaled == 0 then ZeroNote else "")
  {
  }

  /** `validation` on the form: shown exactly when the gross amount and all
      eight advanced settings are accepted; otherwise the first rejection's
      message, gross first. */
  lemma ValidateIsFirstRejection(inp: Inputs)
    ensures Validate(inp).ok <==> GrossField(inp).Accepted? && AllAccepted(AdvancedFields(inp))
    ensures !Validate(inp).ok ==> Validate(inp).message == FirstRejection([GrossField(inp)] + AdvancedFields(inp))
  {
    DecideIsFirstRejection(Trim(inp.gross) != [], ParseMoney(inp.gross), AdvancedFields(inp));
  }

  /** The note about a zero gross comes with results, and only for a zero
      gross; results otherwise carry no message. */
  lemma ValidateZeroNote(inp: Inputs)
    ensures Validate(inp).ok ==> ParseMoney(inp.gross).Ok?
    ensures Validate(inp).ok ==>
      Validate(inp).message == (if ParseMoney(inp.gross).scaled == 0 then ZeroNote else "")
  {
    DecideShown(Trim(inp.gross) != [], ParseMoney(inp.gross), AdvancedFields(inp));
  }
}
