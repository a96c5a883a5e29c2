/** The paycheck breakdown (`calc` in app/routes/home.tsx): exact rational
    arithmetic from the accepted inputs to the per-paycheck, annual and
    monthly figures, and the negative-net warning. */
module Pipeline {
  import opened Ints
  import opened Text
  import opened Rationals
  import opened MoneyParser
  import opened Fields
  import opened Validation
  import opened Wrappers

  /** The accepted inputs, each in millionths (percentages in millionths of a
      percent). */
  datatype Amounts = Amounts(
    gross: int,
    periods: int,
    withholdPct: int,
    pretaxPct: int,
    posttaxPct: int,
    withholdFixed: int,
    pretaxFixed: int,
    posttaxFixed: int,
    extraGross: int)

  /** The figures `calc` returns, as exact fractions. */
  datatype Breakdown = Breakdown(
    grossPerPaycheck: Rational,
    pretaxPerPaycheck: Rational,
    taxableBase: Rational,
    withholdingPerPaycheck: Rational,
    posttaxPerPaycheck: Rational,
    extraGross: Rational,
    totalDeductionsPerPaycheck: Rational,
    netPerPaycheck: Rational,
    annualNet: Rational,
    monthlyNet: Rational)

  /** `calc`: pre-tax deductions come off before the withholding percentage
      applies; post-tax percentages apply to the gross paycheck; fixed
      amounts are annual and spread over the periods; the extra gross is
      added to this paycheck only. Each figure is its own function below. */
  function Calc(a: Amounts): (b: Breakdown)
    ensures Wellformed(b)
  {
    Breakdown(GrossPerPaycheck(a), PretaxPerPaycheck(a), TaxableBase(a), WithholdingPerPaycheck(a),
      PosttaxPerPaycheck(a), FromScaled(a.extraGross), TotalDeductions(a), NetPerPaycheck(a),
      AnnualNet(a), MonthlyNet(a))
  }

  function Periods(a: Amounts): Rational {
    FromScaled(a.periods)
  }

  function GrossPerPaycheck(a: Amounts): (r: Rational)
    ensures IsNormal(r)
  {
    Div(FromScaled(a.gross), Periods(a))
  }

  function PretaxPerPaycheck(a: Amounts): (r: Rational)
    ensures IsNormal(r)
  {
    Div(Add(FromScaled(a.pretaxFixed), Mul(FromScaled(a.gross), PercentRatio(a.pretaxPct))), Periods(a))
  }

  function TaxableBase(a: Amounts): (r: Rational)
    ensures IsNormal(r)
  {
    Sub(GrossPerPaycheck(a), PretaxPerPaycheck(a))
  }

  function WithholdingPerPaycheck(a: Amounts): (r: Rational)
    ensures IsNormal(r)
  {
    Add(Div(FromScaled(a.withholdFixed), Periods(a)), Mul(TaxableBase(a), PercentRatio(a.withholdPct)))
  }

  function PosttaxPerPaycheck(a: Amounts): (r: Rational)
    ensures IsNormal(r)
  {
    Add(Div(FromScaled(a.posttaxFixed), Periods(a)), Mul(GrossPerPaycheck(a), PercentRatio(a.posttaxPct)))
  }

  function NetPerPaycheck(a: Amounts): (r: Rational)
    ensures IsNormal(r)
  {
    Add(Sub(Sub(Sub(GrossPerPaycheck(a), PretaxPerPaycheck(a)), WithholdingPerPaycheck(a)),
      PosttaxPerPaycheck(a)), FromScaled(a.extraGross))
  }

  function AnnualNet(a: Amounts): (r: Rational)
    ensures IsNormal(r)
  {
    Mul(NetPerPaycheck(a), Periods(a))
  }

  function MonthlyNet(a: Amounts): (r: Rational)
    ensures IsNormal(r)
  {
    Div(AnnualNet(a), Rational(12, 1))
  }

  function TotalDeductions(a: Amounts): (r: Rational)
    ensures IsNormal(r)
  {
    Sub(Add(Add(PretaxPerPaycheck(a), WithholdingPerPaycheck(a)), PosttaxPerPaycheck(a)), Rational(0, 1))
  }

  /** Every figure has a positive denominator; all but the extra gross (kept
      as given, over 10^6) are in lowest terms. */
  predicate Wellformed(b: Breakdown) {
    && IsNormal(b.grossPerPaycheck) && IsNormal(b.pretaxPerPaycheck) && IsNormal(b.taxableBase)
    && IsNormal(b.withholdingPerPaycheck) && IsNormal(b.posttaxPerPaycheck) && b.extraGross.d > 0
    && IsNormal(b.totalDeductionsPerPaycheck) && IsNormal(b.netPerPaycheck)
    && IsNormal(b.annualNet) && IsNormal(b.monthlyNet)
  }

  // ---------------------------------------------------------------------
  // The figures as real numbers

  /** The figures' exact values. */
  datatype Figures = Figures(
    grossPerPaycheck: real,
    pretaxPerPaycheck: real,
    taxableBase: real,
    withholdingPerPaycheck: real,
    posttaxPerPaycheck: real,
    extraGross: real,
    totalDeductionsPerPaycheck: real,
    netPerPaycheck: real,
    annualNet: real,
    monthlyNet: real)

  ghost function Values(b: Breakdown): Figures
    requires Wellformed(b)
  {
    Figures(Val(b.grossPerPaycheck), Val(b.pretaxPerPaycheck), Val(b.taxableBase),
      Val(b.withholdingPerPaycheck), Val(b.posttaxPerPaycheck), Val(b.extraGross),
      Val(b.totalDeductionsPerPaycheck), Val(b.netPerPaycheck), Val(b.annualNet), Val(b.monthlyNet))
  }

  /** The paycheck arithmetic as the calculator describes it, on real
      numbers: `gross` a year over `periods` paychecks, shares of one for the
      three percentages, annual fixed amounts, and the extra gross on this
      paycheck. Pre-tax deductions are a fixed amount plus a share of the
      annual gross; withholding is a fixed amount plus a share of what is
      left after them; post-tax deductions are a fixed amount plus a share of
      the gross paycheck; the annual amounts are spread evenly. */
  ghost function Reference(gross: real, periods: real, withholdShare: real, pretaxShare: real,
    posttaxShare: real, withholdFixed: real, pretaxFixed: real, posttaxFixed: real, extra: real): Figures
    requires periods != 0.0
  {
    var g := gross / periods;
    var pre := pretaxFixed / periods + Times(gross, pretaxShare) / periods;
    var taxable := g - pre;
    var w := withholdFixed / periods + Times(taxable, withholdShare);
    var post := posttaxFixed / periods + Times(g, posttaxShare);
    var total := pre + w + post;
    var net := g - total + extra;
    Figures(g, pre, taxable, w, post, extra, total, net, Times(net, periods), Times(net, periods) / 12.0)
  }

  /** The reference figures for the inputs' exact values. */
  ghost function ReferenceFor(a: Amounts): Figures
    requires a.periods > 0
  {
    PeriodsValue(a);
    Reference(Val(FromScaled(a.gross)), Val(Periods(a)), Val(PercentRatio(a.withholdPct)),
      Val(PercentRatio(a.pretaxPct)), Val(PercentRatio(a.posttaxPct)), Val(FromScaled(a.withholdFixed)),
      Val(FromScaled(a.pretaxFixed)), Val(FromScaled(a.posttaxFixed)), Val(FromScaled(a.extraGross)))
  }

  lemma PeriodsValue(a: Amounts)
    requires a.periods > 0
    ensures Periods(a).d > 0 && Periods(a).n != 0 && Val(Periods(a)) > 0.0
  {
  }

  /** The inputs' exact values are the amounts in millionths and the
      percentages in millionths of a percent, read as real numbers. */
  lemma InputValues(a: Amounts)
    ensures Val(FromScaled(a.gross)) == a.gross as real / Scale as real
    ensures Val(Periods(a)) == a.periods as real / Scale as real
    ensures Val(PercentRatio(a.withholdPct)) == a.withholdPct as real / Hundred as real
    ensures Val(PercentRatio(a.pretaxPct)) == a.pretaxPct as real / Hundred as real
    ensures Val(PercentRatio(a.posttaxPct)) == a.posttaxPct as real / Hundred as real
  {
  }

  /** For any positive number of periods, each exact fraction `calc`
      produces is the real figure computed from the inputs and the figures
      before it: no rounding happens anywhere in `calc`. */
  lemma CalcIsExact(a: Amounts)
    requires a.periods > 0
    ensures Val(Periods(a)) != 0.0
    ensures Val(GrossPerPaycheck(a)) == Val(FromScaled(a.gross)) / Val(Periods(a))
    ensures Val(PretaxPerPaycheck(a))
      == Val(FromScaled(a.pretaxFixed)) / Val(Periods(a)) + Times(Val(FromScaled(a.gross)), Val(PercentRatio(a.pretaxPct))) / Val(Periods(a))
    ensures Val(TaxableBase(a)) == Val(GrossPerPaycheck(a)) - Val(PretaxPerPaycheck(a))
    ensures Val(WithholdingPerPaycheck(a))
      == Val(FromScaled(a.withholdFixed)) / Val(Periods(a)) + Times(Val(TaxableBase(a)), Val(PercentRatio(a.withholdPct)))
    ensures Val(PosttaxPerPaycheck(a))
      == Val(FromScaled(a.posttaxFixed)) / Val(Periods(a)) + Times(Val(GrossPerPaycheck(a)), Val(PercentRatio(a.posttaxPct)))
    ensures Val(TotalDeductions(a))
      == Val(PretaxPerPaycheck(a)) + Val(WithholdingPerPaycheck(a)) + Val(PosttaxPerPaycheck(a))
    ensures Val(NetPerPaycheck(a)) == Val(GrossPerPaycheck(a))
      - (Val(PretaxPerPaycheck(a)) + Val(WithholdingPerPaycheck(a)) + Val(PosttaxPerPaycheck(a)))
      + Val(FromScaled(a.extraGross))
    ensures Val(AnnualNet(a)) == Times(Val(NetPerPaycheck(a)), Val(Periods(a)))
    ensures Val(MonthlyNet(a)) == Val(AnnualNet(a)) / 12.0
  {
    GrossExact(a);
    PretaxExact(a);
    TaxableExact(a);
    WithholdingExact(a);
    PosttaxExact(a);
    TotalExact(a);
    NetExact(a);
    AnnualExact(a);
    MonthlyExact(a);
  }

  lemma GrossExact(a: Amounts)
    requires a.periods > 0
    ensures Val(Periods(a)) != 0.0
    ensures Val(GrossPerPaycheck(a)) == Val(FromScaled(a.gross)) / Val(Periods(a))
  {
    PeriodsValue(a);
    Quotient(FromScaled(a.gross), Periods(a));
  }

  lemma PretaxExact(a: Amounts)
    requires a.periods > 0
    ensures Val(Periods(a)) != 0.0
    ensures Val(PretaxPerPaycheck(a))
      == Val(FromScaled(a.pretaxFixed)) / Val(Periods(a)) + Times(Val(FromScaled(a.gross)), Val(PercentRatio(a.pretaxPct))) / Val(Periods(a))
  {
    PeriodsValue(a);
    ShareOver(FromScaled(a.pretaxFixed), FromScaled(a.gross), PercentRatio(a.pretaxPct), Periods(a));
  }

  lemma TaxableExact(a: Amounts)
    ensures Val(TaxableBase(a)) == Val(GrossPerPaycheck(a)) - Val(PretaxPerPaycheck(a))
  {
    Difference(GrossPerPaycheck(a), PretaxPerPaycheck(a));
  }

  lemma WithholdingExact(a: Amounts)
    requires a.periods > 0
    ensures Val(Periods(a)) != 0.0
    ensures Val(WithholdingPerPaycheck(a))
      == Val(FromScaled(a.withholdFixed)) / Val(Periods(a)) + Times(Val(TaxableBase(a)), Val(PercentRatio(a.withholdPct)))
  {
    PeriodsValue(a);
    FixedPlusShare(FromScaled(a.withholdFixed), Periods(a), TaxableBase(a), PercentRatio(a.withholdPct));
  }

  lemma PosttaxExact(a: Amounts)
    requires a.periods > 0
    ensures Val(Periods(a)) != 0.0
    ensures Val(PosttaxPerPaycheck(a))
      == Val(FromScaled(a.posttaxFixed)) / Val(Periods(a)) + Times(Val(GrossPerPaycheck(a)), Val(PercentRatio(a.posttaxPct)))
  {
    PeriodsValue(a);
    FixedPlusShare(FromScaled(a.posttaxFixed), Periods(a), GrossPerPaycheck(a), PercentRatio(a.posttaxPct));
  }

  lemma TotalExact(a: Amounts)
    ensures Val(TotalDeductions(a))
      == Val(PretaxPerPaycheck(a)) + Val(WithholdingPerPaycheck(a)) + Val(PosttaxPerPaycheck(a))
  {
    SumOfThree(PretaxPerPaycheck(a), WithholdingPerPaycheck(a), PosttaxPerPaycheck(a));
  }

  lemma NetExact(a: Amounts)
    ensures Val(NetPerPaycheck(a)) == Val(GrossPerPaycheck(a))
      - (Val(PretaxPerPaycheck(a)) + Val(WithholdingPerPaycheck(a)) + Val(PosttaxPerPaycheck(a)))
      + Val(FromScaled(a.extraGross))
  {
    NetOf(GrossPerPaycheck(a), PretaxPerPaycheck(a), WithholdingPerPaycheck(a), PosttaxPerPaycheck(a),
      FromScaled(a.extraGross));
  }

  lemma AnnualExact(a: Amounts)
    ensures Val(AnnualNet(a)) == Times(Val(NetPerPaycheck(a)), Val(Periods(a)))
  {
    Product(NetPerPaycheck(a), Periods(a));
  }

  lemma MonthlyExact(a: Amounts)
    ensures Val(MonthlyNet(a)) == Val(AnnualNet(a)) / 12.0
  {
    Twelfth(AnnualNet(a));
  }

  /** Hence the exact fractions are the reference figures for the inputs'
      exact values. */
  lemma CalcIsReference(a: Amounts)
    requires a.periods > 0
    ensures Values(Calc(a)) == ReferenceFor(a)
  {
    CalcIsExact(a);
    FractionsAreReference(GrossPerPaycheck(a), PretaxPerPaycheck(a), TaxableBase(a),
      WithholdingPerPaycheck(a), PosttaxPerPaycheck(a), TotalDeductions(a),
      NetPerPaycheck(a), AnnualNet(a), MonthlyNet(a),
      FromScaled(a.gross), Periods(a), PercentRatio(a.withholdPct),
      PercentRatio(a.pretaxPct), PercentRatio(a.posttaxPct), FromScaled(a.withholdFixed),
      FromScaled(a.pretaxFixed), FromScaled(a.posttaxFixed), FromScaled(a.extraGross));
  }

  lemma FractionsAreReference(g: Rational, pre: Rational, t: Rational, w: Rational, post: Rational,
    total: Rational, net: Rational, annual: Rational, monthly: Rational,
    gross: Rational, periods: Rational, ws: Rational, ps: Rational, qs: Rational, wf: Rational,
    pf: Rational, qf: Rational, extra: Rational)
    requires g.d > 0 && pre.d > 0 && t.d > 0 && w.d > 0 && post.d > 0 && total.d > 0 && net.d > 0
    requires annual.d > 0 && monthly.d > 0 && gross.d > 0 && periods.d > 0 && ws.d > 0 && ps.d > 0
    requires qs.d > 0 && wf.d > 0 && pf.d > 0 && qf.d > 0 && extra.d > 0
    requires Val(periods) != 0.0
    requires Val(g) == Val(gross) / Val(periods)
    requires Val(pre) == Val(pf) / Val(periods) + Times(Val(gross), Val(ps)) / Val(periods)
    requires Val(t) == Val(g) - Val(pre)
    requires Val(w) == Val(wf) / Val(periods) + Times(Val(t), Val(ws))
    requires Val(post) == Val(qf) / Val(periods) + Times(Val(g), Val(qs))
    requires Val(total) == Val(pre) + Val(w) + Val(post)
    requires Val(net) == Val(g) - (Val(pre) + Val(w) + Val(post)) + Val(extra)
    requires Val(annual) == Times(Val(net), Val(periods))
    requires Val(monthly) == Val(annual) / 12.0
    ensures Figures(Val(g), Val(pre), Val(t), Val(w), Val(post), Val(extra), Val(total), Val(net), Val(annual), Val(monthly))
      == Reference(Val(gross), Val(periods), Val(ws), Val(ps), Val(qs), Val(wf), Val(pf), Val(qf), Val(extra))
  {
  }

  /** A product of two exact values, kept as one term so that the
      statements above and the lemmas that use them name it the same way. */
  ghost function Times(x: real, y: real): real {
    x * y
  }

  lemma Quotient(x: Rational, p: Rational)
    requires x.d > 0 && p.d > 0 && p.n != 0 && Val(p) != 0.0
    ensures Val(Div(x, p)) == Val(x) / Val(p)
  {
  }

  lemma Difference(x: Rational, y: Rational)
    requires x.d > 0 && y.d > 0
    ensures Val(Sub(x, y)) == Val(x) - Val(y)
  {
  }

  /** A fixed annual amount plus a share of another, per period. */
  lemma ShareOver(fixed: Rational, base: Rational, share: Rational, periods: Rational)
    requires fixed.d > 0 && base.d > 0 && share.d > 0 && periods.d > 0 && periods.n != 0 && Val(periods) != 0.0
    ensures Val(Div(Add(fixed, Mul(base, share)), periods)) == Val(fixed) / Val(periods) + Times(Val(base), Val(share)) / Val(periods)
  {
    Product(base, share);
    Quotient(Add(fixed, Mul(base, share)), periods);
    DivideSum(Val(fixed), Times(Val(base), Val(share)), Val(periods));
  }

  lemma DivideSum(x: real, y: real, p: real)
    requires p != 0.0
    ensures (x + y) / p == x / p + y / p
  {
  }

  /** A fixed annual amount per period plus a share of a per-period figure. */
  lemma FixedPlusShare(fixed: Rational, periods: Rational, base: Rational, share: Rational)
    requires fixed.d > 0 && base.d > 0 && share.d > 0 && periods.d > 0 && periods.n != 0 && Val(periods) != 0.0
    ensures Val(Add(Div(fixed, periods), Mul(base, share))) == Val(fixed) / Val(periods) + Times(Val(base), Val(share))
  {
  }

  /** Sums and differences of the figures. */
  lemma SumOfThree(x: Rational, y: Rational, z: Rational)
    requires x.d > 0 && y.d > 0 && z.d > 0
    ensures Val(Sub(Add(Add(x, y), z), Rational(0, 1))) == Val(x) + Val(y) + Val(z)
  {
  }

  lemma NetOf(g: Rational, x: Rational, y: Rational, z: Rational, e: Rational)
    requires g.d > 0 && x.d > 0 && y.d > 0 && z.d > 0 && e.d > 0
    ensures Val(Add(Sub(Sub(Sub(g, x), y), z), e)) == Val(g) - (Val(x) + Val(y) + Val(z)) + Val(e)
  {
  }

  lemma Product(x: Rational, y: Rational)
    requires x.d > 0 && y.d > 0
    ensures Val(Mul(x, y)) == Times(Val(x), Val(y))
  {
  }

  lemma Twelfth(x: Rational)
    requires x.d > 0
    ensures Val(Div(x, Rational(12, 1))) == Val(x) / 12.0
  {
    assert Val(Rational(12, 1)) == 12.0;
  }

  // ---------------------------------------------------------------------
  // Properties of the figures, on real numbers

  /** The net paycheck is the gross paycheck less the total deductions plus
      the extra gross; over a year it is the net paycheck times the periods,
      and a month is a twelfth of the year. */
  lemma NetAccounting(gross: real, periods: real, ws: real, ps: real, qs: real, wf: real, pf: real, qf: real, extra: real)
    requires periods != 0.0
    ensures var f := Reference(gross, periods, ws, ps, qs, wf, pf, qf, extra);
      && f.netPerPaycheck == f.grossPerPaycheck - f.totalDeductionsPerPaycheck + f.extraGross
      && f.annualNet == f.netPerPaycheck * periods
      && f.monthlyNet * 12.0 == f.annualNet
  {
  }

  /** With no deductions and no extra gross, the net paycheck is the annual
      gross divided by the periods, and the annual net is the annual gross. */
  lemma NoDeductions(gross: real, periods: real)
    requires periods != 0.0
    ensures Reference(gross, periods, 0.0, 0.0, 0.0, 0.0, 0.0, 0.0, 0.0).totalDeductionsPerPaycheck == 0.0
    ensures Reference(gross, periods, 0.0, 0.0, 0.0, 0.0, 0.0, 0.0, 0.0).netPerPaycheck == gross / periods
    ensures Reference(gross, periods, 0.0, 0.0, 0.0, 0.0, 0.0, 0.0, 0.0).annualNet == gross
  {
    QuotientTimes(gross, periods);
  }

  lemma QuotientTimes(x: real, p: real)
    requires p != 0.0
    ensures x / p * p == x
  {
  }

  /** With non-negative fixed deductions and shares between 0 and 1, the net
      paycheck never exceeds the gross paycheck plus the extra gross, even
      when pre-tax deductions exceed the gross pay. */
  lemma NetAtMostGross(gross: real, periods: real, ws: real, ps: real, qs: real, wf: real, pf: real, qf: real, extra: real)
    requires periods > 0.0 && gross >= 0.0
    requires 0.0 <= ws <= 1.0 && 0.0 <= ps && 0.0 <= qs
    requires wf >= 0.0 && pf >= 0.0 && qf >= 0.0
    ensures var f := Reference(gross, periods, ws, ps, qs, wf, pf, qf, extra);
      f.netPerPaycheck <= f.grossPerPaycheck + extra
  {
    var g := gross / periods;
    var pre := pf / periods + Times(gross, ps) / periods;
    var post := qf / periods + Times(g, qs);
    NonNegativeOver(gross, periods);
    NonNegativeOver(pf, periods);
    NonNegativeOver(qf, periods);
    NonNegativeOver(wf, periods);
    NonNegativeProduct(gross, ps);
    NonNegativeOver(Times(gross, ps), periods);
    NonNegativeProduct(g, qs);
    NetBound(g, pre, ws, wf / periods, post, extra);
  }

  lemma NonNegativeOver(x: real, p: real)
    requires x >= 0.0 && p > 0.0
    ensures x / p >= 0.0
  {
  }

  lemma NonNegativeProduct(x: real, y: real)
    requires x >= 0.0 && y >= 0.0
    ensures Times(x, y) >= 0.0
  {
  }

  /** The algebra behind the bound: the net is the taxable base kept after
      withholding, less the other deductions. */
  lemma NetBound(gross: real, pretax: real, w: real, fixed: real, posttax: real, extra: real)
    requires gross >= 0.0 && pretax >= 0.0 && 0.0 <= w <= 1.0 && fixed >= 0.0 && posttax >= 0.0
    ensures gross - (pretax + (fixed + Times(gross - pretax, w)) + posttax) + extra <= gross + extra
  {
    var t := gross - pretax;
    if t >= 0.0 {
      NonNegativeProduct(t, w);
    } else {
      ShareOfLoss(t, w);
    }
  }

  /** A share of a negative base is no further below zero than the base. */
  lemma ShareOfLoss(t: real, w: real)
    requires t < 0.0 && 0.0 <= w <= 1.0
    ensures Times(t, w) >= t
  {
    assert t * (1.0 - w) <= 0.0;
  }

  /** Raising the annual fixed withholding never raises the net paycheck. */
  lemma NetFallsWithWithholding(gross: real, periods: real, ws: real, ps: real, qs: real, wf: real, pf: real, qf: real, extra: real, more: real)
    requires periods > 0.0 && more >= wf
    ensures Reference(gross, periods, ws, ps, qs, more, pf, qf, extra).netPerPaycheck
      <= Reference(gross, periods, ws, ps, qs, wf, pf, qf, extra).netPerPaycheck
  {
    OverMonotone(wf, more, periods);
  }

  lemma OverMonotone(x: real, y: real, p: real)
    requires x <= y && p > 0.0
    ensures x / p <= y / p
  {
  }

  /** For accepted inputs the calculator's net paycheck never exceeds its
      gross paycheck plus the extra gross. */
  lemma CalcNetAtMostGross(a: Amounts)
    requires a.periods > 0 && a.gross >= 0
    requires 0 <= a.withholdPct <= Hundred && 0 <= a.pretaxPct <= Hundred && 0 <= a.posttaxPct <= Hundred
    requires a.withholdFixed >= 0 && a.pretaxFixed >= 0 && a.posttaxFixed >= 0
    ensures Val(NetPerPaycheck(a)) <= Val(GrossPerPaycheck(a)) + Val(FromScaled(a.extraGross))
  {
    CalcIsReference(a);
    PeriodsValue(a);
    InputValues(a);
    PercentRatioUnit(a.withholdPct);
    PercentRatioUnit(a.pretaxPct);
    PercentRatioUnit(a.posttaxPct);
    NetAtMostGross(Val(FromScaled(a.gross)), Val(Periods(a)), Val(PercentRatio(a.withholdPct)),
      Val(PercentRatio(a.pretaxPct)), Val(PercentRatio(a.posttaxPct)), Val(FromScaled(a.withholdFixed)),
      Val(FromScaled(a.pretaxFixed)), Val(FromScaled(a.posttaxFixed)), Val(FromScaled(a.extraGross)));
  }

  /** The calculator's figures balance: the net paycheck is the gross
      paycheck less the total deductions plus the extra gross, and the
      monthly net is a twelfth of the annual net. */
  lemma CalcAccounting(a: Amounts)
    requires a.periods > 0
    ensures Val(NetPerPaycheck(a)) == Val(GrossPerPaycheck(a)) - Val(TotalDeductions(a)) + Val(FromScaled(a.extraGross))
    ensures Val(MonthlyNet(a)) * 12.0 == Val(AnnualNet(a))
  {
    CalcIsExact(a);
  }

  /** With no deductions and no extra gross, the calculator's net paycheck
      is the annual gross over the periods, and its annual net is the annual
      gross. */
  lemma CalcNoDeductions(a: Amounts)
    requires a.periods > 0
    requires a.withholdPct == 0 && a.pretaxPct == 0 && a.posttaxPct == 0
    requires a.withholdFixed == 0 && a.pretaxFixed == 0 && a.posttaxFixed == 0 && a.extraGross == 0
    ensures Val(TotalDeductions(a)) == 0.0
    ensures Val(NetPerPaycheck(a)) == Val(FromScaled(a.gross)) / Val(Periods(a))
    ensures Val(AnnualNet(a)) == Val(FromScaled(a.gross))
  {
    CalcIsExact(a);
    ZeroInputs(a);
    TimesZero(Val(FromScaled(a.gross)), Val(PercentRatio(a.pretaxPct)));
    TimesZero(Val(TaxableBase(a)), Val(PercentRatio(a.withholdPct)));
    TimesZero(Val(GrossPerPaycheck(a)), Val(PercentRatio(a.posttaxPct)));
    TimesQuotient(Val(NetPerPaycheck(a)), Val(FromScaled(a.gross)), Val(Periods(a)));
  }

  lemma ZeroInputs(a: Amounts)
    requires a.withholdPct == 0 && a.pretaxPct == 0 && a.posttaxPct == 0
    requires a.withholdFixed == 0 && a.pretaxFixed == 0 && a.posttaxFixed == 0 && a.extraGross == 0
    ensures Val(PercentRatio(a.withholdPct)) == 0.0 && Val(PercentRatio(a.pretaxPct)) == 0.0
    ensures Val(PercentRatio(a.posttaxPct)) == 0.0
    ensures Val(FromScaled(a.withholdFixed)) == 0.0 && Val(FromScaled(a.pretaxFixed)) == 0.0
    ensures Val(FromScaled(a.posttaxFixed)) == 0.0 && Val(FromScaled(a.extraGross)) == 0.0
  {
    PercentRatioUnit(0);
  }

  lemma TimesZero(x: real, y: real)
    requires y == 0.0
    ensures Times(x, y) == 0.0
  {
  }

  lemma TimesQuotient(n: real, x: real, p: real)
    requires p != 0.0 && n == x / p
    ensures Times(n, p) == x
  {
  }

  /** Raising the annual fixed withholding never raises the calculator's net
      paycheck. */
  lemma CalcNetFallsWithWithholding(a: Amounts, more: int)
    requires a.periods > 0 && more >= a.withholdFixed
    ensures Val(NetPerPaycheck(a.(withholdFixed := more))) <= Val(NetPerPaycheck(a))
  {
    var b := a.(withholdFixed := more);
    CalcIsReference(a);
    CalcIsReference(b);
    PeriodsValue(a);
    NetFallsWithWithholding(Val(FromScaled(a.gross)), Val(Periods(a)), Val(PercentRatio(a.withholdPct)),
      Val(PercentRatio(a.pretaxPct)), Val(PercentRatio(a.posttaxPct)), Val(FromScaled(a.withholdFixed)),
      Val(FromScaled(a.pretaxFixed)), Val(FromScaled(a.posttaxFixed)), Val(FromScaled(a.extraGross)),
      Val(FromScaled(more)));
  }

  // ---------------------------------------------------------------------
  // From the form to the figures

  /** The accepted gross amount and advanced settings, in the order of
      `AdvancedFields`. */
  function AmountsOf(gross: Parsed, fs: seq<Field>): (a: Amounts)
    requires gross.Ok? && |fs| == 8 && AllAccepted(fs)
    ensures a.gross == gross.scaled && a.periods == fs[0].scaled
  {
    Amounts(gross.scaled, fs[0].scaled, fs[1].scaled, fs[2].scaled, fs[3].scaled,
      fs[4].scaled, fs[5].scaled, fs[6].scaled, fs[7].scaled)
  }

  /** The figures are computed exactly when the form validates. */
  function Results(inp: Inputs): (r: Option<Breakdown>)
    ensures r.Some? <==> Validate(inp).ok
  {
    ValidateIsFirstRejection(inp);
    ValidateZeroNote(inp);
    if !Validate(inp).ok then None
    else Some(Calc(AmountsOf(ParseMoney(inp.gross), AdvancedFields(inp))))
  }

  /** Whenever results are shown, every field of the form was accepted and
      the figures are the reference paycheck arithmetic applied to exactly
      the values entered: gross amount, pay periods, the withholding, pre-tax
      and post-tax percentages as shares of one, the three annual fixed
      amounts, and the extra gross, each from its own field. */
  lemma ResultsAreReference(inp: Inputs)
    ensures Results(inp).Some? ==>
      && Wellformed(Results(inp).value)
      && ParseMoney(inp.gross).Ok?
      && ResolvePeriods(inp.frequency, inp.periods).Accepted?
      && ResolvePeriods(inp.frequency, inp.periods).scaled >= Scale
      && ParsePercent(inp.withholdPct, "Withholding %").Accepted?
      && ParsePercent(inp.pretaxPct, "Pre-tax %").Accepted?
      && ParsePercent(inp.posttaxPct, "Post-tax %").Accepted?
      && FixedAmount(inp.withholdFixed).Accepted?
      && FixedAmount(inp.pretaxFixed).Accepted?
      && FixedAmount(inp.posttaxFixed).Accepted?
      && FixedAmount(inp.extraGross).Accepted?
    ensures Results(inp).Some? ==>
      Values(Results(inp).value) == Reference(
        Val(FromScaled(ParseMoney(inp.gross).scaled)),
        Val(FromScaled(ResolvePeriods(inp.frequency, inp.periods).scaled)),
        Val(PercentRatio(ParsePercent(inp.withholdPct, "Withholding %").scaled)),
        Val(PercentRatio(ParsePercent(inp.pretaxPct, "Pre-tax %").scaled)),
        Val(PercentRatio(ParsePercent(inp.posttaxPct, "Post-tax %").scaled)),
        Val(FromScaled(FixedAmount(inp.withholdFixed).scaled)),
        Val(FromScaled(FixedAmount(inp.pretaxFixed).scaled)),
        Val(FromScaled(FixedAmount(inp.posttaxFixed).scaled)),
        Val(FromScaled(FixedAmount(inp.extraGross).scaled)))
  {
    if Validate(inp).ok {
      FormAmounts(inp);
      var fs := AdvancedFields(inp);
      var a := AmountsOf(ParseMoney(inp.gross), fs);
      assert fs[0].Accepted? && fs[1].Accepted? && fs[2].Accepted? && fs[3].Accepted?;
      assert fs[4].Accepted? && fs[5].Accepted? && fs[6].Accepted? && fs[7].Accepted?;
      assert a == Amounts(ParseMoney(inp.gross).scaled,
        ResolvePeriods(inp.frequency, inp.periods).scaled,
        ParsePercent(inp.withholdPct, "Withholding %").scaled,
        ParsePercent(inp.pretaxPct, "Pre-tax %").scaled,
        ParsePercent(inp.posttaxPct, "Post-tax %").scaled,
        FixedAmount(inp.withholdFixed).scaled,
        FixedAmount(inp.pretaxFixed).scaled,
        FixedAmount(inp.posttaxFixed).scaled,
        FixedAmount(inp.extraGross).scaled);
      CalcIsReference(a);
    }
  }

  /** When the form validates, the amounts `calc` receives are in range:
      at least one pay period, a non-negative gross amount, percentages
      between 0 and 100, and non-negative fixed amounts. */
  lemma FormAmounts(inp: Inputs)
    requires Validate(inp).ok
    ensures ParseMoney(inp.gross).Ok? && AllAccepted(AdvancedFields(inp))
    ensures var a := AmountsOf(ParseMoney(inp.gross), AdvancedFields(inp));
      && Scale <= a.periods <= 366 * Scale && 0 <= a.gross <= MaxScaled
      && 0 <= a.withholdPct <= Hundred && 0 <= a.pretaxPct <= Hundred && 0 <= a.posttaxPct <= Hundred
      && a.withholdFixed >= 0 && a.pretaxFixed >= 0 && a.posttaxFixed >= 0 && a.extraGross >= 0
  {
    ValidateIsFirstRejection(inp);
    ValidateZeroNote(inp);
    AcceptedSettings(inp, AdvancedFields(inp));
  }

  lemma AcceptedSettings(inp: Inputs, fs: seq<Field>)
    requires fs == AdvancedFields(inp) && AllAccepted(fs)
    ensures Scale <= fs[0].scaled <= 366 * Scale
    ensures 0 <= fs[1].scaled <= Hundred && 0 <= fs[2].scaled <= Hundred && 0 <= fs[3].scaled <= Hundred
    ensures fs[4].scaled >= 0 && fs[5].scaled >= 0 && fs[6].scaled >= 0 && fs[7].scaled >= 0
  {
    assert fs[0].Accepted? && fs[1].Accepted? && fs[2].Accepted? && fs[3].Accepted?;
    assert fs[4].Accepted? && fs[5].Accepted? && fs[6].Accepted? && fs[7].Accepted?;
  }

  /** Whenever results are shown, the net paycheck never exceeds the gross
      paycheck plus the extra gross. */
  lemma ResultsNetAtMostGross(inp: Inputs)
    ensures Results(inp).Some? ==>
      Val(Results(inp).value.netPerPaycheck)
        <= Val(Results(inp).value.grossPerPaycheck) + Val(Results(inp).value.extraGross)
  {
    if Validate(inp).ok {
      FormAmounts(inp);
      CalcNetAtMostGross(AmountsOf(ParseMoney(inp.gross), AdvancedFields(inp)));
    }
  }

  /** `netIsNegative`: the net paycheck in millionths, truncated toward
      zero, is below zero; false when there are no results. */
  function NetIsNegative(r: Option<Breakdown>): bool {
    r.Some? && ToScaled(r.value.netPerPaycheck) < 0
  }

  /** The warning shows exactly when the net paycheck is at least one
      millionth below zero: a smaller shortfall truncates to zero. */
  lemma NetIsNegativeMeaning(b: Breakdown)
    requires Wellformed(b)
    ensures NetIsNegative(Some(b)) <==> Val(b.netPerPaycheck) * Scale as real <= -1.0
  {
    var x := Val(b.netPerPaycheck) * Scale as real;
    var q := ToScaled(b.netPerPaycheck);
    assert TruncatesTo(x, q);
  }
}
