/** The discounted-cash-flow valuations of StockAnalysis.py: the two-stage projection of free cash
    flow, its discounting, the enterprise value, the fair value per share and the margin of
    safety; and the reinvestment-adjusted variant with a Gordon-growth terminal value. */
module Valuation {
  import opened Common

  /** Years 1 to NearTermYears grow at the near-term rate, later years at the terminal rate. */
  const NearTermYears: nat := 5

  /** The share of operating cash flow the reinvestment-adjusted valuation treats as maintenance
      capital expenditure. */
  const MaintenanceShare: real := 0.33

  /** How far below the discount rate a terminal growth rate that is too high is put. */
  const ClampGap: real := 0.02

  /** The parameters of a valuation: projection years and rates as fractions (0.05 is 5%). */
  datatype DcfParams = DcfParams(years: int, growthRate: real, discountRate: real, terminalGrowth: real)

  const DefaultDcf := DcfParams(10, 0.05, 0.12, 0.02)
  const DefaultReinvestmentDcf := DcfParams(15, 0.12, 0.08, 0.02)

  /** The rows of a projection: the projected free cash flow and its present value per year. */
  datatype Projection = Projection(futureCashFlows: seq<real>, presentValues: seq<real>)

  /** What a valuation reports: enterprise value, fair value per share and margin of safety. */
  datatype DcfValuation = DcfValuation(enterpriseValue: real, fairValue: real, marginOfSafety: real)

  /** The growth rate applied in projection year t (t >= 1). */
  function StageGrowth(p: DcfParams, t: nat): (g: real)
    ensures t <= NearTermYears ==> g == p.growthRate
    ensures t > NearTermYears ==> g == p.terminalGrowth
  {
    if t <= NearTermYears then p.growthRate else p.terminalGrowth
  }

  /** The free cash flow after t projection years, each year growing the previous one. */
  function ProjectedFcf(base: real, p: DcfParams, t: nat): real {
    if t == 0 then base else ProjectedFcf(base, p, t - 1) * (1.0 + StageGrowth(p, t))
  }

  /** The projection compounds the near-term rate for the first five years and the terminal
      rate after that. */
  lemma {:induction false} ProjectedFcfClosedForm(base: real, p: DcfParams, t: nat)
    ensures ProjectedFcf(base, p, t)
            == base * Pow(1.0 + p.growthRate, Min(t, NearTermYears)) * Pow(1.0 + p.terminalGrowth, t - Min(t, NearTermYears))
  {
    if t > 0 {
      ProjectedFcfClosedForm(base, p, t - 1);
      if t <= NearTermYears {
        assert Min(t, NearTermYears) == Min(t - 1, NearTermYears) + 1;
        assert t - Min(t, NearTermYears) == 0;
      } else {
        assert Min(t, NearTermYears) == Min(t - 1, NearTermYears);
        assert t - Min(t, NearTermYears) == t - 1 - Min(t - 1, NearTermYears) + 1;
      }
    }
  }

  /** The discount factor of year t: 1 / (1 + r)^t. */
  function DiscountFactor(r: real, t: nat): (f: real)
    requires 1.0 + r != 0.0
    ensures f * Pow(1.0 + r, t) == 1.0
  {
    PowZeroIff(1.0 + r, t);
    1.0 / Pow(1.0 + r, t)
  }

  /** With a positive discount rate each later year is discounted more. */
  lemma DiscountFactorDecreasing(r: real, t: nat)
    requires r > 0.0
    ensures 0.0 < DiscountFactor(r, t + 1) < DiscountFactor(r, t)
  {
    PowPositive(1.0 + r, t);
    var q := Pow(1.0 + r, t);
    assert Pow(1.0 + r, t + 1) == q * (1.0 + r);
    assert q * (1.0 + r) > q;
  }

  /** Discounting is possible: no projection year meets a zero power of 1 + r. */
  predicate Discountable(p: DcfParams) {
    p.years < 1 || 1.0 + p.discountRate != 0.0
  }

  /** The number of projection rows: `range(1, years + 1)` is empty for years < 1. */
  function Rows(p: DcfParams): nat {
    if p.years < 0 then 0 else p.years
  }

  function FutureCashFlows(base: real, p: DcfParams): (fs: seq<real>)
    ensures |fs| == Rows(p)
  {
    seq(Rows(p), i requires 0 <= i < Rows(p) => ProjectedFcf(base, p, i + 1))
  }

  /** The present value of projection year t: its cash flow times its discount factor. */
  function PresentValue(base: real, p: DcfParams, t: nat): real
    requires 1.0 + p.discountRate != 0.0
  {
    ProjectedFcf(base, p, t) * DiscountFactor(p.discountRate, t)
  }

  function PresentValues(base: real, p: DcfParams): (pvs: seq<real>)
    requires Discountable(p)
    ensures |pvs| == Rows(p)
  {
    seq(Rows(p), i requires 0 <= i < Rows(p) => PresentValue(base, p, i + 1))
  }

  /** The projection loop shared by both valuations: the cash flow is grown year by year and each
      year's value discounted; a zero power of 1 + r is a division by zero that aborts the
      valuation. */
  method ProjectCashFlows(base: real, p: DcfParams) returns (r: Option<Projection>)
    ensures r.None? <==> !Discountable(p)
    ensures r.Some? ==> r.value.futureCashFlows == FutureCashFlows(base, p)
    ensures r.Some? ==> r.value.presentValues == PresentValues(base, p)
  {
    var fcf := base;
    var future: seq<real> := [];
    var present: seq<real> := [];
    var t := 1;
    while t <= p.years
      invariant 1 <= t <= Rows(p) + 1
      invariant fcf == ProjectedFcf(base, p, t - 1)
      invariant |future| == t - 1 && |present| == t - 1
      invariant t > 1 ==> 1.0 + p.discountRate != 0.0
      invariant forall i :: 0 <= i < t - 1 ==> future[i] == ProjectedFcf(base, p, i + 1)
      invariant forall i :: 0 <= i < t - 1 ==> present[i] == PresentValue(base, p, i + 1)
    {
      fcf := fcf * (1.0 + StageGrowth(p, t));
      future := future + [fcf];
      var power := Pow(1.0 + p.discountRate, t);
      PowZeroIff(1.0 + p.discountRate, t);
      if power == 0.0 {
        return None;
      }
      var factor := 1.0 / power;
      assert fcf * factor == PresentValue(base, p, t);
      present := present + [fcf * factor];
      t := t + 1;
    }
    assert future == FutureCashFlows(base, p);
    forall i | 0 <= i < |present|
      ensures present[i] == PresentValues(base, p)[i]
    {
    }
    assert present == PresentValues(base, p);
    return Some(Projection(future, present));
  }

  /** When cash flows grow exactly at the discount rate, every year is worth the starting
      cash flow today. */
  lemma FlatRatesKeepPresentValue(base: real, p: DcfParams, i: nat)
    requires p.growthRate == p.terminalGrowth == p.discountRate && 1.0 + p.discountRate != 0.0
    requires i < Rows(p)
    ensures PresentValues(base, p)[i] == base
  {
    var n := i + 1;
    FlatProjection(base, p, n);
    Cancel(base, Pow(1.0 + p.discountRate, n), DiscountFactor(p.discountRate, n));
  }

  /** With one rate for every year the projection is plain compounding. */
  lemma {:induction false} FlatProjection(base: real, p: DcfParams, t: nat)
    requires p.growthRate == p.terminalGrowth
    ensures ProjectedFcf(base, p, t) == base * Pow(1.0 + p.growthRate, t)
  {
    if t > 0 {
      FlatProjection(base, p, t - 1);
      var x := 1.0 + p.growthRate;
      assert ProjectedFcf(base, p, t) == base * Pow(x, t - 1) * x;
      assert base * Pow(x, t - 1) * x == base * (Pow(x, t - 1) * x);
    }
  }

  lemma Cancel(a: real, q: real, d: real)
    requires d * q == 1.0
    ensures a * q * d == a
  {
    assert a * q * d == a * (d * q);
  }

  /** The margin of safety of a price against a fair value, in percent of the fair value; None
      for a zero fair value (a division by zero). */
  function MarginOfSafety(fairValue: real, price: real): (m: Option<real>)
    ensures m.Some? <==> fairValue != 0.0
    ensures m.Some? ==> m.value * fairValue == (fairValue - price) * 100.0
    ensures m.Some? && fairValue > 0.0 ==> (m.value > 0.0 <==> price < fairValue)
  {
    if fairValue == 0.0 then None
    else
      var m := (fairValue - price) / fairValue * 100.0;
      assert m * fairValue == (fairValue - price) * 100.0;
      Some(m)
  }

  /** `calculate_dcf`: the enterprise value is the sum of the projected years' present values
      (no terminal value is added), divided by the share count; the valuation is abandoned when
      no free cash flow, share count or price is available or a division by zero occurs. */
  method CalculateDcf(latestFcf: Option<real>, p: DcfParams, shares: Option<real>, price: Option<real>)
    returns (r: Option<DcfValuation>)
    ensures r.Some? <==> latestFcf.Some? && Discountable(p) && shares.Some? && shares.value != 0.0 && price.Some?
                         && Sum(PresentValues(latestFcf.value, p)) != 0.0
    ensures r.Some? ==> r.value.enterpriseValue == Sum(PresentValues(latestFcf.value, p))
    ensures r.Some? ==> r.value.fairValue * shares.value == r.value.enterpriseValue
    ensures r.Some? ==> MarginOfSafety(r.value.fairValue, price.value) == Some(r.value.marginOfSafety)
  {
    if latestFcf.None? {
      return None;
    }
    var projection := ProjectCashFlows(latestFcf.value, p);
    if projection.None? {
      return None;
    }
    var total := Sum(projection.value.presentValues);
    if shares.None? || shares.value == 0.0 {
      return None;
    }
    var fairValue := total / shares.value;
    if price.None? {
      return None;
    }
    var margin := MarginOfSafety(fairValue, price.value);
    if margin.None? {
      return None;
    }
    return Some(DcfValuation(total, fairValue, margin.value));
  }

  /** The reinvestment-adjusted starting cash flow: operating cash flow less the maintenance
      share, which keeps 67% of it. */
  function AdjustedFcf(operatingCashFlow: real): (f: real)
    ensures f == 0.67 * operatingCashFlow
  {
    operatingCashFlow - MaintenanceShare * operatingCashFlow
  }

  /** A terminal growth rate at or above the discount rate is put ClampGap below it. */
  function ClampTerminalGrowth(terminalGrowth: real, discountRate: real): (g: real)
    ensures discountRate - g > 0.0
    ensures terminalGrowth < discountRate ==> g == terminalGrowth
    ensures terminalGrowth >= discountRate ==> discountRate - g == ClampGap
  {
    if terminalGrowth >= discountRate then discountRate - ClampGap else terminalGrowth
  }

  /** The Gordon growth value of the cash flows after the last projected year. */
  function GordonTerminalValue(lastFcf: real, g: real, r: real): (tv: real)
    requires r - g != 0.0
    ensures tv * (r - g) == lastFcf * (1.0 + g)
  {
    lastFcf * (1.0 + g) / (r - g)
  }

  /** With a positive Gordon denominator (which the clamp guarantees) the terminal value is
      negative exactly when the last cash flow and 1 + g have opposite signs. */
  lemma TerminalValueNegativeIff(lastFcf: real, g: real, r: real)
    requires r - g > 0.0
    ensures GordonTerminalValue(lastFcf, g, r) < 0.0 <==> (lastFcf < 0.0 && 1.0 + g > 0.0) || (lastFcf > 0.0 && 1.0 + g < 0.0)
  {
    GordonSign(GordonTerminalValue(lastFcf, g, r), lastFcf * (1.0 + g), r - g);
    NegativeProduct(lastFcf, 1.0 + g);
  }

  lemma GordonSign(tv: real, grown: real, d: real)
    requires d > 0.0 && tv * d == grown
    ensures tv < 0.0 <==> grown < 0.0
  {
    ProductSign(tv, d);
  }

  /** The terminal value `calculate_amzn_dcf` computes: the Gordon value of the last projected
      cash flow at the clamped terminal rate. */
  function ReinvestmentTerminalValue(base: real, p: DcfParams): real {
    var g := ClampTerminalGrowth(p.terminalGrowth, p.discountRate);
    GordonTerminalValue(ProjectedFcf(base, p, Rows(p)), g, p.discountRate)
  }

  /** The enterprise value `calculate_amzn_dcf` reports: the projected years' present values plus
      the terminal value discounted over the whole horizon. */
  function ReinvestmentEnterpriseValue(base: real, p: DcfParams): real
    requires 1.0 + p.discountRate != 0.0
  {
    Sum(PresentValues(base, p)) + ReinvestmentTerminalValue(base, p) * DiscountFactor(p.discountRate, Rows(p))
  }

  lemma DivAsDiscount(a: real, r: real, t: nat)
    requires 1.0 + r != 0.0
    ensures Pow(1.0 + r, t) != 0.0 && a / Pow(1.0 + r, t) == a * DiscountFactor(r, t)
  {
    PowZeroIff(1.0 + r, t);
    var q := Pow(1.0 + r, t);
    assert DiscountFactor(r, t) == 1.0 / q;
    DivAsProduct(a, q);
  }

  lemma DivAsProduct(a: real, q: real)
    requires q != 0.0
    ensures a / q == a * (1.0 / q)
  {
  }

  lemma DivTimes(a: real, b: real)
    requires b != 0.0
    ensures a / b * b == a
  {
  }

  /** `calculate_amzn_dcf`: the projection of the adjusted cash flow (at the unclamped terminal
      rate), a Gordon terminal value at the clamped rate discounted over the whole horizon, and
      the fair value per share; None for a missing cash flow, an empty projection, a negative
      terminal value or a zero fair value. A missing or zero share count gives a fair value of
      0, and a missing price counts as 0. */
  method CalculateReinvestmentDcf(operatingCashFlow: Option<real>, p: DcfParams, shares: Option<real>, price: Option<real>)
    returns (r: Option<DcfValuation>)
    ensures r.Some? ==> operatingCashFlow.Some? && p.years >= 1 && 1.0 + p.discountRate != 0.0
    ensures r.Some? ==>
      var base := AdjustedFcf(operatingCashFlow.value);
      ReinvestmentTerminalValue(base, p) >= 0.0
      && r.value.enterpriseValue == ReinvestmentEnterpriseValue(base, p)
      && Truthy(shares) && r.value.fairValue * shares.value == r.value.enterpriseValue
      && MarginOfSafety(r.value.fairValue, price.GetOr(0.0)) == Some(r.value.marginOfSafety)
    ensures operatingCashFlow.Some? && p.years >= 1 && 1.0 + p.discountRate != 0.0 && r.None? ==>
      var base := AdjustedFcf(operatingCashFlow.value);
      ReinvestmentTerminalValue(base, p) < 0.0 || !Truthy(shares) || ReinvestmentEnterpriseValue(base, p) == 0.0
  {
    if operatingCashFlow.None? {
      return None;
    }
    var base := AdjustedFcf(operatingCashFlow.value);
    var projection := ProjectCashFlows(base, p);
    if projection.None? || |projection.value.futureCashFlows| == 0 {
      return None;
    }
    var flows := projection.value.futureCashFlows;
    var terminalFcf := flows[|flows| - 1];
    var g := ClampTerminalGrowth(p.terminalGrowth, p.discountRate);
    var terminalValue := GordonTerminalValue(terminalFcf, g, p.discountRate);
    assert terminalValue == ReinvestmentTerminalValue(base, p) by {
      assert terminalFcf == ProjectedFcf(base, p, Rows(p));
    }
    assert Pow(1.0 + p.discountRate, p.years) != 0.0 by {
      PowZeroIff(1.0 + p.discountRate, p.years);
    }
    var terminalValuePv := terminalValue / Pow(1.0 + p.discountRate, p.years);
    if terminalValue < 0.0 {
      return None;
    }
    var total := Sum(projection.value.presentValues) + terminalValuePv;
    assert total == ReinvestmentEnterpriseValue(base, p) by {
      DivAsDiscount(terminalValue, p.discountRate, p.years);
    }
    r := PerShare(total, shares, price.GetOr(0.0));
  }

  /** The last step of `calculate_amzn_dcf`: the fair value per share (0 for a missing or zero
      share count) and its margin of safety; None when the fair value is 0, where the margin
      divides by zero. */
  function PerShare(total: real, shares: Option<real>, price: real): (v: Option<DcfValuation>)
    ensures v.None? <==> !Truthy(shares) || total == 0.0
    ensures v.Some? ==> v.value.enterpriseValue == total && v.value.fairValue * shares.value == total
    ensures v.Some? ==> MarginOfSafety(v.value.fairValue, price) == Some(v.value.marginOfSafety)
  {
    var fairValue := if Truthy(shares) then total / shares.value else 0.0;
    var margin := MarginOfSafety(fairValue, price);
    if margin.None? then None else Some(DcfValuation(total, fairValue, margin.value))
  }
}
