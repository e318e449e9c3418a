/** The yield comparison of StockAnalysis.py: dividend and earnings yields, price/earnings
    ratios, the bond yield, the breakeven price at which a stock yields as much as the bond,
    the yield margin of safety, and the market-capitalisation scenario at a chosen price. */
module Yields {
  import opened Common

  /** The quote fields the analysis reads; None when the provider does not report the field. */
  datatype Quote = Quote(
    currentPrice: Option<real>,
    trailingEps: Option<real>,
    forwardEps: Option<real>,
    dividendRate: Option<real>,
    dividendYield: Option<real>,
    sharesOutstanding: Option<real>)

  /** The bond yield used when no Treasury quote can be had, in percent. */
  const DefaultBondYield: real := 4.0

  /** `get_bond_yield`: the last positive closing yield, else a positive quoted market price,
      else the default. */
  function BondYield(historyClose: Option<real>, marketPrice: Option<real>): (y: real)
    ensures y > 0.0
    ensures historyClose.Some? && historyClose.value > 0.0 ==> y == historyClose.value
    ensures !(historyClose.Some? && historyClose.value > 0.0) && marketPrice.Some? && marketPrice.value > 0.0 ==> y == marketPrice.value
    ensures !(historyClose.Some? && historyClose.value > 0.0) && !(marketPrice.Some? && marketPrice.value > 0.0) ==> y == DefaultBondYield
  {
    if historyClose.Some? && historyClose.value > 0.0 then historyClose.value
    else if Truthy(marketPrice) && marketPrice.value > 0.0 then marketPrice.value
    else DefaultBondYield
  }

  /** An amount per share as a percentage of the price, or 0 when the amount or the price is
      missing or zero: the dividend yield and the earnings yields. */
  function PercentOfPrice(amount: Option<real>, price: Option<real>): (y: real)
    ensures Truthy(amount) && Truthy(price) ==> y * price.value == amount.value * 100.0
    ensures !(Truthy(amount) && Truthy(price)) ==> y == 0.0
  {
    if Truthy(amount) && Truthy(price) then amount.value / price.value * 100.0 else 0.0
  }

  /** An earnings yield and the matching price/earnings ratio are reciprocal, up to the
      percentage scale. */
  lemma EarningsYieldTimesPe(eps: real, price: real)
    requires eps != 0.0 && price != 0.0
    ensures PercentOfPrice(Some(eps), Some(price)) * PriceOverEps(price, Some(eps)) == 100.0
  {
    var y := PercentOfPrice(Some(eps), Some(price));
    var pe := PriceOverEps(price, Some(eps));
    assert y * price == eps * 100.0;
    assert pe * eps == price;
    assert y * pe * eps == y * price;
  }

  /** A price/earnings ratio, or 0 when the earnings figure is missing or zero. */
  function PriceOverEps(price: real, eps: Option<real>): (pe: real)
    ensures Truthy(eps) ==> pe * eps.value == price
    ensures !Truthy(eps) ==> pe == 0.0
  {
    if Truthy(eps) then price / eps.value else 0.0
  }

  /** The price at which the given earnings per share yield exactly the bond yield, or 0 when the
      earnings figure is missing or zero or the bond yield is zero. */
  function ForwardBreakeven(forwardEps: Option<real>, bondYield: real): (b: real)
    ensures Truthy(forwardEps) && bondYield != 0.0 ==> b * bondYield == forwardEps.value * 100.0
    ensures !(Truthy(forwardEps) && bondYield != 0.0) ==> b == 0.0
  {
    if Truthy(forwardEps) && bondYield != 0.0 then forwardEps.value / (bondYield / 100.0) else 0.0
  }

  /** The summary table of `display_pe_and_earnings_yield`. */
  datatype PeSummary = PeSummary(
    trailingPe: real, forwardPe: real,
    trailingEarningsYield: real, forwardEarningsYield: real,
    totalYield: real, breakevenPrice: real, overvalued: bool)

  /** The figures of the summary table: missing quote fields count as 0, the total yield adds the
      dividend yield computed at start-up to the forward earnings yield, and the stock is shown
      as overvalued when its price is above the breakeven price. */
  function PeAndEarningsYield(q: Quote, bondYield: real, dividendYield: real): (s: PeSummary)
    ensures s.breakevenPrice == ForwardBreakeven(q.forwardEps, bondYield)
    ensures s.totalYield == s.forwardEarningsYield + dividendYield
    ensures s.overvalued <==> q.currentPrice.GetOr(0.0) > s.breakevenPrice
    ensures s.trailingPe == PriceOverEps(q.currentPrice.GetOr(0.0), q.trailingEps)
    ensures s.forwardPe == PriceOverEps(q.currentPrice.GetOr(0.0), q.forwardEps)
    ensures s.trailingEarningsYield == PercentOfPrice(q.trailingEps, q.currentPrice)
    ensures s.forwardEarningsYield == PercentOfPrice(q.forwardEps, q.currentPrice)
  {
    var price := q.currentPrice.GetOr(0.0);
    var breakeven := ForwardBreakeven(q.forwardEps, bondYield);
    var forwardYield := PercentOfPrice(q.forwardEps, q.currentPrice);
    PeSummary(
      PriceOverEps(price, q.trailingEps), PriceOverEps(price, q.forwardEps),
      PercentOfPrice(q.trailingEps, q.currentPrice), forwardYield,
      forwardYield + dividendYield, breakeven, price > breakeven)
  }

  /** For positive forward earnings and a positive bond yield, the stock is shown as overvalued
      exactly when its forward earnings yield is below the bond yield. */
  lemma OvervaluedIffYieldBelowBond(q: Quote, bondYield: real, dividendYield: real)
    requires q.forwardEps.Some? && q.forwardEps.value > 0.0 && bondYield > 0.0
    requires q.currentPrice.Some? && q.currentPrice.value > 0.0
    ensures PeAndEarningsYield(q, bondYield, dividendYield).overvalued
            <==> PeAndEarningsYield(q, bondYield, dividendYield).forwardEarningsYield < bondYield
  {
    var price := q.currentPrice.value;
    var eps := q.forwardEps.value;
    var b := ForwardBreakeven(q.forwardEps, bondYield);
    var y := PercentOfPrice(q.forwardEps, q.currentPrice);
    assert b * bondYield == eps * 100.0;
    assert y * price == eps * 100.0;
    CompareByProducts(price, b, y, bondYield);
  }

  /** If p * y == b * z with all four positive, then p > b exactly when y < z. */
  lemma CompareByProducts(p: real, b: real, y: real, z: real)
    requires p > 0.0 && z > 0.0 && y * p == b * z && b * z > 0.0
    ensures p > b <==> y < z
  {
    assert y > 0.0 by { ProductSign(y, p); }
    assert b > 0.0 by { ProductSign(b, z); }
    if p > b {
      assert y * p > y * b;
      assert y * b < z * b;
    } else {
      assert y * p <= y * b;
      assert y * b >= z * b;
    }
  }

  /** How the yield margin of safety is described. */
  datatype MarginVerdict = StrongMargin | ModerateMargin | MinimalMargin | NegativeSpread

  /** The figures of `get_margin_of_safety`. */
  datatype YieldMargin = YieldMargin(earningsYield: real, dividendYield: real, totalYield: real, margin: real, verdict: MarginVerdict)

  /** The trailing earnings yield plus the quoted dividend yield (a fraction, scaled to percent
      when present), compared with the bond yield. */
  function YieldMarginOfSafety(q: Quote, bondYield: real): (m: YieldMargin)
    ensures m.earningsYield == PercentOfPrice(q.trailingEps, q.currentPrice)
    ensures m.dividendYield == q.dividendYield.GetOr(0.0) * 100.0
    ensures m.totalYield == m.earningsYield + m.dividendYield
    ensures m.margin == m.totalYield - bondYield
    ensures m.verdict == StrongMargin <==> m.margin > 5.0
    ensures m.verdict == ModerateMargin <==> 2.0 < m.margin <= 5.0
    ensures m.verdict == MinimalMargin <==> 0.0 < m.margin <= 2.0
    ensures m.verdict == NegativeSpread <==> m.margin <= 0.0
  {
    var earningsYield := PercentOfPrice(q.trailingEps, q.currentPrice);
    var dividendYield := if Truthy(q.dividendYield) then q.dividendYield.value * 100.0 else q.dividendYield.GetOr(0.0);
    var total := earningsYield + dividendYield;
    var margin := total - bondYield;
    var verdict :=
      if margin > 0.0 then
        if margin > 5.0 then StrongMargin else if margin > 2.0 then ModerateMargin else MinimalMargin
      else NegativeSpread;
    YieldMargin(earningsYield, dividendYield, total, margin, verdict)
  }

  /** Market capitalisation: price times shares outstanding. */
  function MarketCap(price: real, shares: real): (c: real)
    ensures c == 0.0 <==> price == 0.0 || shares == 0.0
  {
    price * shares
  }

  /** `(after - before) / before * 100`, or None for a zero before value (a division by zero). */
  function PercentChangeSigned(before: real, after: real): (c: Option<real>)
    ensures c.Some? <==> before != 0.0
    ensures c.Some? ==> c.value * before == (after - before) * 100.0
  {
    if before == 0.0 then None
    else
      var c := (after - before) / before * 100.0;
      assert c * before == (after - before) * 100.0;
      Some(c)
  }

  /** The price at which earnings plus dividends yield exactly the bond yield:
      (EPS + dividend) / (bond yield / 100), or 0 when EPS or the bond yield is zero. */
  function Breakeven(trailingEps: real, dividendRate: real, bondYield: real): (b: real)
    ensures trailingEps != 0.0 && bondYield != 0.0 ==> b * bondYield == (trailingEps + dividendRate) * 100.0
    ensures !(trailingEps != 0.0 && bondYield != 0.0) ==> b == 0.0
  {
    if trailingEps != 0.0 && bondYield != 0.0 then (trailingEps + dividendRate) / (bondYield / 100.0) else 0.0
  }

  /** At the breakeven price, earnings plus dividends as a percentage of the price equal the
      bond yield. */
  lemma BreakevenEqualizesYield(trailingEps: real, dividendRate: real, bondYield: real)
    requires trailingEps != 0.0 && bondYield != 0.0 && trailingEps + dividendRate != 0.0
    ensures var b := Breakeven(trailingEps, dividendRate, bondYield);
            b != 0.0 && (trailingEps + dividendRate) / b * 100.0 == bondYield
  {
    var b := Breakeven(trailingEps, dividendRate, bondYield);
    assert b * bondYield == (trailingEps + dividendRate) * 100.0;
    assert b != 0.0;
  }

  /** The outcome of `calculate_market_cap_at_price`. */
  datatype Scenario =
    | NotRequested
    | Failed
    | Table(
        marketCapCurrent: real, marketCapTarget: real, priceChangePct: real, marketCapChangePct: real,
        currentPe: real, targetPe: real,
        currentEarningsYield: real, targetEarningsYield: real,
        currentDividendYield: real, targetDividendYield: real,
        currentTotalYield: real, targetTotalYield: real,
        bondYield: real, breakevenPrice: real,
        currentYieldSpread: real, targetYieldSpread: real,
        currentPriceMargin: real, targetPriceMargin: real)

  /** Whether the answer asks for the scenario: `answer.upper() in ['Y', '']`. */
  predicate Interested(answer: string) {
    answer == "Y" || answer == "y" || answer == ""
  }

  /** The margin of a price below the breakeven price, in percent of the breakeven price. */
  function PriceMargin(breakeven: real, price: real): (m: real)
    requires breakeven != 0.0
    ensures m * breakeven == (breakeven - price) * 100.0
  {
    var m := (breakeven - price) / breakeven * 100.0;
    assert m * breakeven == (breakeven - price) * 100.0;
    m
  }

  /** The scenario table once every divisor is known to be non-zero. */
  function ScenarioTable(q: Quote, target: real, bond: real): (s: Scenario)
    requires q.currentPrice.Some? && q.currentPrice.value != 0.0
    requires q.sharesOutstanding.Some? && q.sharesOutstanding.value != 0.0
    requires Truthy(q.trailingEps) && bond != 0.0
    requires q.trailingEps.value + q.dividendRate.GetOr(0.0) != 0.0
    ensures s.Table?
    ensures s.marketCapCurrent == MarketCap(q.currentPrice.value, q.sharesOutstanding.value)
    ensures s.marketCapTarget == MarketCap(target, q.sharesOutstanding.value)
    ensures PercentChangeSigned(q.currentPrice.value, target) == Some(s.priceChangePct)
    ensures PercentChangeSigned(s.marketCapCurrent, s.marketCapTarget) == Some(s.marketCapChangePct)
    ensures s.currentPe == PriceOverEps(q.currentPrice.value, q.trailingEps) && s.targetPe == PriceOverEps(target, q.trailingEps)
    ensures s.currentEarningsYield == PercentOfPrice(q.trailingEps, q.currentPrice)
    ensures s.targetEarningsYield == PercentOfPrice(q.trailingEps, Some(target))
    ensures s.currentDividendYield == PercentOfPrice(q.dividendRate, q.currentPrice)
    ensures s.targetDividendYield == PercentOfPrice(q.dividendRate, Some(target))
    ensures s.currentTotalYield == s.currentEarningsYield + s.currentDividendYield
    ensures s.targetTotalYield == s.targetEarningsYield + s.currentDividendYield
    ensures s.bondYield == bond
    ensures s.breakevenPrice == Breakeven(q.trailingEps.value, q.dividendRate.GetOr(0.0), bond) && s.breakevenPrice != 0.0
    ensures s.currentYieldSpread == s.currentTotalYield - bond && s.targetYieldSpread == s.targetTotalYield - bond
    ensures s.currentPriceMargin == PriceMargin(s.breakevenPrice, q.currentPrice.value)
    ensures s.targetPriceMargin == PriceMargin(s.breakevenPrice, target)
  {
    var price := q.currentPrice.value;
    var shares := q.sharesOutstanding.value;
    var eps := q.trailingEps.value;
    var breakeven := Breakeven(eps, q.dividendRate.GetOr(0.0), bond);
    assert breakeven * bond == (eps + q.dividendRate.GetOr(0.0)) * 100.0;
    var capCurrent := MarketCap(price, shares);
    var capTarget := MarketCap(target, shares);
    var currentDividendYield := PercentOfPrice(q.dividendRate, q.currentPrice);
    var currentEarningsYield := PercentOfPrice(q.trailingEps, q.currentPrice);
    var targetEarningsYield := PercentOfPrice(q.trailingEps, Some(target));
    var currentTotal := currentEarningsYield + currentDividendYield;
    var targetTotal := targetEarningsYield + currentDividendYield;
    Table(
      capCurrent, capTarget,
      PercentChangeSigned(price, target).value, PercentChangeSigned(capCurrent, capTarget).value,
      PriceOverEps(price, q.trailingEps), PriceOverEps(target, q.trailingEps),
      currentEarningsYield, targetEarningsYield,
      currentDividendYield, PercentOfPrice(q.dividendRate, Some(target)),
      currentTotal, targetTotal,
      bond, breakeven,
      currentTotal - bond, targetTotal - bond,
      PriceMargin(breakeven, price), PriceMargin(breakeven, target))
  }

  /** `calculate_market_cap_at_price`: the scenario at the chosen share price (the current price
      when no price is entered). It fails when the price or share count is missing or zero, the
      bond yield cannot be fetched, the trailing EPS is missing or zero, the bond yield is zero,
      or the breakeven price is zero; the current market capitalisation is computed before the
      answer is looked at, so a missing price or share count fails even without a request. */
  function MarketCapScenario(q: Quote, answer: string, enteredPrice: Option<real>, bondClose: Option<real>): (s: Scenario)
    ensures (q.currentPrice.None? || q.sharesOutstanding.None?) ==> s == Failed
    ensures q.currentPrice.Some? && q.sharesOutstanding.Some? && !Interested(answer) ==> s == NotRequested
    ensures s.Table? <==>
      q.currentPrice.Some? && q.sharesOutstanding.Some? && Interested(answer)
      && q.currentPrice.value != 0.0 && q.sharesOutstanding.value != 0.0
      && bondClose.Some? && Truthy(q.trailingEps) && bondClose.value != 0.0
      && q.trailingEps.value + q.dividendRate.GetOr(0.0) != 0.0
    ensures s.Table? ==> s == ScenarioTable(q, enteredPrice.GetOr(q.currentPrice.value), bondClose.value)
  {
    if q.currentPrice.None? || q.sharesOutstanding.None? then Failed
    else
      var price := q.currentPrice.value;
      var shares := q.sharesOutstanding.value;
      if !Interested(answer) then NotRequested
      else
        var target := enteredPrice.GetOr(price);
        if PercentChangeSigned(price, target).None? then Failed
        else if PercentChangeSigned(MarketCap(price, shares), MarketCap(target, shares)).None? then Failed
        else if bondClose.None? then Failed
        else if Breakeven(q.trailingEps.GetOr(0.0), q.dividendRate.GetOr(0.0), bondClose.value) == 0.0 then Failed
        else
          assert Truthy(q.trailingEps);
          ScenarioTable(q, target, bondClose.value)
  }

  /** With a fixed share count, market capitalisation changes by the same percentage as the
      price. */
  lemma MarketCapChangeIsPriceChange(price: real, target: real, shares: real)
    requires price != 0.0 && shares != 0.0
    ensures PercentChangeSigned(MarketCap(price, shares), MarketCap(target, shares)) == PercentChangeSigned(price, target)
  {
    var a := PercentChangeSigned(MarketCap(price, shares), MarketCap(target, shares)).value;
    var b := PercentChangeSigned(price, target).value;
    assert a * (price * shares) == (target * shares - price * shares) * 100.0;
    assert b * price == (target - price) * 100.0;
    assert a * price * shares == b * price * shares;
    assert (a - b) * (price * shares) == 0.0;
  }

  /** The price margin against a positive breakeven price is positive exactly when the price is
      below the breakeven price. */
  lemma PriceMarginSign(margin: real, breakeven: real, price: real)
    requires breakeven > 0.0 && margin * breakeven == (breakeven - price) * 100.0
    ensures margin > 0.0 <==> price < breakeven
  {
    ProductSign(margin, breakeven);
  }

  /** At the breakeven price the scenario's target yield spread (the earnings yield at that
      price plus the dividend yield at the current price, less the bond yield) is zero only when
      there is no dividend or the current price already is the breakeven price. */
  lemma TargetSpreadAtBreakeven(eps: real, dividendRate: real, price: real, bondYield: real)
    requires eps != 0.0 && bondYield != 0.0 && price > 0.0
    requires Breakeven(eps, dividendRate, bondYield) > 0.0
    ensures var b := Breakeven(eps, dividendRate, bondYield);
            PercentOfPrice(Some(eps), Some(b)) + PercentOfPrice(Some(dividendRate), Some(price)) - bondYield == 0.0
            <==> dividendRate == 0.0 || price == b
  {
    var b := Breakeven(eps, dividendRate, bondYield);
    var ey := PercentOfPrice(Some(eps), Some(b));
    var dy := PercentOfPrice(Some(dividendRate), Some(price));
    assert b * bondYield == (eps + dividendRate) * 100.0;
    assert ey * b == eps * 100.0;
    SpreadZeroIff(eps, dividendRate, price, b, bondYield, ey, dy);
  }

  lemma SpreadZeroIff(eps: real, div: real, price: real, b: real, bond: real, ey: real, dy: real)
    requires price > 0.0 && b > 0.0
    requires b * bond == (eps + div) * 100.0 && ey * b == eps * 100.0
    requires div != 0.0 ==> dy * price == div * 100.0
    requires div == 0.0 ==> dy == 0.0
    ensures ey + dy - bond == 0.0 <==> div == 0.0 || price == b
  {
    // (ey - bond) * b == -div * 100, so the spread is dy - div * 100 / b.
    assert (ey - bond) * b == -div * 100.0;
    if div == 0.0 {
      assert (ey - bond) * b == 0.0;
      ProductSign(ey - bond, b);
    } else {
      var spread := ey + dy - bond;
      assert spread * b == dy * b - div * 100.0;
      assert spread * b * price == div * 100.0 * (b - price);
      if spread == 0.0 {
        assert div * 100.0 * (b - price) == 0.0;
      }
      if price == b {
        assert spread * b * price == 0.0;
        assert spread * (b * price) == 0.0;
        ProductSign(spread, b * price);
      }
    }
  }
}
