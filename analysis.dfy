/** The StockAnalysis object: the statements and quote it reads, and the averages and yields its
    analysis methods store on it. */
module Analysis {
  import opened Common
  import opened Statements
  import opened Growth
  import opened Metrics
  import opened Yields

  /** The average ROIC growth: the mean of the percentage-point changes between consecutive
      years, or None with fewer than two years. */
  function RoicAverage(d: YearDict): Option<real>
    requires WellFormed(d)
  {
    Mean(PointChanges(InYearOrder(d)))
  }

  /** The average of the percentage-change growth rates, or None when no rate was appended. */
  function PercentAverage(d: YearDict): Option<real>
    requires WellFormed(d)
  {
    var rates := PercentChangeRates(InYearOrder(d));
    if rates == [] then None else AverageGrowth(Lift(rates))
  }

  /** The percentage-change average is the plain mean of the appended rates: no appended rate is
      ever dropped as NaN. */
  lemma PercentAverageIsMean(d: YearDict)
    requires WellFormed(d)
    ensures PercentAverage(d) == Mean(PercentChangeRates(InYearOrder(d)))
  {
    PresentOfLift(PercentChangeRates(InYearOrder(d)));
  }

  class StockAnalysis {
    const filings: Filings
    const quote: Quote

    var avgRoicGrowth: Option<real>
    var avgEquityGrowth: Option<real>
    var avgEarningsGrowth: Option<real>
    var avgSalesGrowth: Option<real>
    var avgFcfGrowth: Option<real>
    var dividendYield: real
    var breakevenPrice: real
    var bondYield: Option<real>

    /** No average is known yet; the dividend yield is taken from the quote once. */
    constructor(filings: Filings, quote: Quote)
      ensures this.filings == filings && this.quote == quote
      ensures avgRoicGrowth.None? && avgEquityGrowth.None? && avgEarningsGrowth.None?
      ensures avgSalesGrowth.None? && avgFcfGrowth.None?
      ensures dividendYield == PercentOfPrice(quote.dividendRate, quote.currentPrice)
      ensures breakevenPrice == 0.0 && bondYield.None?
    {
      this.filings := filings;
      this.quote := quote;
      avgRoicGrowth := None;
      avgEquityGrowth := None;
      avgEarningsGrowth := None;
      avgSalesGrowth := None;
      avgFcfGrowth := None;
      breakevenPrice := 0.0;
      bondYield := None;
      dividendYield := PercentOfPrice(quote.dividendRate, quote.currentPrice);
    }

    /** The year table of a percentage-change analysis and the average it stores. */
    method PercentGrowth(kind: Metric) returns (d: YearDict, avg: Option<real>)
      ensures d == YearValues(kind, filings)
      ensures WellFormed(d)
      ensures avg == PercentAverage(d)
    {
      d := CollectYearValues(kind, filings);
      var values := InYearOrder(d);
      var rows, rates := PercentChangeTable(values);
      avg := if rates != [] then AverageGrowth(Lift(rates)) else None;
    }

    /** `analyze_roic`: None, with no average, when either statement is empty or no year has a
      ROIC; otherwise the ROIC of each year and the mean percentage-point change. */
    method AnalyzeRoic() returns (r: Option<YearDict>)
      modifies this`avgRoicGrowth
      ensures r.None? <==> IsEmpty(filings.financials) || IsEmpty(filings.rawBalanceSheet) || YearValues(Roic, filings).keys == []
      ensures r.Some? ==> r.value == YearValues(Roic, filings)
      ensures avgRoicGrowth == if r.Some? then RoicAverage(r.value) else None
    {
      if IsEmpty(filings.financials) || IsEmpty(filings.rawBalanceSheet) {
        avgRoicGrowth := None;
        return None;
      }
      var d := CollectYearValues(Roic, filings);
      if d.keys == [] {
        avgRoicGrowth := None;
        return None;
      }
      var values := InYearOrder(d);
      var changes := PointChangeTable(values);
      avgRoicGrowth := if changes != [] then Some(Sum(changes) / |changes| as real) else None;
      return Some(d);
    }

    /** `analyze_equity_growth`: None, with no average, when the balance sheet is empty or no year
      has an equity figure; otherwise the equity of each year and the average growth. */
    method AnalyzeEquityGrowth() returns (r: Option<YearDict>)
      modifies this`avgEquityGrowth
      ensures r.None? <==> IsEmpty(filings.balanceSheet) || YearValues(Equity, filings).keys == []
      ensures r.Some? ==> r.value == YearValues(Equity, filings)
      ensures avgEquityGrowth == if r.Some? then PercentAverage(r.value) else None
    {
      if IsEmpty(filings.balanceSheet) {
        avgEquityGrowth := None;
        return None;
      }
      var d, avg := PercentGrowth(Equity);
      if d.keys == [] {
        avgEquityGrowth := None;
        return None;
      }
      avgEquityGrowth := avg;
      return Some(d);
    }

    /** `eps_growth_rate`: the EPS of each year (possibly none) and the average growth. */
    method EpsGrowthRate() returns (d: YearDict)
      modifies this`avgEarningsGrowth
      ensures d == YearValues(Eps, filings)
      ensures avgEarningsGrowth == PercentAverage(d)
    {
      var avg;
      d, avg := PercentGrowth(Eps);
      avgEarningsGrowth := avg;
    }

    /** `sales_growth_rate`: the revenue of each year and the average growth. */
    method SalesGrowthRate() returns (d: YearDict)
      modifies this`avgSalesGrowth
      ensures d == YearValues(Sales, filings)
      ensures avgSalesGrowth == PercentAverage(d)
    {
      var avg;
      d, avg := PercentGrowth(Sales);
      avgSalesGrowth := avg;
    }

    /** `free_cash_flow_growth_rate`: the free cash flow of each year and the average growth. */
    method FreeCashFlowGrowthRate() returns (d: YearDict)
      modifies this`avgFcfGrowth
      ensures d == YearValues(FreeCashFlow, filings)
      ensures avgFcfGrowth == PercentAverage(d)
    {
      var avg;
      d, avg := PercentGrowth(FreeCashFlow);
      avgFcfGrowth := avg;
    }

    /** `display_pe_and_earnings_yield`: the summary table; only the breakeven price is stored. */
    method DisplayPeAndEarningsYield(bond: real) returns (s: PeSummary)
      modifies this`breakevenPrice
      ensures s == PeAndEarningsYield(quote, bond, dividendYield)
      ensures breakevenPrice == ForwardBreakeven(quote.forwardEps, bond)
    {
      s := PeAndEarningsYield(quote, bond, dividendYield);
      breakevenPrice := s.breakevenPrice;
    }

    /** `get_margin_of_safety`: stores the bond yield and reports the yield margin. */
    method GetMarginOfSafety(bond: real) returns (m: YieldMargin)
      modifies this`bondYield
      ensures bondYield == Some(bond)
      ensures m == YieldMarginOfSafety(quote, bond)
    {
      bondYield := Some(bond);
      m := YieldMarginOfSafety(quote, bond);
    }
  }
}
