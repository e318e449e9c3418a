/** The per-period figures StockAnalysis.py reads from the statements (ROIC, stockholders' equity,
    EPS, revenue, free cash flow) and the year-keyed dictionary its analysis loops build from them. */
module Metrics {
  import opened Common
  import opened Statements
  import opened Growth

  /** The statements as the data provider hands them to the analysis: the raw-label views
      (`get_financials`, `get_balance_sheet`, `get_income_stmt`) and the display-label views
      (`balance_sheet`, `cashflow`). */
  datatype Filings = Filings(
    financials: Statement,
    rawBalanceSheet: Statement,
    balanceSheet: Statement,
    incomeStatement: Statement,
    cashFlow: Statement)

  datatype Metric = Roic | Equity | Eps | Sales | FreeCashFlow

  /** The labels the equity analysis tries, in order. */
  const EquityLabels: seq<string> :=
    ["Stockholders Equity", "StockholdersEquity", "Total Equity Gross Minority Interest", "Common Stock Equity"]

  /** Net operating profit after tax. */
  function Nopat(operatingIncome: real, taxRate: real): real {
    operatingIncome * (1.0 - taxRate)
  }

  /** Invested capital: total assets less current liabilities and cash. */
  function InvestedCapital(totalAssets: real, currentLiabilities: real, cash: real): real {
    totalAssets - currentLiabilities - cash
  }

  /** Return on invested capital in percent: NOPAT over invested capital, where NOPAT is
      operating income after tax and invested capital is total assets less current liabilities
      and cash. None when invested capital is zero (the period is skipped). */
  function RoicPercent(operatingIncome: real, taxRate: real, totalAssets: real, currentLiabilities: real, cash: real): (r: Option<real>)
    ensures r.Some? <==> InvestedCapital(totalAssets, currentLiabilities, cash) != 0.0
    ensures r.Some? ==> r.value * InvestedCapital(totalAssets, currentLiabilities, cash) == Nopat(operatingIncome, taxRate) * 100.0
  {
    var nopat := Nopat(operatingIncome, taxRate);
    var investedCapital := InvestedCapital(totalAssets, currentLiabilities, cash);
    if investedCapital != 0.0 then Some(nopat / investedCapital * 100.0) else None
  }

  /** ROIC is positive exactly when NOPAT and invested capital are non-zero and of the same sign. */
  lemma RoicPositiveIff(operatingIncome: real, taxRate: real, totalAssets: real, currentLiabilities: real, cash: real)
    requires totalAssets - currentLiabilities - cash != 0.0
    ensures RoicPercent(operatingIncome, taxRate, totalAssets, currentLiabilities, cash).value > 0.0
            <==> Nopat(operatingIncome, taxRate) * InvestedCapital(totalAssets, currentLiabilities, cash) > 0.0
  {
    var nopat := Nopat(operatingIncome, taxRate);
    var ic := InvestedCapital(totalAssets, currentLiabilities, cash);
    var r := RoicPercent(operatingIncome, taxRate, totalAssets, currentLiabilities, cash).value;
    assert r * ic == nopat * 100.0;
    assert r * ic * ic == nopat * ic * 100.0;
    assert ic * ic > 0.0;
  }

  /** Earnings per share, None when the diluted share count is zero. */
  function EarningsPerShare(netIncome: real, shares: real): (r: Option<real>)
    ensures r.Some? <==> shares != 0.0
    ensures r.Some? ==> r.value * shares == netIncome
  {
    if shares != 0.0 then Some(netIncome / shares) else None
  }

  /** Free cash flow: operating cash flow less the size of capital expenditure, whatever sign
      the provider gives capital expenditure. */
  function FreeCashFlowOf(operatingCashFlow: real, capitalExpenditure: real): (f: real)
    ensures f <= operatingCashFlow
    ensures operatingCashFlow - f == Abs(capitalExpenditure)
  {
    operatingCashFlow - Abs(capitalExpenditure)
  }

  /** The sign convention of capital expenditure does not change free cash flow. */
  lemma FreeCashFlowSignFree(operatingCashFlow: real, capitalExpenditure: real)
    ensures FreeCashFlowOf(operatingCashFlow, capitalExpenditure) == FreeCashFlowOf(operatingCashFlow, -capitalExpenditure)
  {
    assert Abs(capitalExpenditure) == Abs(-capitalExpenditure);
  }

  /** The first label of the list that is a row of the statement. */
  function FirstLabelIn(labels: seq<string>, index: set<string>): (r: Option<string>)
    ensures r.Some? ==> r.value in labels && r.value in index
    ensures r.None? <==> forall l :: l in labels ==> l !in index
  {
    if labels == [] then None
    else if labels[0] in index then Some(labels[0])
    else
      assert forall l :: l in labels <==> l == labels[0] || l in labels[1..];
      FirstLabelIn(labels[1..], index)
  }

  /** The label chosen is the one at the first position whose label is a row: a later label is
      never preferred to an earlier one. */
  lemma {:induction false} FirstLabelInIsEarliest(labels: seq<string>, index: set<string>, j: nat)
    requires j < |labels| && labels[j] in index
    requires forall k :: 0 <= k < j ==> labels[k] !in index
    ensures FirstLabelIn(labels, index) == Some(labels[j])
  {
    if j > 0 {
      assert labels[0] !in index;
      forall k | 0 <= k < j - 1
        ensures labels[1..][k] !in index
      {
        assert labels[1..][k] == labels[k + 1];
      }
      FirstLabelInIsEarliest(labels[1..], index, j - 1);
    }
  }

  /** The value of one metric for the period of the given date, or None when the period is
      skipped (a missing row or cell, a zero divisor). */
  function MetricAt(kind: Metric, f: Filings, date: Date): Option<real> {
    match kind
    case Roic =>
      var oi := Lookup(f.financials, "OperatingIncome", date);
      var tr := Lookup(f.financials, "TaxRateForCalcs", date);
      var ta := Lookup(f.rawBalanceSheet, "TotalAssets", date);
      var cl := Lookup(f.rawBalanceSheet, "CurrentLiabilities", date);
      var cash := Lookup(f.rawBalanceSheet, "CashAndCashEquivalents", date);
      if oi.Some? && tr.Some? && ta.Some? && cl.Some? && cash.Some? then
        RoicPercent(oi.value, tr.value, ta.value, cl.value, cash.value)
      else None
    case Equity =>
      var item := FirstLabelIn(EquityLabels, f.balanceSheet.index);
      if item.Some? then Lookup(f.balanceSheet, item.value, date) else None
    case Eps =>
      var ni := Lookup(f.financials, "NetIncome", date);
      var shares := Lookup(f.financials, "DilutedAverageShares", date);
      if ni.Some? && shares.Some? then EarningsPerShare(ni.value, shares.value) else None
    case Sales =>
      Lookup(f.incomeStatement, "TotalRevenue", date)
    case FreeCashFlow =>
      var ocf := Lookup(f.cashFlow, "Operating Cash Flow", date);
      var capex := Lookup(f.cashFlow, "Capital Expenditure", date);
      if ocf.Some? && capex.Some? then Some(FreeCashFlowOf(ocf.value, capex.value)) else None
  }

  /** The statement whose columns the analysis loop walks through. */
  function Driver(kind: Metric, f: Filings): Statement {
    match kind
    case Roic => f.financials
    case Equity => f.balanceSheet
    case Eps => f.financials
    case Sales => f.incomeStatement
    case FreeCashFlow => f.cashFlow
  }

  /** What one period contributes: its year and the metric's value, if any. */
  datatype Reading = Reading(year: int, value: Option<real>)

  /** The readings of the columns, in column order. */
  function Readings(kind: Metric, f: Filings, cols: seq<Column>): (rs: seq<Reading>)
    ensures |rs| == |cols|
    ensures forall i :: 0 <= i < |cols| ==> rs[i] == Reading(cols[i].date.year, MetricAt(kind, f, cols[i].date))
  {
    seq(|cols|, i requires 0 <= i < |cols| => Reading(cols[i].date.year, MetricAt(kind, f, cols[i].date)))
  }

  /** The dictionary built from the readings in order: `values[year] = value` for each reading
      with a value, so a reading that comes later in the column order overwrites an earlier one
      of the same year. The columns are newest first, so the older period of a year wins. */
  function Collect(rs: seq<Reading>): (d: YearDict)
    ensures WellFormed(d)
  {
    if rs == [] then EmptyDict
    else
      var d := Collect(rs[..|rs| - 1]);
      var last := rs[|rs| - 1];
      if last.value.Some? then Put(d, last.year, last.value.value) else d
  }

  /** A year is a key exactly when some reading of that year has a value. */
  lemma {:induction false} CollectKeys(rs: seq<Reading>, year: int)
    ensures year in Collect(rs).values <==> exists i :: 0 <= i < |rs| && rs[i].year == year && rs[i].value.Some?
  {
    if rs != [] {
      var init := rs[..|rs| - 1];
      CollectKeys(init, year);
      if exists i :: 0 <= i < |init| && init[i].year == year && init[i].value.Some? {
        var i :| 0 <= i < |init| && init[i].year == year && init[i].value.Some?;
        assert rs[i] == init[i];
      }
      if exists i :: 0 <= i < |rs| && rs[i].year == year && rs[i].value.Some? {
        var i :| 0 <= i < |rs| && rs[i].year == year && rs[i].value.Some?;
        if i < |init| { assert init[i] == rs[i]; }
      }
    }
  }

  /** The value kept for a year is the one of the last reading of that year, in column order,
      that has a value; with newest-first columns that is the oldest period of the year. */
  lemma {:induction false} CollectLastReadingWins(rs: seq<Reading>, i: nat)
    requires i < |rs| && rs[i].value.Some?
    requires forall j :: i < j < |rs| && rs[j].year == rs[i].year ==> rs[j].value.None?
    ensures rs[i].year in Collect(rs).values
    ensures Collect(rs).values[rs[i].year] == rs[i].value.value
  {
    var init := rs[..|rs| - 1];
    if i < |rs| - 1 {
      assert init[i] == rs[i];
      forall j | i < j < |init| && init[j].year == init[i].year
        ensures init[j].value.None?
      {
        assert init[j] == rs[j];
      }
      CollectLastReadingWins(init, i);
    }
  }

  /** The year dictionary of one analysis: the readings of the driving statement's columns. */
  function YearValues(kind: Metric, f: Filings): YearDict {
    Collect(Readings(kind, f, Driver(kind, f).columns))
  }

  /** A year is a key of an analysis' dictionary exactly when some column of the driving
      statement in that year yields a value. */
  lemma YearValuesKeys(kind: Metric, f: Filings, y: int)
    ensures y in YearValues(kind, f).values <==>
            exists c :: c in Driver(kind, f).columns && c.date.year == y && MetricAt(kind, f, c.date).Some?
  {
    ReadingsKeys(kind, f, Driver(kind, f).columns, y);
  }

  /** The same, for any sequence of columns. */
  lemma ReadingsKeys(kind: Metric, f: Filings, cols: seq<Column>, y: int)
    ensures y in Collect(Readings(kind, f, cols)).values <==>
            exists c :: c in cols && c.date.year == y && MetricAt(kind, f, c.date).Some?
  {
    var rs := Readings(kind, f, cols);
    CollectKeys(rs, y);
    if exists c :: c in cols && c.date.year == y && MetricAt(kind, f, c.date).Some? {
      var c :| c in cols && c.date.year == y && MetricAt(kind, f, c.date).Some?;
      var k :| 0 <= k < |cols| && cols[k] == c;
      assert rs[k].year == y && rs[k].value.Some?;
    }
  }

  /** The source's loop over the statement's columns, with the dictionary as loop state. */
  method CollectYearValues(kind: Metric, f: Filings) returns (d: YearDict)
    ensures d == YearValues(kind, f)
    ensures WellFormed(d)
    ensures forall y :: y in d.values <==> exists c :: c in Driver(kind, f).columns && c.date.year == y && MetricAt(kind, f, c.date).Some?
  {
    var cols := Driver(kind, f).columns;
    ghost var rs := Readings(kind, f, cols);
    d := EmptyDict;
    var i := 0;
    while i < |cols|
      invariant 0 <= i <= |cols|
      invariant d == Collect(rs[..i])
    {
      var date := cols[i].date;
      var value := MetricAt(kind, f, date);
      CollectStep(rs, i);
      if value.Some? {
        d := Put(d, date.year, value.value);
      }
      i := i + 1;
    }
    assert rs[..|cols|] == rs;
    forall y
      ensures y in d.values <==> exists c :: c in cols && c.date.year == y && MetricAt(kind, f, c.date).Some?
    {
      YearValuesKeys(kind, f, y);
    }
  }

  /** Collecting one more reading. */
  lemma CollectStep(rs: seq<Reading>, i: nat)
    requires i < |rs|
    ensures Collect(rs[..i + 1]) == if rs[i].value.Some? then Put(Collect(rs[..i]), rs[i].year, rs[i].value.value) else Collect(rs[..i])
  {
    assert rs[..i + 1][..i] == rs[..i];
  }
}
