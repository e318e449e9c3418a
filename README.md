# Stock analysis valuation arithmetic in Dafny

This project models the deterministic arithmetic of a small stock-analysis toolkit. The toolkit
has three Python programs:

- `Stock_Analysis_Python_Script/StockAnalysis.py` holds the `StockAnalysis` class. Its methods
  - build year-keyed dictionaries of ROIC, stockholders' equity, EPS, revenue and free cash flow
    from the provider's statements;
  - derive year-over-year growth lists and their averages;
  - value the company with two discounted-cash-flow (DCF) models;
  - compare earnings and dividend yields with the 10-year Treasury yield.
- `ROICCalculator.py` and `stock_analysis_tool.py` are earlier module-level scripts with the same
  metrics and different edge-case rules.

Amounts are exact `real`s. Where numpy would produce an infinity or NaN (the older scripts
divide without guards), the value is an `Extended` (`Finite`, `PosInf`, `NegInf` or `NaN`).
Everything the programs fetch from the market-data provider, read from a prompt or print
becomes a parameter or a result. The modules are:

- `Common`: `Option`, Python truthiness, sums and means, powers, the insertion-ordered `Dict`
  (a Python dictionary), and float64 division by zero.
- `Statements`: a financial statement as line items by period, and cell lookup.
- `Growth`: ascending year order, the percentage-point and |previous|-based growth rules, the
  loops that build the growth tables, `calculate_average_growth`, and the growth bands.
- `Metrics`: the per-period ROIC, equity, EPS, revenue and free-cash-flow figures, and the loop
  that collects them into a year dictionary.
- `Valuation`: `calculate_dcf` and `calculate_amzn_dcf`, which share one projection loop.
- `Yields`: the bond yield fallback, P/E and earnings yields, the breakeven price, the yield
  margin of safety and the market-cap scenario.
- `Analysis`: the `StockAnalysis` class, with its `avg_*` fields updated by its methods.
- `RoicCalculator`: `ROICCalculator.py`. Its equity, sales and free-cash-flow loops are the same
  text in `stock_analysis_tool.py`, so they are modelled once and cited for both files.
- `AnalysisTool`: what `stock_analysis_tool.py` does differently.

In `calculate_dcf` the printed list of formulas mentions a terminal value. The code adds only
the present values of the projected years, and the model follows the code. In
`calculate_amzn_dcf` the projection runs with the terminal growth rate as given; the clamp below
the discount rate applies only to the Gordon terminal value computed afterwards. The
reinvestment-adjusted starting cash flow is operating cash flow less the 33% maintenance share,
that is 0.67 of it, as the code computes.

## Model

| member | source | states |
|---|---|---|
| Common.Mean | Stock_Analysis_Python_Script/StockAnalysis.py:385-390 | The average is None exactly for an empty list; otherwise the average times the count is the sum |
| Common.Put | Stock_Analysis_Python_Script/StockAnalysis.py:309 | Assigning `d[key]` keeps the dictionary well formed and updates that key's value; a new key is appended to the key order and an existing key keeps its place |
| Common.Quotient | ROICCalculator.py:16 | float64 division: finite exactly when the divisor is non-zero, with quotient times divisor equal to the dividend; for a zero divisor +inf exactly for a positive dividend, −inf exactly for a negative one, and NaN exactly for 0/0 |
| Statements.Lookup | Stock_Analysis_Python_Script/StockAnalysis.py:296-302 | `statement.loc[item, date]` has a value exactly when the item is a line item of the statement and the first column of that date has a cell for it, and the value is a cell of that item in a column of that date |
| Statements.LookupFindsCell | Stock_Analysis_Python_Script/StockAnalysis.py:296-302 | A line item of the statement with a cell in the first column of a date yields exactly that cell |
| Growth.SortedYears | Stock_Analysis_Python_Script/StockAnalysis.py:335 | `sorted(keys)` is strictly increasing and holds exactly the keys |
| Growth.InYearOrder | Stock_Analysis_Python_Script/StockAnalysis.py:335-343 | The i-th value is the dictionary's value for the i-th year in ascending order |
| Growth.PercentChange | Stock_Analysis_Python_Script/StockAnalysis.py:460-461 | The rate is positive exactly when the value rose and negative exactly when it fell, even from a negative base; prev + rate·\|prev\|/100 gives back curr |
| Growth.PercentChangeTable | Stock_Analysis_Python_Script/StockAnalysis.py:450-467 | One row per year after the base year; a row has a rate exactly when the previous value is non-zero ("N/A" otherwise); the appended rates are the rows that have a value, in year order |
| Growth.PointChangeTable | Stock_Analysis_Python_Script/StockAnalysis.py:335-346 | One percentage-point change (current minus previous) per consecutive pair of years, so there is one entry fewer than there are ROIC years |
| Growth.PointChangesTelescope | Stock_Analysis_Python_Script/StockAnalysis.py:345-346 | The percentage-point changes add up to the last ROIC minus the first |
| Growth.AverageRoicGrowthIsNetChange | Stock_Analysis_Python_Script/StockAnalysis.py:385-386 | The average ROIC growth equals the net change divided by the number of year-to-year steps |
| Growth.NoZeroBaseKeepsEveryRate | Stock_Analysis_Python_Script/StockAnalysis.py:460-462 | With no zero base, every year after the base year contributes its rate, in order |
| Growth.AverageGrowth | Stock_Analysis_Python_Script/StockAnalysis.py:519-524 | None exactly when no non-NaN rate remains; otherwise it is the mean of the valid rates |
| Growth.AverageGrowthWithinBounds | Stock_Analysis_Python_Script/StockAnalysis.py:519-524 | The average lies within any bounds that hold for all valid rates |
| Growth.AllNaNHasNoAverage | Stock_Analysis_Python_Script/StockAnalysis.py:521-524 | A list of NaN entries only has no average |
| Growth.ClassifyGrowth | Stock_Analysis_Python_Script/StockAnalysis.py:1576-1588 | NO DATA exactly for a missing rate; STRONG above 15, GOOD in (10, 15], MODERATE in (5, 10], SLOW in (0, 5], NEGATIVE at or below 0 |
| Growth.ClassifyGrowthMonotone | Stock_Analysis_Python_Script/StockAnalysis.py:1579-1588 | A higher rate never falls in a lower band |
| Metrics.RoicPercent | Stock_Analysis_Python_Script/StockAnalysis.py:296-309 | A ROIC exists exactly when invested capital (total assets − current liabilities − cash) is non-zero, and then ROIC × invested capital = NOPAT × 100 with NOPAT = operating income × (1 − tax rate) |
| Metrics.RoicPositiveIff | Stock_Analysis_Python_Script/StockAnalysis.py:305-308 | ROIC is positive exactly when NOPAT and invested capital have the same sign and are non-zero |
| Metrics.EarningsPerShare | Stock_Analysis_Python_Script/StockAnalysis.py:541-546 | An EPS exists exactly when diluted shares are non-zero, and EPS × shares = net income |
| Metrics.FreeCashFlowOf | Stock_Analysis_Python_Script/StockAnalysis.py:748-751 | Free cash flow never exceeds operating cash flow; the difference is \|capital expenditure\| |
| Metrics.FreeCashFlowSignFree | Stock_Analysis_Python_Script/StockAnalysis.py:751 | The sign with which capital expenditure is reported does not change free cash flow |
| Metrics.FirstLabelIn | Stock_Analysis_Python_Script/StockAnalysis.py:423-429 | The chosen equity label is one of the candidates and a row of the balance sheet; there is none exactly when no candidate is a row |
| Metrics.FirstLabelInIsEarliest | Stock_Analysis_Python_Script/StockAnalysis.py:426-429 | The chosen label is the first candidate, in list order, that is a row |
| Metrics.CollectKeys | Stock_Analysis_Python_Script/StockAnalysis.py:293-321 | A year is a key exactly when some period of that year yields a value; skipped periods never become zero entries |
| Metrics.CollectLastReadingWins | Stock_Analysis_Python_Script/StockAnalysis.py:293-309 | When two periods share a year, the year keeps the value of the period that comes last in the statement's column order. The columns are newest first, so that is the older period of the year |
| Metrics.ReadingsKeys | Stock_Analysis_Python_Script/StockAnalysis.py:293-321 | Over any columns, a year is a key exactly when some column of that year yields a value |
| Metrics.YearValuesKeys | Stock_Analysis_Python_Script/StockAnalysis.py:293-321 | A year is a key of an analysis' dictionary exactly when some column of the driving statement in that year yields a value |
| Metrics.CollectYearValues | Stock_Analysis_Python_Script/StockAnalysis.py:293-324 | The column loop builds exactly the specified dictionary: well formed, with a key for each year in which some column yields a value |
| Valuation.ProjectedFcfClosedForm | Stock_Analysis_Python_Script/StockAnalysis.py:934-945 | The t-th projected cash flow is base × (1+g)^min(t,5) × (1+tg)^(t−min(t,5)): years 1–5 grow at the near-term rate (lines 938-943) and later years at the terminal rate |
| Valuation.DiscountFactor | Stock_Analysis_Python_Script/StockAnalysis.py:948 | The factor times (1+r)^t is 1 |
| Valuation.DiscountFactorDecreasing | Stock_Analysis_Python_Script/StockAnalysis.py:948 | With a positive discount rate, each later year's factor is positive and smaller |
| Valuation.ProjectCashFlows | Stock_Analysis_Python_Script/StockAnalysis.py:934-950 | The loop fails only when some year needs a zero power of 1+r; otherwise it produces exactly the specified cash flows and present values, one per projection year |
| Valuation.FlatRatesKeepPresentValue | Stock_Analysis_Python_Script/StockAnalysis.py:947-949 | When cash flows grow at the discount rate, every year's present value equals the starting cash flow |
| Valuation.MarginOfSafety | Stock_Analysis_Python_Script/StockAnalysis.py:976 | None exactly for a zero fair value; margin × fair = (fair − price) × 100; for a positive fair value the margin is positive exactly when the price is below it |
| Valuation.CalculateDcf | Stock_Analysis_Python_Script/StockAnalysis.py:934-976 | A valuation exists exactly when the cash flow, share count and price are known, the shares are non-zero and discounting is possible. Enterprise value is the sum of the present values, fair value × shares = enterprise value, and the margin is that of the fair value against the price |
| Valuation.AdjustedFcf | Stock_Analysis_Python_Script/StockAnalysis.py:1067-1069 | The adjusted cash flow is 0.67 of operating cash flow |
| Valuation.ClampTerminalGrowth | Stock_Analysis_Python_Script/StockAnalysis.py:1115-1118 | The Gordon denominator r − g is always positive; a rate below r is kept, otherwise r − g is exactly 0.02 |
| Valuation.GordonTerminalValue | Stock_Analysis_Python_Script/StockAnalysis.py:1121 | Terminal value × (r − g) = last cash flow × (1 + g) |
| Valuation.TerminalValueNegativeIff | Stock_Analysis_Python_Script/StockAnalysis.py:1121-1128 | With a positive denominator r − g, the terminal value is negative (and the valuation aborts) exactly when the last cash flow and 1 + g have opposite signs |
| Valuation.PerShare | Stock_Analysis_Python_Script/StockAnalysis.py:1131-1144 | None exactly when the share count is falsy or the total is zero (the fair value is then 0 and the margin divides by it); otherwise fair value × shares = total and the margin is that of the fair value against the price |
| Valuation.CalculateReinvestmentDcf | Stock_Analysis_Python_Script/StockAnalysis.py:1087-1144 | A result has a non-negative terminal value, enterprise value = sum of present values + discounted terminal value, fair value × shares = enterprise value with truthy shares, and the margin against the price. With valid inputs, no result means a negative terminal value, falsy shares or a zero fair value |
| Yields.BondYield | Stock_Analysis_Python_Script/StockAnalysis.py:1167-1190 | Always positive: the latest close if positive, else the market price if positive, else 4.0 |
| Yields.PercentOfPrice | Stock_Analysis_Python_Script/StockAnalysis.py:1213-1219 | yield × price = amount × 100 when both are truthy, otherwise 0 |
| Yields.EarningsYieldTimesPe | Stock_Analysis_Python_Script/StockAnalysis.py:1211-1219 | Earnings yield times P/E is 100 |
| Yields.PriceOverEps | Stock_Analysis_Python_Script/StockAnalysis.py:1211-1212 | P/E × EPS = price for a truthy EPS, otherwise 0 |
| Yields.ForwardBreakeven | Stock_Analysis_Python_Script/StockAnalysis.py:1204-1207 | breakeven × bond yield = forward EPS × 100 when both are truthy, otherwise 0 |
| Yields.PeAndEarningsYield | Stock_Analysis_Python_Script/StockAnalysis.py:1200-1242 | The summary's ratios and yields follow those rules; total yield = forward earnings yield + the stored dividend yield; OVER exactly when price > breakeven |
| Yields.OvervaluedIffYieldBelowBond | Stock_Analysis_Python_Script/StockAnalysis.py:1240-1242 | For positive EPS, price and bond yield, OVER holds exactly when the forward earnings yield is below the bond yield |
| Yields.YieldMarginOfSafety | Stock_Analysis_Python_Script/StockAnalysis.py:1258-1294 | Margin = earnings yield + dividend yield − bond yield; STRONG above 5, MODERATE in (2, 5], MINIMAL in (0, 2], negative spread otherwise |
| Yields.MarketCap | Stock_Analysis_Python_Script/StockAnalysis.py:1310 | The market cap is zero exactly when the price or the share count is zero; the same code is at ROICCalculator.py:193 |
| Yields.PercentChangeSigned | Stock_Analysis_Python_Script/StockAnalysis.py:1335-1336 | Defined exactly for a non-zero base, with change × base = (after − before) × 100 |
| Yields.Breakeven | Stock_Analysis_Python_Script/StockAnalysis.py:1370-1374 | breakeven × bond = (EPS + dividend) × 100 when EPS and the bond yield are non-zero, otherwise 0 |
| Yields.BreakevenEqualizesYield | Stock_Analysis_Python_Script/StockAnalysis.py:1364-1372 | At the breakeven price, (EPS + dividend)/price × 100 equals the bond yield |
| Yields.PriceMargin | Stock_Analysis_Python_Script/StockAnalysis.py:1384-1385 | margin × breakeven = (breakeven − price) × 100 |
| Yields.PriceMarginSign | Stock_Analysis_Python_Script/StockAnalysis.py:1383-1385 | For a positive breakeven, the margin is positive exactly when the price is below it |
| Yields.ScenarioTable | Stock_Analysis_Python_Script/StockAnalysis.py:1323-1385 | Each row of the scenario follows the rules above. The target total yield uses the current dividend yield |
| Yields.MarketCapScenario | Stock_Analysis_Python_Script/StockAnalysis.py:1303-1421 | A missing price or share count fails before the answer is read; only "Y", "y" or "" asks for a price; a table exists exactly when the divisions and the bond lookup succeed |
| Yields.MarketCapChangeIsPriceChange | Stock_Analysis_Python_Script/StockAnalysis.py:1335-1336 | With fixed shares, market cap changes by the same percentage as the price |
| Yields.TargetSpreadAtBreakeven | Stock_Analysis_Python_Script/StockAnalysis.py:1347-1381 | Priced at the breakeven, the target yield spread is zero exactly when there is no dividend or the current price already equals the breakeven, because the dividend yield stays at the current price |
| Analysis.PercentAverageIsMean | Stock_Analysis_Python_Script/StockAnalysis.py:499-500 | The stored percentage-change average is the plain mean of the appended rates |
| Analysis.StockAnalysis.constructor | Stock_Analysis_Python_Script/StockAnalysis.py:31-33 | No average is known yet; the dividend yield is the dividend rate over the current price × 100 when both are truthy, else 0 |
| Analysis.StockAnalysis.AnalyzeRoic | Stock_Analysis_Python_Script/StockAnalysis.py:277-390 | None (with no average) exactly when a statement is empty or no year has a ROIC; otherwise the ROIC dictionary and the mean percentage-point change |
| Analysis.StockAnalysis.AnalyzeEquityGrowth | Stock_Analysis_Python_Script/StockAnalysis.py:405-504 | None exactly when the balance sheet is empty or no year has equity; otherwise the equity dictionary and the average of the appended rates |
| Analysis.StockAnalysis.EpsGrowthRate | Stock_Analysis_Python_Script/StockAnalysis.py:526-620 | The EPS dictionary; the average of the appended rates, or None when none was appended |
| Analysis.StockAnalysis.SalesGrowthRate | Stock_Analysis_Python_Script/StockAnalysis.py:634-718 | The revenue dictionary and its average growth, as for EPS |
| Analysis.StockAnalysis.FreeCashFlowGrowthRate | Stock_Analysis_Python_Script/StockAnalysis.py:733-825 | The free-cash-flow dictionary and its average growth, as for EPS |
| Analysis.StockAnalysis.DisplayPeAndEarningsYield | Stock_Analysis_Python_Script/StockAnalysis.py:1192-1246 | Stores only the breakeven price, which is the summary's breakeven |
| Analysis.StockAnalysis.GetMarginOfSafety | Stock_Analysis_Python_Script/StockAnalysis.py:1248-1298 | Stores the bond yield and reports the yield margin |
| RoicCalculator.ItemOrZero | ROICCalculator.py:22-24 | `frame.get(item, 0)` is the item's series when present, and all zeros otherwise |
| RoicCalculator.PeriodRoic | ROICCalculator.py:15-28 | Finite exactly when pretax income and invested capital (TA − CL + (LTD − STD)) are non-zero; then ROIC × invested capital = operating income × (1 − provision/pretax) × 100 |
| RoicCalculator.RoicSeries | ROICCalculator.py:15-28 | One value per period, finite exactly when pretax income and invested capital (TA − CL + (LTD − STD), missing debts as 0) are non-zero |
| RoicCalculator.Roic | ROICCalculator.py:7-28 | None (standing for the uncaught KeyError that ends the script) exactly when operating income, tax provision, pretax income, total assets or current liabilities is missing; otherwise the series above with the reported current liabilities |
| RoicCalculator.RoicAgreesWithCashRule | ROICCalculator.py:20-28 | When long-term minus short-term debt equals −cash, this ROIC equals the cash-based ROIC of the class |
| RoicCalculator.RoicDisplayOldestFirst | ROICCalculator.py:32-34 | At most 10 lines, oldest year first, each year with its own ROIC; for newest-first input they are the ten latest years; the same code is at stock_analysis_tool.py:91 |
| RoicCalculator.EquityRate | ROICCalculator.py:55-58 | +infinity exactly for a zero start; otherwise finite with rate × start = (end − start) × 100 |
| RoicCalculator.EquityGrowthRates | ROICCalculator.py:36-62 | None (standing for the uncaught KeyError that ends the script) exactly when the equity line is missing; otherwise the backward loop builds exactly the specified dictionary; the same code is at stock_analysis_tool.py:95-121 |
| RoicCalculator.EquityLoop | ROICCalculator.py:48-60 | Walking from the latest period back to the oldest, the loop builds exactly the dictionary of the specified equity entries, whose layout is stated next |
| RoicCalculator.EquityGrowthShape | ROICCalculator.py:48-60 | With distinct years: length − 1 entries, keyed older → newer, oldest pair first, each with its pair's rate |
| RoicCalculator.EquityRateVersusPercentChange | ROICCalculator.py:55-58 | The same rate as the class for a positive base, the opposite sign for a negative base, and +infinity where the class skips |
| RoicCalculator.SignedGrowth | ROICCalculator.py:114 | Finite exactly for a non-zero initial value, with rate × initial = (final − initial) × 100; a zero initial value gives +inf, −inf or NaN by the sign of the final value |
| RoicCalculator.EquityRateIsSignedGrowth | ROICCalculator.py:58 | The equity rule and the sales rule agree on every non-zero base |
| RoicCalculator.SignedGrowthRates | ROICCalculator.py:110-116 | The backward loop builds exactly the specified dictionary; the same code is at stock_analysis_tool.py:169-175 |
| RoicCalculator.SignedGrowthShape | ROICCalculator.py:110-116 | With distinct years: length − 1 entries, keyed by the newer year, oldest first, each with the signed growth into that year |
| RoicCalculator.SignedGrowthVersusPercentChange | ROICCalculator.py:114 | Equal to the class's rate for a positive base, the negative of it for a negative base |
| RoicCalculator.SalesGrowthRate | ROICCalculator.py:91-118 | None (standing for the uncaught KeyError that ends the script) exactly when the revenue line is missing; otherwise the signed growth dictionary of the revenue; the same code is at stock_analysis_tool.py:150-177 |
| RoicCalculator.LegacyFreeCashFlowVersusCurrent | ROICCalculator.py:140 | OCF + capex equals the class's OCF − \|capex\| for non-positive capex, and exceeds it by 2 × capex otherwise |
| RoicCalculator.FreeCashFlowGrowthRate | ROICCalculator.py:121-153 | None (standing for the uncaught KeyError that ends the script) exactly when either cash-flow line is missing; otherwise the signed growth dictionary of OCF + capex; the same code is at stock_analysis_tool.py:180-212 |
| RoicCalculator.EpsGrowth | ROICCalculator.py:85 | Finite exactly for a non-zero start, with rate × start = (end − start) × 100 |
| RoicCalculator.EpsGrowthIsSignedGrowth | ROICCalculator.py:85 | The EPS rule equals the signed sales rule, infinities and NaN included |
| RoicCalculator.EpsGrowthRates | ROICCalculator.py:65-88 | None exactly with fewer than two rows; otherwise the forward loop builds exactly the specified dictionary |
| RoicCalculator.EpsGrowthShape | ROICCalculator.py:79-86 | With distinct labels: rows − 1 entries in forward order, keyed start → end, each ((end/start) − 1) × 100 |
| RoicCalculator.PeRatio | ROICCalculator.py:169-180 | A ratio exactly for a truthy EPS, with ratio × EPS = price |
| RoicCalculator.PeRatioVersusCurrent | ROICCalculator.py:169-177 | Where this gives a ratio, the class gives the same one; where this gives none, the class shows 0 |
| AnalysisTool.Roic | stock_analysis_tool.py:65-87 | Some exactly when operating revenue, tax provision, pretax income and total assets are all present, None standing for the uncaught KeyError that ends the script otherwise; the value is then the same series with operating revenue as income and current liabilities defaulting to 0 |
| AnalysisTool.RoicVersusCalculator | stock_analysis_tool.py:72-84 | With equal operating lines, this ROIC equals ROICCalculator.py's when current liabilities are reported. Without them only this one produces a series |
| AnalysisTool.MarketCapAtPrice | stock_analysis_tool.py:299-305 | A result exactly for the answer "Y"; it is price × shares, zero exactly when either factor is |
| AnalysisTool.ShareVolume | stock_analysis_tool.py:263-280 | Both volumes when both are known; (None, None) as soon as either is missing |

## Left out

- Market data: every provider call is left out (`yf.Ticker`, `.info`, `.history`, the statements, `yf.download`). Its values are parameters. The two lookups of `get_bond_yield` enter as the optional close and market price of `Yields.BondYield`. An exception in the history lookup makes the source return 4.0 at once without asking for the market price; the caller models that by passing None for both.
- Interaction: the `input()` prompts and the class-level `_dcf_has_run` flag are left out. DCF parameters, the yes/no answer and the entered price are parameters. A non-numeric entered price (a `ValueError`) is not modelled.
- Output: printing, box and table layout, and `format_ebit`, `format_cashflow` and `format_market_cap` are left out, as is `calculation_details`, which is only printed.
- `compare_annual_performance` in both files is left out. It depends on pandas resampling and a CAGR with a fractional exponent.
- `display_stock_info`, `remind_fundamental_principle` and `analyze_profit_factors` are left out because they only print text. So is the driver code at the bottom of each file.
- `get_current_stock_price`, `get_shares_outstanding` and `get_current_market_cap` are left out. They are single provider lookups.
- ROICCalculator.py's `fetch_share_volume_data` is left out. It is a plain lookup of two fields with no rule of its own.
- Floating point: rounding is not modelled, and signed zeros are not modelled.
- Statements.Lookup: when a statement has two columns of the same date, `.loc` returns a Series, `float()` raises and the period is skipped; the model takes the first column of that date instead.
- Statements.Lookup: a NaN cell is treated as a missing cell. In `analyze_equity_growth` this matches the `pd.isna` skip. In `analyze_roic`, `eps_growth_rate`, `sales_growth_rate` and `free_cash_flow_growth_rate` the source would store a NaN value for that year instead of skipping it.
- Yields.Quote: a quote field present with the value None is treated as absent.
- RoicCalculator.Roic, RoicCalculator.EquityGrowthRates, RoicCalculator.SalesGrowthRate, RoicCalculator.FreeCashFlowGrowthRate, AnalysisTool.Roic: these functions never return None in the source; a missing line item raises a KeyError that nothing catches and the script ends. The model writes that outcome as None, the same value `eps_growth_rate` returns for fewer than two rows.
- RoicCalculator.Roic: the financials and the balance sheet are taken as one frame over the same periods. Pandas index alignment of two statements with different periods is not modelled.
- RoicCalculator.Roic, RoicCalculator.EquityGrowthRates, RoicCalculator.SalesGrowthRate, RoicCalculator.FreeCashFlowGrowthRate, RoicCalculator.EpsGrowthRates: a line item holds real numbers only. NaN cells inside a present line item are not modelled; numpy would carry such a NaN into the ROIC or growth rate of that period.
- RoicCalculator.EpsGrowthRates: the `earnings_growth` table is taken as given, as row labels and EPS values. A missing 'Earnings Per Share' column (a `KeyError`) is not modelled.
- RoicCalculator.EquityGrowthRates: the string keys "older to newer" are modelled as the pair of years, which identifies the string.
- Valuation.CalculateReinvestmentDcf: reusing the regular DCF's parameters (`hasattr(self, 'dcf_years')`) is left to the caller, who passes the parameters.
