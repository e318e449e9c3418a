/** The module-level functions of ROICCalculator.py, the earlier form of the analysis: ROIC with
    debt in invested capital, equity, EPS, sales and free-cash-flow growth dictionaries, and the
    P/E guards. The values are numpy float64 scalars and series, so a division by zero yields an
    infinity or NaN (`Extended`) instead of stopping the computation. */
module RoicCalculator {
  import opened Common
  import opened Growth
  import opened Metrics
  import opened Yields

  /** A statement as the scripts index it: the years of its periods, in the provider's order
      (newest first), and one series per line item. */
  datatype Frame = Frame(years: seq<int>, items: map<string, seq<real>>)

  ghost predicate Rectangular(f: Frame) {
    forall item :: item in f.items ==> |f.items[item]| == |f.years|
  }

  /** `frame.get(item, 0)`: the series, or zeros when the line item is missing. */
  function ItemOrZero(f: Frame, item: string): (s: seq<real>)
    requires Rectangular(f)
    ensures |s| == |f.years|
    ensures item in f.items ==> s == f.items[item]
    ensures item !in f.items ==> forall i :: 0 <= i < |s| ==> s[i] == 0.0
  {
    if item in f.items then f.items[item] else seq(|f.years|, i => 0.0)
  }

  /** The dictionary built by assigning the entries in order. */
  function FromEntries<K(==,!new), V>(es: seq<(K, V)>): (d: Dict<K, V>)
    ensures WellFormed(d)
  {
    if es == [] then Dict([], map[])
    else Put(FromEntries(es[..|es| - 1]), es[|es| - 1].0, es[|es| - 1].1)
  }

  /** Assigning the next entry to the dictionary of the entries before it. */
  lemma FromEntriesStep<K(!new), V>(es: seq<(K, V)>, k: nat, d: Dict<K, V>, key: K, value: V)
    requires k < |es| && d == FromEntries(es[..k]) && es[k] == (key, value)
    ensures FromEntries(es[..k + 1]) == Put(d, key, value)
  {
    assert es[..k + 1][..k] == es[..k];
  }

  function KeysOf<K, V>(es: seq<(K, V)>): (ks: seq<K>)
    ensures |ks| == |es|
  {
    seq(|es|, i requires 0 <= i < |es| => es[i].0)
  }

  ghost predicate DistinctKeys<K, V>(es: seq<(K, V)>) {
    forall i, j :: 0 <= i < j < |es| ==> es[i].0 != es[j].0
  }

  /** With distinct keys nothing is overwritten: one key per entry, in entry order, each with
      its entry's value. */
  lemma FromDistinctEntries<K(!new), V>(es: seq<(K, V)>)
    requires DistinctKeys(es)
    ensures FromEntries(es).keys == KeysOf(es)
    ensures forall i :: 0 <= i < |es| ==> es[i].0 in FromEntries(es).values && FromEntries(es).values[es[i].0] == es[i].1
  {
    FromDistinctKeys(es);
    FromDistinctValues(es);
  }

  lemma {:induction false} FromDistinctKeys<K(!new), V>(es: seq<(K, V)>)
    requires DistinctKeys(es)
    ensures FromEntries(es).keys == KeysOf(es)
  {
    if es != [] {
      var init := es[..|es| - 1];
      var last := es[|es| - 1];
      DistinctInit(es);
      FromDistinctKeys(init);
      var d := FromEntries(init);
      assert last.0 !in d.values by {
        assert last.0 !in d.keys;
      }
      assert FromEntries(es).keys == d.keys + [last.0];
      assert KeysOf(es) == KeysOf(init) + [last.0];
    }
  }

  lemma {:induction false} FromDistinctValues<K(!new), V>(es: seq<(K, V)>)
    requires DistinctKeys(es)
    ensures forall i :: 0 <= i < |es| ==> es[i].0 in FromEntries(es).values && FromEntries(es).values[es[i].0] == es[i].1
  {
    if es != [] {
      var init := es[..|es| - 1];
      var last := es[|es| - 1];
      DistinctInit(es);
      FromDistinctValues(init);
      var d := FromEntries(init);
      var r := FromEntries(es);
      assert r.values == d.values[last.0 := last.1];
      forall i | 0 <= i < |es|
        ensures es[i].0 in r.values && r.values[es[i].0] == es[i].1
      {
        if i < |init| {
          assert init[i] == es[i];
          assert es[i].0 != last.0;
        }
      }
    }
  }

  /** Dropping the last entry keeps the keys distinct, and the last key is not among the rest. */
  lemma DistinctInit<K, V>(es: seq<(K, V)>)
    requires DistinctKeys(es) && es != []
    ensures DistinctKeys(es[..|es| - 1])
    ensures es[|es| - 1].0 !in KeysOf(es[..|es| - 1])
  {
    var init := es[..|es| - 1];
    forall i, j | 0 <= i < j < |init|
      ensures init[i].0 != init[j].0
    {
      assert init[i] == es[i] && init[j] == es[j];
    }
    forall i | 0 <= i < |init|
      ensures KeysOf(init)[i] != es[|es| - 1].0
    {
      assert KeysOf(init)[i] == es[i].0;
    }
  }

  /** The same, entry by entry. */
  lemma DistinctEntriesAt<K(!new), V>(es: seq<(K, V)>, d: Dict<K, V>)
    requires DistinctKeys(es) && d == FromEntries(es)
    ensures |d.keys| == |es|
    ensures forall i :: 0 <= i < |es| ==> d.keys[i] == es[i].0 && d.keys[i] in d.values && d.values[d.keys[i]] == es[i].1
  {
    FromDistinctEntries(es);
    forall i | 0 <= i < |es|
      ensures d.keys[i] == es[i].0
    {
      assert d.keys[i] == KeysOf(es)[i];
    }
  }

  // ROIC

  function LegacyInvestedCapital(totalAssets: real, currentLiabilities: real, longTermDebt: real, shortTermDebt: real): real {
    totalAssets - currentLiabilities + (longTermDebt - shortTermDebt)
  }

  /** ROIC of one period: NOPAT, operating income less the tax provision's share of pretax
      income, times 100 over invested capital. Finite exactly when pretax income and invested
      capital are non-zero. */
  function PeriodRoic(operatingIncome: real, taxProvision: real, pretaxIncome: real, totalAssets: real,
                      currentLiabilities: real, longTermDebt: real, shortTermDebt: real): (r: Extended)
    ensures r.Finite? <==> pretaxIncome != 0.0 && LegacyInvestedCapital(totalAssets, currentLiabilities, longTermDebt, shortTermDebt) != 0.0
    ensures r.Finite? ==> r.value * LegacyInvestedCapital(totalAssets, currentLiabilities, longTermDebt, shortTermDebt)
                          == Nopat(operatingIncome, taxProvision / pretaxIncome) * 100.0
  {
    var taxRate := Quotient(taxProvision, pretaxIncome);
    var nopat := Times(operatingIncome, Plus(1.0, Negate(taxRate)));
    Over(Times(100.0, nopat), LegacyInvestedCapital(totalAssets, currentLiabilities, longTermDebt, shortTermDebt))
  }

  /** The whole-series ROIC of both scripts: per period, the given income item and current
      liabilities, and the debts of the balance sheet or zero. */
  function RoicSeries(f: Frame, incomeItem: string, currentLiabilities: seq<real>): (r: seq<Extended>)
    requires Rectangular(f) && |currentLiabilities| == |f.years|
    requires incomeItem in f.items && "Tax Provision" in f.items && "Pretax Income" in f.items && "Total Assets" in f.items
    ensures |r| == |f.years|
    ensures forall i :: 0 <= i < |f.years| ==>
      (r[i].Finite? <==>
        (f.items["Pretax Income"][i] != 0.0 &&
         LegacyInvestedCapital(f.items["Total Assets"][i], currentLiabilities[i],
                               ItemOrZero(f, "Long Term Debt")[i], ItemOrZero(f, "Short Term Debt")[i]) != 0.0))
  {
    var longTermDebt := ItemOrZero(f, "Long Term Debt");
    var shortTermDebt := ItemOrZero(f, "Short Term Debt");
    seq(|f.years|, i requires 0 <= i < |f.years| =>
      PeriodRoic(f.items[incomeItem][i], f.items["Tax Provision"][i], f.items["Pretax Income"][i],
                 f.items["Total Assets"][i], currentLiabilities[i], longTermDebt[i], shortTermDebt[i]))
  }

  /** The line items `roic_growth_rate` indexes directly are all present (a missing one raises
      a KeyError). */
  predicate HasRoicItems(f: Frame) {
    "Operating Income" in f.items && "Tax Provision" in f.items && "Pretax Income" in f.items &&
    "Total Assets" in f.items && "Current Liabilities" in f.items
  }

  /** `roic_growth_rate`: the ROIC series over the statement's periods (financials and balance
      sheet joined by period). None stands for the uncaught KeyError that a missing required line
      item raises, which ends the script; the function itself never returns None. */
  function Roic(f: Frame): (r: Option<seq<Extended>>)
    requires Rectangular(f)
    ensures r.Some? <==> HasRoicItems(f)
    ensures r.Some? ==> r.value == RoicSeries(f, "Operating Income", f.items["Current Liabilities"])
  {
    if HasRoicItems(f) then
      Some(RoicSeries(f, "Operating Income", f.items["Current Liabilities"]))
    else
      None
  }

  /** Where the debts exactly offset the cash, this ROIC agrees with the per-year ROIC of
      StockAnalysis.py, which subtracts cash instead. */
  lemma RoicAgreesWithCashRule(operatingIncome: real, taxProvision: real, pretaxIncome: real, totalAssets: real,
                               currentLiabilities: real, longTermDebt: real, shortTermDebt: real, cash: real)
    requires pretaxIncome != 0.0
    requires longTermDebt - shortTermDebt == -cash
    requires InvestedCapital(totalAssets, currentLiabilities, cash) != 0.0
    ensures PeriodRoic(operatingIncome, taxProvision, pretaxIncome, totalAssets, currentLiabilities, longTermDebt, shortTermDebt)
            == Finite(RoicPercent(operatingIncome, taxProvision / pretaxIncome, totalAssets, currentLiabilities, cash).value)
  {
    var ic := InvestedCapital(totalAssets, currentLiabilities, cash);
    assert LegacyInvestedCapital(totalAssets, currentLiabilities, longTermDebt, shortTermDebt) == ic;
    var a := PeriodRoic(operatingIncome, taxProvision, pretaxIncome, totalAssets, currentLiabilities, longTermDebt, shortTermDebt).value;
    var b := RoicPercent(operatingIncome, taxProvision / pretaxIncome, totalAssets, currentLiabilities, cash).value;
    SameQuotient(a, b, ic);
  }

  lemma SameQuotient(a: real, b: real, d: real)
    requires d != 0.0 && a * d == b * d
    ensures a == b
  {
    assert (a - b) * d == 0.0;
  }

  /** The first ten periods, reversed: the display order of the ROIC printout. */
  function FirstTenReversed<T>(xs: seq<T>): (r: seq<T>)
    ensures |r| == Min(10, |xs|)
    ensures forall i :: 0 <= i < |r| ==> r[i] == xs[|r| - 1 - i]
  {
    var n := Min(10, |xs|);
    seq(n, i requires 0 <= i < n => xs[n - 1 - i])
  }

  /** The displayed (year, ROIC) lines. */
  function RoicDisplay(years: seq<int>, roic: seq<Extended>): (lines: seq<(int, Extended)>)
    requires |years| == |roic|
    ensures |lines| <= 10
  {
    FirstTenReversed(seq(|years|, i requires 0 <= i < |years| => (years[i], roic[i])))
  }

  /** With the provider's newest-first periods, the display runs from the oldest of the ten
      latest years to the latest, and pairs every year with its own ROIC. */
  lemma RoicDisplayOldestFirst(years: seq<int>, roic: seq<Extended>)
    requires |years| == |roic|
    requires forall i, j :: 0 <= i < j < |years| ==> years[i] > years[j]
    ensures var lines := RoicDisplay(years, roic);
            |lines| == Min(10, |years|) &&
            (forall i, j :: 0 <= i < j < |lines| ==> lines[i].0 < lines[j].0) &&
            (forall i :: 0 <= i < |lines| ==> lines[i] == (years[|lines| - 1 - i], roic[|lines| - 1 - i])) &&
            (forall y :: y in years[..|lines|] <==> exists i :: 0 <= i < |lines| && lines[i].0 == y)
  {
    var lines := RoicDisplay(years, roic);
    forall y | y in years[..|lines|]
      ensures exists i :: 0 <= i < |lines| && lines[i].0 == y
    {
      var k :| 0 <= k < |lines| && years[..|lines|][k] == y;
      assert lines[|lines| - 1 - k].0 == y;
    }
  }

  // Growth dictionaries

  /** A "from to to" key of the equity and EPS dictionaries. */
  datatype YearPair = YearPair(from: int, to: int)

  /** Equity growth from startEquity to endEquity: +infinity for a zero start, otherwise
      `(end / start - 1) * 100`. */
  function EquityRate(startEquity: real, endEquity: real): (r: Extended)
    ensures r == PosInf <==> startEquity == 0.0
    ensures r.Finite? <==> startEquity != 0.0
    ensures r.Finite? ==> r.value * startEquity == (endEquity - startEquity) * 100.0
  {
    if startEquity == 0.0 then PosInf else Finite((endEquity / startEquity - 1.0) * 100.0)
  }

  /** The entries a backward loop over consecutive periods assigns, in order: position j holds
      the pair of periods n-1-j (older) and n-2-j (newer), keyed by both years. */
  function BackwardPairEntries<V>(years: seq<int>, values: seq<real>, rate: (real, real) -> V): (es: seq<(YearPair, V)>)
    requires |years| == |values|
    ensures |es| == if values == [] then 0 else |values| - 1
  {
    var n := |values|;
    if n == 0 then []
    else
      seq(n - 1, j requires 0 <= j < n - 1 =>
        (YearPair(years[n - 1 - j], years[n - 2 - j]), rate(values[n - 1 - j], values[n - 2 - j])))
  }

  /** With distinct years nothing is overwritten: one entry per consecutive pair, oldest first. */
  lemma BackwardPairKeysDistinct<V>(years: seq<int>, values: seq<real>, rate: (real, real) -> V)
    requires |years| == |values|
    requires forall i, j :: 0 <= i < j < |years| ==> years[i] != years[j]
    ensures DistinctKeys(BackwardPairEntries(years, values, rate))
  {
    var es := BackwardPairEntries(years, values, rate);
    var n := |values|;
    forall i, j | 0 <= i < j < |es|
      ensures es[i].0 != es[j].0
      {
        assert es[i].0.from == years[n - 1 - i] && es[j].0.from == years[n - 1 - j];
      }
  }

  lemma BackwardPairShape<V>(years: seq<int>, values: seq<real>, rate: (real, real) -> V)
    requires |years| == |values| && values != []
    requires forall i, j :: 0 <= i < j < |years| ==> years[i] != years[j]
    ensures var d := FromEntries(BackwardPairEntries(years, values, rate));
            |d.keys| == |values| - 1 &&
            forall j :: 0 <= j < |values| - 1 ==>
              d.keys[j] == YearPair(years[|values| - 1 - j], years[|values| - 2 - j]) &&
              d.values[d.keys[j]] == rate(values[|values| - 1 - j], values[|values| - 2 - j])
  {
    var es := BackwardPairEntries(years, values, rate);
    BackwardPairKeysDistinct(years, values, rate);
    DistinctEntriesAt(es, FromEntries(es));
    BackwardPairLayout(years, values, rate, FromEntries(es));
  }

  /** A dictionary holding exactly these entries, in order, has this layout. */
  lemma BackwardPairLayout<V>(years: seq<int>, values: seq<real>, rate: (real, real) -> V, d: Dict<YearPair, V>)
    requires |years| == |values| && values != []
    requires var es := BackwardPairEntries(years, values, rate);
             |d.keys| == |es| &&
             forall i :: 0 <= i < |es| ==> d.keys[i] == es[i].0 && d.keys[i] in d.values && d.values[d.keys[i]] == es[i].1
    ensures |d.keys| == |values| - 1 &&
            forall j :: 0 <= j < |values| - 1 ==>
              d.keys[j] == YearPair(years[|values| - 1 - j], years[|values| - 2 - j]) &&
              d.values[d.keys[j]] == rate(values[|values| - 1 - j], values[|values| - 2 - j])
  {
    var es := BackwardPairEntries(years, values, rate);
    var n := |values|;
    forall j | 0 <= j < n - 1
      ensures d.keys[j] == YearPair(years[n - 1 - j], years[n - 2 - j]) && d.values[d.keys[j]] == rate(values[n - 1 - j], values[n - 2 - j])
    {
      assert es[j] == (YearPair(years[n - 1 - j], years[n - 2 - j]), rate(values[n - 1 - j], values[n - 2 - j]));
    }
  }

  function EquityEntries(years: seq<int>, equity: seq<real>): (es: seq<(YearPair, Extended)>)
    requires |years| == |equity|
  {
    BackwardPairEntries(years, equity, EquityRate)
  }

  /** `equity_growth_rates`: the backward loop over the stockholders' equity series. None stands
      for the uncaught KeyError a missing line item raises, which ends the script. */
  method EquityGrowthRates(f: Frame) returns (r: Option<Dict<YearPair, Extended>>)
    requires Rectangular(f)
    ensures r.None? <==> "Stockholders Equity" !in f.items
    ensures r.Some? ==> r.value == FromEntries(EquityEntries(f.years, f.items["Stockholders Equity"]))
  {
    if "Stockholders Equity" !in f.items {
      return None;
    }
    var d := EquityLoop(f.years, f.items["Stockholders Equity"]);
    return Some(d);
  }

  /** The loop of `equity_growth_rates`, from the latest period back to the oldest. */
  method EquityLoop(years: seq<int>, equity: seq<real>) returns (d: Dict<YearPair, Extended>)
    requires |years| == |equity|
    ensures d == FromEntries(EquityEntries(years, equity))
  {
    ghost var es := EquityEntries(years, equity);
    d := Dict([], map[]);
    var i := |equity| - 1;
    while i > 0
      invariant if equity == [] then i == -1 else 0 <= i <= |equity| - 1
      invariant d == FromEntries(es[..|equity| - 1 - i])
    {
      var key := YearPair(years[i], years[i - 1]);
      var rate := EquityRate(equity[i], equity[i - 1]);
      ghost var done := |equity| - 1 - i;
      assert es[done] == (key, rate);
      FromEntriesStep(es, done, d, key, rate);
      d := Put(d, key, rate);
      i := i - 1;
    }
    assert es[..|es|] == es;
  }

  /** With distinct period years the equity dictionary has one entry per consecutive pair,
      the oldest pair first, each keyed "older to newer" with the equity rate of that pair. */
  lemma EquityGrowthShape(years: seq<int>, equity: seq<real>)
    requires |years| == |equity| && equity != []
    requires forall i, j :: 0 <= i < j < |years| ==> years[i] != years[j]
    ensures var d := FromEntries(EquityEntries(years, equity));
            |d.keys| == |equity| - 1 &&
            forall j :: 0 <= j < |equity| - 1 ==>
              d.keys[j] == YearPair(years[|equity| - 1 - j], years[|equity| - 2 - j]) &&
              d.values[d.keys[j]] == EquityRate(equity[|equity| - 1 - j], equity[|equity| - 2 - j])
  {
    BackwardPairShape(years, equity, EquityRate);
  }

  /** The older scripts' rule and the current one: the same value for a positive base, the
      opposite sign for a negative base, and +infinity where the current rule skips the year. */
  lemma EquityRateVersusPercentChange(startEquity: real, endEquity: real)
    ensures startEquity > 0.0 ==> EquityRate(startEquity, endEquity) == Finite(PercentChange(startEquity, endEquity))
    ensures startEquity < 0.0 ==> EquityRate(startEquity, endEquity) == Finite(-PercentChange(startEquity, endEquity))
    ensures startEquity == 0.0 ==> EquityRate(startEquity, endEquity) == PosInf
  {
    if startEquity != 0.0 {
      var r := EquityRate(startEquity, endEquity).value;
      var g := PercentChange(startEquity, endEquity);
      assert g * Abs(startEquity) == (endEquity - startEquity) * 100.0;
      if startEquity > 0.0 {
        SameQuotient(r, g, startEquity);
      } else {
        SameQuotient(r, -g, startEquity);
      }
    }
  }

  /** Growth with a signed denominator and no zero guard, `(final - initial) / initial * 100`:
      a zero initial value gives an infinity signed like the final value, or NaN. */
  function SignedGrowth(initial: real, final: real): (r: Extended)
    ensures r.Finite? <==> initial != 0.0
    ensures r.Finite? ==> r.value * initial == (final - initial) * 100.0
    ensures initial == 0.0 ==> (r == PosInf <==> final > 0.0) && (r == NegInf <==> final < 0.0) && (r == NaN <==> final == 0.0)
  {
    Times(100.0, Quotient(final - initial, initial))
  }

  /** Equity growth and signed growth agree wherever the base is non-zero. */
  lemma EquityRateIsSignedGrowth(startEquity: real, endEquity: real)
    requires startEquity != 0.0
    ensures EquityRate(startEquity, endEquity) == SignedGrowth(startEquity, endEquity)
  {
    SameQuotient(EquityRate(startEquity, endEquity).value, SignedGrowth(startEquity, endEquity).value, startEquity);
  }

  /** The entries a backward loop keyed by the newer period's year assigns, in order. */
  function BackwardYearEntries<V>(years: seq<int>, values: seq<real>, rate: (real, real) -> V): (es: seq<(int, V)>)
    requires |years| == |values|
    ensures |es| == if values == [] then 0 else |values| - 1
  {
    var n := |values|;
    if n == 0 then []
    else seq(n - 1, j requires 0 <= j < n - 1 => (years[n - 2 - j], rate(values[n - 1 - j], values[n - 2 - j])))
  }

  /** With distinct years nothing is overwritten: one entry per newer year, oldest first. */
  lemma BackwardYearKeysDistinct<V>(years: seq<int>, values: seq<real>, rate: (real, real) -> V)
    requires |years| == |values|
    requires forall i, j :: 0 <= i < j < |years| ==> years[i] != years[j]
    ensures DistinctKeys(BackwardYearEntries(years, values, rate))
  {
    var es := BackwardYearEntries(years, values, rate);
    var n := |values|;
    forall i, j | 0 <= i < j < |es|
      ensures es[i].0 != es[j].0
      {
        assert es[i].0 == years[n - 2 - i] && es[j].0 == years[n - 2 - j];
      }
  }

  lemma BackwardYearShape<V>(years: seq<int>, values: seq<real>, rate: (real, real) -> V)
    requires |years| == |values| && values != []
    requires forall i, j :: 0 <= i < j < |years| ==> years[i] != years[j]
    ensures var d := FromEntries(BackwardYearEntries(years, values, rate));
            |d.keys| == |values| - 1 &&
            forall j :: 0 <= j < |values| - 1 ==>
              d.keys[j] == years[|values| - 2 - j] &&
              d.values[d.keys[j]] == rate(values[|values| - 1 - j], values[|values| - 2 - j])
  {
    var es := BackwardYearEntries(years, values, rate);
    BackwardYearKeysDistinct(years, values, rate);
    DistinctEntriesAt(es, FromEntries(es));
    BackwardYearLayout(years, values, rate, FromEntries(es));
  }

  /** A dictionary holding exactly these entries, in order, has this layout. */
  lemma BackwardYearLayout<V>(years: seq<int>, values: seq<real>, rate: (real, real) -> V, d: Dict<int, V>)
    requires |years| == |values| && values != []
    requires var es := BackwardYearEntries(years, values, rate);
             |d.keys| == |es| &&
             forall i :: 0 <= i < |es| ==> d.keys[i] == es[i].0 && d.keys[i] in d.values && d.values[d.keys[i]] == es[i].1
    ensures |d.keys| == |values| - 1 &&
            forall j :: 0 <= j < |values| - 1 ==>
              d.keys[j] == years[|values| - 2 - j] &&
              d.values[d.keys[j]] == rate(values[|values| - 1 - j], values[|values| - 2 - j])
  {
    var es := BackwardYearEntries(years, values, rate);
    var n := |values|;
    forall j | 0 <= j < n - 1
      ensures d.keys[j] == years[n - 2 - j] && d.values[d.keys[j]] == rate(values[n - 1 - j], values[n - 2 - j])
    {
      assert es[j] == (years[n - 2 - j], rate(values[n - 1 - j], values[n - 2 - j]));
    }
  }

  /** The entries of the sales and free-cash-flow loops. */
  function SignedEntries(years: seq<int>, values: seq<real>): (es: seq<(int, Extended)>)
    requires |years| == |values|
  {
    BackwardYearEntries(years, values, SignedGrowth)
  }

  /** The backward loop shared by `sales_growth_rate` and `free_cash_flow_growth_rate`. */
  method SignedGrowthRates(years: seq<int>, values: seq<real>) returns (d: Dict<int, Extended>)
    requires |years| == |values|
    ensures d == FromEntries(SignedEntries(years, values))
  {
    ghost var es := SignedEntries(years, values);
    d := Dict([], map[]);
    var i := |values| - 1;
    while i > 0
      invariant if values == [] then i == -1 else 0 <= i <= |values| - 1
      invariant d == FromEntries(es[..|values| - 1 - i])
    {
      var initial := values[i];
      var final := values[i - 1];
      var rate := SignedGrowth(initial, final);
      ghost var done := |values| - 1 - i;
      assert es[done] == (years[i - 1], rate);
      FromEntriesStep(es, done, d, years[i - 1], rate);
      d := Put(d, years[i - 1], rate);
      i := i - 1;
    }
    assert es[..|es|] == es;
  }

  /** With distinct years: one entry per year but the oldest, oldest first, each the signed
      growth into that year. */
  lemma SignedGrowthShape(years: seq<int>, values: seq<real>)
    requires |years| == |values| && values != []
    requires forall i, j :: 0 <= i < j < |years| ==> years[i] != years[j]
    ensures var d := FromEntries(SignedEntries(years, values));
            |d.keys| == |values| - 1 &&
            forall j :: 0 <= j < |values| - 1 ==>
              d.keys[j] == years[|values| - 2 - j] &&
              d.values[d.keys[j]] == SignedGrowth(values[|values| - 1 - j], values[|values| - 2 - j])
  {
    BackwardYearShape(years, values, SignedGrowth);
  }

  /** The signed rule matches the current |previous| rule for a positive base and has the
      opposite sign for a negative one. */
  lemma SignedGrowthVersusPercentChange(initial: real, final: real)
    requires initial != 0.0
    ensures initial > 0.0 ==> SignedGrowth(initial, final).value == PercentChange(initial, final)
    ensures initial < 0.0 ==> SignedGrowth(initial, final).value == -PercentChange(initial, final)
  {
    EquityRateIsSignedGrowth(initial, final);
    EquityRateVersusPercentChange(initial, final);
  }

  /** `sales_growth_rate`. None stands for the uncaught KeyError a missing revenue line raises,
      which ends the script. */
  method SalesGrowthRate(f: Frame) returns (r: Option<Dict<int, Extended>>)
    requires Rectangular(f)
    ensures r.None? <==> "Total Revenue" !in f.items
    ensures r.Some? ==> r.value == FromEntries(SignedEntries(f.years, f.items["Total Revenue"]))
  {
    if "Total Revenue" !in f.items {
      return None;
    }
    var d := SignedGrowthRates(f.years, f.items["Total Revenue"]);
    return Some(d);
  }

  /** Free cash flow of the older scripts: operating cash flow plus capital expenditure. */
  function LegacyFreeCashFlow(operatingCashFlow: real, capitalExpenditure: real): real {
    operatingCashFlow + capitalExpenditure
  }

  /** It agrees with the current rule when capital expenditure is reported as a non-positive
      number, and overstates it by twice the expenditure otherwise. */
  lemma LegacyFreeCashFlowVersusCurrent(operatingCashFlow: real, capitalExpenditure: real)
    ensures capitalExpenditure <= 0.0 ==> LegacyFreeCashFlow(operatingCashFlow, capitalExpenditure) == FreeCashFlowOf(operatingCashFlow, capitalExpenditure)
    ensures capitalExpenditure > 0.0 ==> LegacyFreeCashFlow(operatingCashFlow, capitalExpenditure) - FreeCashFlowOf(operatingCashFlow, capitalExpenditure) == 2.0 * capitalExpenditure
  {
  }

  /** The free cash flow series, period by period. */
  function LegacyFreeCashFlows(operatingCashFlow: seq<real>, capitalExpenditure: seq<real>): (fcf: seq<real>)
    requires |operatingCashFlow| == |capitalExpenditure|
    ensures |fcf| == |operatingCashFlow|
  {
    seq(|operatingCashFlow|, i requires 0 <= i < |operatingCashFlow| => LegacyFreeCashFlow(operatingCashFlow[i], capitalExpenditure[i]))
  }

  /** `free_cash_flow_growth_rate`. None stands for the uncaught KeyError a missing cash-flow
      line raises, which ends the script. */
  method FreeCashFlowGrowthRate(f: Frame) returns (r: Option<Dict<int, Extended>>)
    requires Rectangular(f)
    ensures r.None? <==> "Operating Cash Flow" !in f.items || "Capital Expenditure" !in f.items
    ensures r.Some? ==> r.value == FromEntries(SignedEntries(f.years,
                          LegacyFreeCashFlows(f.items["Operating Cash Flow"], f.items["Capital Expenditure"])))
  {
    if "Operating Cash Flow" !in f.items || "Capital Expenditure" !in f.items {
      return None;
    }
    var fcf := LegacyFreeCashFlows(f.items["Operating Cash Flow"], f.items["Capital Expenditure"]);
    var d := SignedGrowthRates(f.years, fcf);
    return Some(d);
  }

  /** EPS growth, `((end / start) - 1) * 100`, unguarded. */
  function EpsGrowth(startEps: real, endEps: real): (r: Extended)
    ensures r.Finite? <==> startEps != 0.0
    ensures r.Finite? ==> r.value * startEps == (endEps - startEps) * 100.0
  {
    Times(100.0, Plus(-1.0, Quotient(endEps, startEps)))
  }

  /** The EPS rule is the signed rule, including its infinities and NaN at a zero start. */
  lemma EpsGrowthIsSignedGrowth(startEps: real, endEps: real)
    ensures EpsGrowth(startEps, endEps) == SignedGrowth(startEps, endEps)
  {
    if startEps != 0.0 {
      SameQuotient(EpsGrowth(startEps, endEps).value, SignedGrowth(startEps, endEps).value, startEps);
    }
  }

  /** The entries a forward loop over consecutive rows assigns: position i holds rows i and
      i+1, keyed by both labels. */
  function ForwardPairEntries<V>(labels: seq<int>, values: seq<real>, rate: (real, real) -> V): (es: seq<(YearPair, V)>)
    requires |labels| == |values|
    ensures |es| == if values == [] then 0 else |values| - 1
  {
    var n := |values|;
    if n == 0 then []
    else seq(n - 1, i requires 0 <= i < n - 1 => (YearPair(labels[i], labels[i + 1]), rate(values[i], values[i + 1])))
  }

  /** With distinct labels nothing is overwritten: one entry per consecutive pair, in row order. */
  lemma ForwardPairKeysDistinct<V>(labels: seq<int>, values: seq<real>, rate: (real, real) -> V)
    requires |labels| == |values|
    requires forall i, j :: 0 <= i < j < |labels| ==> labels[i] != labels[j]
    ensures DistinctKeys(ForwardPairEntries(labels, values, rate))
  {
    var es := ForwardPairEntries(labels, values, rate);
    var n := |values|;
    forall i, j | 0 <= i < j < |es|
      ensures es[i].0 != es[j].0
      {
        assert es[i].0.from == labels[i] && es[j].0.from == labels[j];
      }
  }

  lemma ForwardPairShape<V>(labels: seq<int>, values: seq<real>, rate: (real, real) -> V)
    requires |labels| == |values| && |values| >= 2
    requires forall i, j :: 0 <= i < j < |labels| ==> labels[i] != labels[j]
    ensures var d := FromEntries(ForwardPairEntries(labels, values, rate));
            |d.keys| == |values| - 1 &&
            forall i :: 0 <= i < |values| - 1 ==>
              d.keys[i] == YearPair(labels[i], labels[i + 1]) && d.values[d.keys[i]] == rate(values[i], values[i + 1])
  {
    var es := ForwardPairEntries(labels, values, rate);
    ForwardPairKeysDistinct(labels, values, rate);
    DistinctEntriesAt(es, FromEntries(es));
    ForwardPairLayout(labels, values, rate, FromEntries(es));
  }

  /** A dictionary holding exactly these entries, in order, has this layout. */
  lemma ForwardPairLayout<V>(labels: seq<int>, values: seq<real>, rate: (real, real) -> V, d: Dict<YearPair, V>)
    requires |labels| == |values| && |values| >= 2
    requires var es := ForwardPairEntries(labels, values, rate);
             |d.keys| == |es| &&
             forall i :: 0 <= i < |es| ==> d.keys[i] == es[i].0 && d.keys[i] in d.values && d.values[d.keys[i]] == es[i].1
    ensures |d.keys| == |values| - 1 &&
            forall i :: 0 <= i < |values| - 1 ==>
              d.keys[i] == YearPair(labels[i], labels[i + 1]) && d.values[d.keys[i]] == rate(values[i], values[i + 1])
  {
    var es := ForwardPairEntries(labels, values, rate);
    forall i | 0 <= i < |values| - 1
      ensures d.keys[i] == YearPair(labels[i], labels[i + 1]) && d.values[d.keys[i]] == rate(values[i], values[i + 1])
    {
      assert es[i] == (YearPair(labels[i], labels[i + 1]), rate(values[i], values[i + 1]));
    }
  }

  function EpsEntries(labels: seq<int>, eps: seq<real>): (es: seq<(YearPair, Extended)>)
    requires |labels| == |eps|
  {
    ForwardPairEntries(labels, eps, EpsGrowth)
  }

  /** `eps_growth_rate`: None with fewer than two rows, otherwise the forward loop's dictionary. */
  method EpsGrowthRates(labels: seq<int>, eps: seq<real>) returns (r: Option<Dict<YearPair, Extended>>)
    requires |labels| == |eps|
    ensures r.None? <==> |eps| < 2
    ensures r.Some? ==> r.value == FromEntries(EpsEntries(labels, eps))
  {
    if |eps| < 2 {
      return None;
    }
    ghost var es := EpsEntries(labels, eps);
    var d: Dict<YearPair, Extended> := Dict([], map[]);
    var i := 0;
    while i < |eps| - 1
      invariant 0 <= i <= |eps| - 1
      invariant d == FromEntries(es[..i])
    {
      var rate := EpsGrowth(eps[i], eps[i + 1]);
      assert es[i] == (YearPair(labels[i], labels[i + 1]), rate);
      FromEntriesStep(es, i, d, YearPair(labels[i], labels[i + 1]), rate);
      d := Put(d, YearPair(labels[i], labels[i + 1]), rate);
      i := i + 1;
    }
    assert es[..|es|] == es;
    return Some(d);
  }

  /** With distinct row labels, one entry per consecutive pair of rows, in row order. */
  lemma EpsGrowthShape(labels: seq<int>, eps: seq<real>)
    requires |labels| == |eps| && |eps| >= 2
    requires forall i, j :: 0 <= i < j < |labels| ==> labels[i] != labels[j]
    ensures var d := FromEntries(EpsEntries(labels, eps));
            |d.keys| == |eps| - 1 &&
            forall i :: 0 <= i < |eps| - 1 ==>
              d.keys[i] == YearPair(labels[i], labels[i + 1]) && d.values[d.keys[i]] == EpsGrowth(eps[i], eps[i + 1])
  {
    ForwardPairShape(labels, eps, EpsGrowth);
  }

  /** `display_pe_ratios`: a ratio only for a truthy EPS. */
  function PeRatio(price: real, eps: Option<real>): (pe: Option<real>)
    ensures pe.Some? <==> eps.Some? && eps.value != 0.0
    ensures pe.Some? ==> pe.value * eps.value == price
  {
    if Truthy(eps) then Some(price / eps.value) else None
  }

  /** The current P/E agrees where a ratio is shown and shows 0 where this one shows none. */
  lemma PeRatioVersusCurrent(price: real, eps: Option<real>)
    ensures PeRatio(price, eps).Some? ==> PeRatio(price, eps).value == PriceOverEps(price, eps)
    ensures PeRatio(price, eps).None? ==> PriceOverEps(price, eps) == 0.0
  {
    if PeRatio(price, eps).Some? {
      SameQuotient(PeRatio(price, eps).value, PriceOverEps(price, eps), eps.value);
    }
  }
}
