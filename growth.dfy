/** Year-over-year growth as StockAnalysis.py derives it from a year-keyed series: the ascending
    year order, the percentage-point change (ROIC), the percentage change against |previous|
    (equity, EPS, sales, free cash flow), the average over valid rates, and the growth bands. */
module Growth {
  import opened Common

  predicate Increasing(ys: seq<int>) {
    forall i, j :: 0 <= i < j < |ys| ==> ys[i] < ys[j]
  }

  /** A Python dictionary keyed by year. */
  type YearDict = Dict<int, real>

  const EmptyDict: YearDict := Dict([], map[])

  /** The smallest year of a non-empty list. */
  function Earliest(ys: seq<int>): (m: int)
    requires ys != []
    ensures m in ys && forall y :: y in ys ==> m <= y
  {
    if |ys| == 1 then ys[0]
    else
      var m := Earliest(ys[1..]);
      assert forall y :: y in ys ==> y == ys[0] || y in ys[1..];
      if ys[0] <= m then ys[0] else m
  }

  /** The list without any occurrence of y. */
  function Without(ys: seq<int>, y: int): (r: seq<int>)
    ensures forall z :: z in r <==> z in ys && z != y
    ensures |r| <= |ys|
    ensures y in ys ==> |r| < |ys|
  {
    if ys == [] then []
    else
      var rest := Without(ys[1..], y);
      assert forall z :: z in ys <==> z == ys[0] || z in ys[1..];
      if ys[0] == y then rest else [ys[0]] + rest
  }

  /** `sorted(years)` for the keys of a dictionary: every year once, ascending. */
  function SortedYears(ys: seq<int>): (r: seq<int>)
    ensures Increasing(r)
    ensures forall y :: y in r <==> y in ys
    ensures |r| <= |ys|
    decreases |ys|
  {
    if ys == [] then []
    else
      var m := Earliest(ys);
      [m] + SortedYears(Without(ys, m))
  }

  /** The values of a year-keyed dictionary, oldest year first. */
  function InYearOrder(d: YearDict): (vs: seq<real>)
    requires WellFormed(d)
    ensures |vs| == |SortedYears(d.keys)|
    ensures forall i :: 0 <= i < |vs| ==> SortedYears(d.keys)[i] in d.values && vs[i] == d.values[SortedYears(d.keys)[i]]
  {
    var ys := SortedYears(d.keys);
    seq(|ys|, i requires 0 <= i < |ys| => d.values[ys[i]])
  }

  /** The percentage change from prev to curr, measured against |prev| so that the sign
      follows the direction of the change even when prev is negative. */
  function PercentChange(prev: real, curr: real): (g: real)
    requires prev != 0.0
    ensures g > 0.0 <==> curr > prev
    ensures g < 0.0 <==> curr < prev
    ensures curr == prev + g * Abs(prev) / 100.0
  {
    (curr - prev) / Abs(prev) * 100.0
  }

  /** The growth column of a yearly table: one row per year after the base year; None (shown
      as "N/A") when the previous year's value is zero. */
  function PercentChangeRows(vs: seq<real>): seq<Option<real>> {
    if |vs| <= 1 then []
    else
      seq(|vs| - 1, i requires 0 <= i < |vs| - 1 =>
        if vs[i] != 0.0 then Some(PercentChange(vs[i], vs[i + 1])) else None)
  }

  /** The growth rates appended to the list, in year order: the rows that have a value. */
  function PercentChangeRates(vs: seq<real>): seq<real> {
    Present(PercentChangeRows(vs))
  }

  /** The ROIC growth list: current minus previous, in percentage points. */
  function PointChanges(vs: seq<real>): seq<real> {
    if |vs| <= 1 then []
    else seq(|vs| - 1, i requires 0 <= i < |vs| - 1 => vs[i + 1] - vs[i])
  }

  /** The table loop of the equity, EPS, sales and free-cash-flow analyses: one row per year
      after the base year, a rate appended only when the previous value is non-zero. */
  method PercentChangeTable(vs: seq<real>) returns (rows: seq<Option<real>>, rates: seq<real>)
    ensures |rows| == if vs == [] then 0 else |vs| - 1
    ensures forall i :: 0 <= i < |rows| ==> (rows[i].Some? <==> vs[i] != 0.0)
    ensures forall i :: 0 <= i < |rows| && rows[i].Some? ==> rows[i].value == PercentChange(vs[i], vs[i + 1])
    ensures rows == PercentChangeRows(vs)
    ensures rates == Present(rows)
  {
    rows, rates := [], [];
    var i := 1;
    while i < |vs|
      invariant 1 <= i <= if vs == [] then 1 else |vs|
      invariant |rows| == i - 1
      invariant forall k :: 0 <= k < i - 1 ==> (rows[k].Some? <==> vs[k] != 0.0)
      invariant forall k :: 0 <= k < i - 1 && vs[k] != 0.0 ==> rows[k] == Some(PercentChange(vs[k], vs[k + 1]))
      invariant rates == Present(rows)
    {
      var prev, curr := vs[i - 1], vs[i];
      var row: Option<real> := None;
      if prev != 0.0 {
        var g := PercentChange(prev, curr);
        rates := rates + [g];
        row := Some(g);
      }
      assert (rows + [row])[..|rows|] == rows;
      rows := rows + [row];
      i := i + 1;
    }
  }

  /** The ROIC table loop: a percentage-point change for every year after the base year. */
  method PointChangeTable(vs: seq<real>) returns (changes: seq<real>)
    ensures |changes| == if vs == [] then 0 else |vs| - 1
    ensures forall i :: 0 <= i < |changes| ==> changes[i] == vs[i + 1] - vs[i]
    ensures changes == PointChanges(vs)
  {
    changes := [];
    var i := 1;
    while i < |vs|
      invariant 1 <= i <= if vs == [] then 1 else |vs|
      invariant |changes| == i - 1
      invariant forall k :: 0 <= k < i - 1 ==> changes[k] == vs[k + 1] - vs[k]
    {
      changes := changes + [vs[i] - vs[i - 1]];
      i := i + 1;
    }
  }

  /** The percentage-point changes telescope: together they add up to last minus first. */
  lemma {:induction false} PointChangesTelescope(vs: seq<real>)
    requires vs != []
    ensures Sum(PointChanges(vs)) == vs[|vs| - 1] - vs[0]
  {
    if |vs| > 1 {
      var init := vs[..|vs| - 1];
      PointChangesTelescope(init);
      assert PointChanges(vs)[..|vs| - 2] == PointChanges(init);
    }
  }

  /** The average ROIC growth is the net change from the first to the last year spread over
      the number of year-to-year steps. */
  lemma AverageRoicGrowthIsNetChange(vs: seq<real>)
    requires |vs| >= 2
    ensures Mean(PointChanges(vs)) == Some((vs[|vs| - 1] - vs[0]) / (|vs| - 1) as real)
  {
    PointChangesTelescope(vs);
  }

  lemma {:induction false} PresentOfAllSome(xs: seq<Option<real>>)
    requires forall i :: 0 <= i < |xs| ==> xs[i].Some?
    ensures |Present(xs)| == |xs|
    ensures forall i :: 0 <= i < |xs| ==> Present(xs)[i] == xs[i].value
  {
    if xs != [] {
      PresentOfAllSome(xs[..|xs| - 1]);
    }
  }

  /** With no zero base before the last year, every year after the base year contributes its
      percentage change, in year order. */
  lemma NoZeroBaseKeepsEveryRate(vs: seq<real>)
    requires forall i :: 0 <= i < |vs| - 1 ==> vs[i] != 0.0
    ensures |PercentChangeRates(vs)| == if vs == [] then 0 else |vs| - 1
    ensures forall i :: 0 <= i < |PercentChangeRates(vs)| ==> PercentChangeRates(vs)[i] == PercentChange(vs[i], vs[i + 1])
  {
    PresentOfAllSome(PercentChangeRows(vs));
  }

  lemma {:induction false} PresentComesFrom(xs: seq<Option<real>>, k: nat)
    requires k < |Present(xs)|
    ensures exists i :: 0 <= i < |xs| && xs[i] == Some(Present(xs)[k])
  {
    var init := xs[..|xs| - 1];
    if k < |Present(init)| {
      PresentComesFrom(init, k);
      var i :| 0 <= i < |init| && init[i] == Some(Present(init)[k]);
      assert xs[i] == init[i];
    } else {
      assert xs[|xs| - 1] == Some(Present(xs)[k]);
    }
  }

  /** `calculate_average_growth`: the mean of the rates that are not NaN (None here), or None
      when no valid rate remains. */
  function AverageGrowth(rates: seq<Option<real>>): (r: Option<real>)
    ensures r.None? <==> Present(rates) == []
    ensures r.Some? ==> r.value * |Present(rates)| as real == Sum(Present(rates))
  {
    Mean(Present(rates))
  }

  /** The average growth lies between any bounds that hold of all valid rates. */
  lemma AverageGrowthWithinBounds(rates: seq<Option<real>>, lo: real, hi: real)
    requires forall i :: 0 <= i < |rates| && rates[i].Some? ==> lo <= rates[i].value <= hi
    ensures AverageGrowth(rates).Some? ==> lo <= AverageGrowth(rates).value <= hi
  {
    var ps := Present(rates);
    forall k | 0 <= k < |ps|
      ensures lo <= ps[k] <= hi
    {
      PresentComesFrom(rates, k);
    }
    if ps != [] {
      MeanWithinBounds(ps, lo, hi);
    }
  }

  /** A list made only of NaN entries has no average. */
  lemma {:induction false} AllNaNHasNoAverage(rates: seq<Option<real>>)
    requires forall i :: 0 <= i < |rates| ==> rates[i].None?
    ensures AverageGrowth(rates).None?
  {
    if rates != [] {
      AllNaNHasNoAverage(rates[..|rates| - 1]);
    }
  }

  /** Growth bands of the summary table. */
  datatype GrowthClass = NoData | Negative | Slow | Moderate | Good | Strong

  /** `classify_growth`: no data for a missing rate, otherwise the band of the rate. */
  function ClassifyGrowth(rate: Option<real>): (c: GrowthClass)
    ensures c == NoData <==> rate.None?
    ensures c == Strong <==> rate.Some? && rate.value > 15.0
    ensures c == Good <==> rate.Some? && 10.0 < rate.value <= 15.0
    ensures c == Moderate <==> rate.Some? && 5.0 < rate.value <= 10.0
    ensures c == Slow <==> rate.Some? && 0.0 < rate.value <= 5.0
    ensures c == Negative <==> rate.Some? && rate.value <= 0.0
  {
    match rate
    case None => NoData
    case Some(g) =>
      if g > 15.0 then Strong
      else if g > 10.0 then Good
      else if g > 5.0 then Moderate
      else if g > 0.0 then Slow
      else Negative
  }

  function Rank(c: GrowthClass): nat {
    match c
    case NoData => 0
    case Negative => 1
    case Slow => 2
    case Moderate => 3
    case Good => 4
    case Strong => 5
  }

  /** A higher rate never falls in a lower band. */
  lemma ClassifyGrowthMonotone(a: real, b: real)
    requires a <= b
    ensures Rank(ClassifyGrowth(Some(a))) <= Rank(ClassifyGrowth(Some(b)))
  {
  }
}
