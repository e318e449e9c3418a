/** The parts of stock_analysis_tool.py that differ from ROICCalculator.py: its ROIC reads the
    'Operating Revenue' line and treats current liabilities as optional; its market cap is asked
    for only on an exact "Y"; its volume lookup fails as a pair. The equity, sales and
    free-cash-flow loops of the two scripts are the same and are modelled once, in
    RoicCalculator. */
module AnalysisTool {
  import opened Common
  import opened Yields
  import RoicCalculator

  /** The line items `roic_growth_rate` indexes directly here are all present. */
  predicate HasRoicItems(f: RoicCalculator.Frame) {
    "Operating Revenue" in f.items && "Tax Provision" in f.items && "Pretax Income" in f.items && "Total Assets" in f.items
  }

  /** `roic_growth_rate`: the ROIC series with 'Operating Revenue' as operating income and
      current liabilities taken as zero when the balance sheet has no such line. None stands for
      the uncaught KeyError a missing required line item raises, which ends the script. */
  function Roic(f: RoicCalculator.Frame): (r: Option<seq<Extended>>)
    requires RoicCalculator.Rectangular(f)
    ensures r.Some? <==> HasRoicItems(f)
    ensures r.Some? ==> r.value == RoicCalculator.RoicSeries(f, "Operating Revenue", RoicCalculator.ItemOrZero(f, "Current Liabilities"))
  {
    if HasRoicItems(f) then
      Some(RoicCalculator.RoicSeries(f, "Operating Revenue", RoicCalculator.ItemOrZero(f, "Current Liabilities")))
    else
      None
  }

  /** The two scripts' ROIC agree whenever the operating lines agree and current liabilities
      are reported; without current liabilities only this script produces a series. */
  lemma RoicVersusCalculator(f: RoicCalculator.Frame)
    requires RoicCalculator.Rectangular(f)
    requires "Operating Revenue" in f.items && "Operating Income" in f.items
    requires f.items["Operating Revenue"] == f.items["Operating Income"]
    ensures "Current Liabilities" in f.items ==> Roic(f) == RoicCalculator.Roic(f)
    ensures "Current Liabilities" !in f.items ==> RoicCalculator.Roic(f).None? && (Roic(f).Some? <==> HasRoicItems(f))
  {
    if "Current Liabilities" in f.items && HasRoicItems(f) {
      assert Roic(f).value == RoicCalculator.Roic(f).value;
    }
  }

  /** `calculate_market_cap_at_price`: only an answer of exactly "Y" asks for a price, and the
      market cap at that price is price times shares outstanding. */
  function MarketCapAtPrice(answer: string, sharePrice: real, shares: real): (c: Option<real>)
    ensures c.Some? <==> answer == "Y"
    ensures c.Some? ==> c.value == MarketCap(sharePrice, shares)
    ensures c.Some? ==> (c.value == 0.0 <==> sharePrice == 0.0 || shares == 0.0)
  {
    if answer == "Y" then Some(MarketCap(sharePrice, shares)) else None
  }

  /** `fetch_share_volume_data`: both volumes, or (None, None) as soon as either is missing. */
  function ShareVolume(volume: Option<int>, averageVolume: Option<int>): (r: (Option<int>, Option<int>))
    ensures r.0.Some? <==> volume.Some? && averageVolume.Some?
    ensures r.1.Some? <==> r.0.Some?
    ensures r.0.Some? ==> r.0 == volume && r.1 == averageVolume
  {
    if volume.None? || averageVolume.None? then (None, None) else (volume, averageVolume)
  }
}
