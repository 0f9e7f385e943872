/** app.py: a single area chart of gross emissions per fiscal year, with a
    scope dropdown that cannot be cleared. */
module GrossApp {
  import opened Frame
  import opened GroupBy
  import opened Emissions

  /** The data and title handed to the area chart. */
  datatype Graph = Graph(title: string, totals: seq<YearTotal>)

  /** create_total_emissions_graph: one point per fiscal year that has a
      kept row (gaps between years stay gaps), ascending, each the sum of that
      year's kept rows; the points add up to all kept emissions; a scope that
      matches nothing gives no points. The title reads "Gross emissions (All)"
      without a filter and names the scope otherwise. */
  function TotalEmissionsGraph(df: seq<Row>, selectedScope: string): (g: Graph)
    ensures StrictlyAscending(g.totals)
    ensures KeysOf(g.totals) == KeptYears(df, Some(selectedScope))
    ensures forall i :: 0 <= i < |g.totals| ==>
      g.totals[i].emissions == KeptYearSum(df, Some(selectedScope), g.totals[i].fiscalYear)
    ensures TotalOf(g.totals) == SumEmissions(Where(df, KeepMask(Some(selectedScope))))
    ensures g.totals == [] <==> forall x :: x in df ==> !Kept(Some(selectedScope), x)
    ensures selectedScope == AllScopes ==> g.title == "Gross emissions (All)"
    ensures selectedScope != AllScopes ==> g.title == "Gross emissions " + selectedScope
  {
    var title := if selectedScope != AllScopes then "Gross emissions " + selectedScope else "Gross emissions (All)";
    Graph(title, TotalByYear(df, Some(selectedScope)))
  }
}
