/** app2.py: the same area chart, with a goal line, behind a dropdown that
    can be cleared (its value is then None). */
module ChartApp {
  import opened Frame
  import opened GroupBy
  import opened Emissions

  /** The data and title handed to the area chart. */
  datatype Chart = Chart(title: string, totals: seq<YearTotal>)

  /** How an f-string renders the dropdown value. */
  function Rendered(selected: Option<string>): string {
    match selected
    case Some(s) => s
    case None => "None"
  }

  /** create_emissions_chart: the yearly series of the kept rows, as in the
      other scripts; a cleared dropdown compares every scope with None and so
      keeps no row. Both branches build the same title, so "All" shows up in
      it literally. */
  function EmissionsChart(df: seq<Row>, selected: Option<string>): (c: Chart)
    ensures StrictlyAscending(c.totals)
    ensures KeysOf(c.totals) == KeptYears(df, selected)
    ensures forall i :: 0 <= i < |c.totals| ==>
      c.totals[i].emissions == KeptYearSum(df, selected, c.totals[i].fiscalYear)
    ensures TotalOf(c.totals) == SumEmissions(Where(df, KeepMask(selected)))
    ensures selected == None ==> c.totals == []
    ensures c.title == "Gross Emissions " + Rendered(selected)
  {
    var totals := TotalByYear(df, selected);
    assert selected == None ==> forall x :: x in df ==> !Kept(selected, x);
    Chart("Gross Emissions " + Rendered(selected), totals)
  }
}
