/** main.py: the emissions tracker dashboard. Its chart helpers shape data
    for plotting; the KPI row, the scorecard and the slider default are
    computed from the same emissions table. */
module Dashboard {
  import opened Frame
  import opened GroupBy
  import opened Join
  import opened Numeric
  import opened Emissions

  /** The data and title handed to the area chart of yearly totals. */
  datatype TotalsChart = TotalsChart(title: string, totals: seq<YearTotal>)

  /** The data and title handed to the carbon-intensity line chart. */
  datatype IntensityChart = IntensityChart(title: string, rows: seq<IntensityRow>)

  /** The part of the title that names the selected scope. */
  function ScopeLabel(selectedScope: string): string {
    if selectedScope != AllScopes then "(" + selectedScope + ")" else "(All Scopes)"
  }

  /** create_total_emissions_chart: the yearly gross totals for the dropdown
      value, titled with the selected scope. */
  function TotalEmissionsChart(df: seq<Row>, selectedScope: string): (c: TotalsChart)
    ensures StrictlyAscending(c.totals)
    ensures KeysOf(c.totals) == KeptYears(df, Some(selectedScope))
    ensures forall i :: 0 <= i < |c.totals| ==>
      c.totals[i].emissions == KeptYearSum(df, Some(selectedScope), c.totals[i].fiscalYear)
    ensures c.title == "Total Gross Emissions " + ScopeLabel(selectedScope)
  {
    TotalsChart("Total Gross Emissions " + ScopeLabel(selectedScope), TotalByYear(df, Some(selectedScope)))
  }

  /** create_intensity_chart: the yearly gross totals for the dropdown value,
      inner-joined on the fiscal year with the normalizing table and divided
      by revenue. */
  function CarbonIntensityChart(df: seq<Row>, norm: seq<Normalizing>, selectedScope: string): (c: IntensityChart)
    ensures RevenuePairs(c.rows) == set n | n in norm && n.fiscalYear in KeptYears(df, Some(selectedScope))
    ensures forall k :: 0 <= k < |c.rows| ==>
      c.rows[k].emissions == KeptYearSum(df, Some(selectedScope), c.rows[k].fiscalYear) &&
      c.rows[k].intensity == Divide(c.rows[k].emissions, c.rows[k].revenue)
    ensures c.title == "Carbon Intensity " + ScopeLabel(selectedScope)
  {
    IntensityChart("Carbon Intensity " + ScopeLabel(selectedScope), IntensityByYear(df, norm, Some(selectedScope)))
  }

  const Scope3: string := "Scope 3"

  /** create_scope3_sunburst: the rows the sunburst is drawn from are exactly
      the Scope 3 gross-emissions rows of the selected year. */
  function Scope3Rows(df: seq<Row>, year: int): (r: seq<Row>)
    ensures forall x :: x in r <==> x in df && x.scope == Scope3 && x.fiscalYear == year && x.typ == GrossEmissions
    ensures forall x :: multiset(r)[x] == if x.scope == Scope3 && x.fiscalYear == year && x.typ == GrossEmissions then multiset(df)[x] else 0
  {
    var mask := And(And(ScopeIs(Scope3), YearIs(year)), TypeIs(GrossEmissions));
    forall x ensures Holds(mask, x) <==> x.scope == Scope3 && x.fiscalYear == year && x.typ == GrossEmissions {
      assert Holds(And(ScopeIs(Scope3), YearIs(year)), x) <==> x.scope == Scope3 && x.fiscalYear == year;
    }
    WhereMultiset(df, mask);
    Where(df, mask)
  }

  /** The baseline year of the "Change Since 2015" KPI. */
  const BaseYear: int := 2015

  /** The KPI row. `latestYear` is the largest gross-emissions year, the year
      the headline figures refer to; the card caption computes its year over
      all rows instead and is not modelled. */
  datatype Kpis =
    | NotApplicable
    | Headline(latestYear: int, latestTotal: real, reduction: Quotient, largestScope: string)

  /** The gross emissions of year `y` in scope `s`. */
  function ScopeYearSum(df: seq<Row>, y: int, s: string): real {
    SumEmissions(Where(df, And(And(TypeIs(GrossEmissions), YearIs(y)), ScopeIs(s))))
  }

  /** For any scope other than "All", this is the yearly value of that
      scope's series in the charts. A scope literally named "All" is the one
      case where the two differ, since "All" selects every gross row there. */
  lemma ScopeYearSumKept(df: seq<Row>, y: int, s: string)
    requires s != AllScopes
    ensures ScopeYearSum(df, y, s) == KeptYearSum(df, Some(s), y)
  {
    ScopeYearKept(df, s, y);
    WhereAnd(df, And(TypeIs(GrossEmissions), YearIs(y)), ScopeIs(s));
  }

  /** The headline figures of a table that has gross-emissions rows: the
      latest year is the largest gross-emissions year, its figure the sum of
      that year's gross rows, the reduction the unguarded percent change from
      the 2015 sum, and the largest contributor the scope with the largest sum
      in the latest year, ties going to the scope that sorts first. */
  function LatestHeadline(df: seq<Row>): (h: Kpis)
    requires exists x :: x in df && x.typ == GrossEmissions
    ensures h.Headline?
    ensures exists x :: x in df && x.typ == GrossEmissions && x.fiscalYear == h.latestYear
    ensures forall x :: x in df && x.typ == GrossEmissions ==> x.fiscalYear <= h.latestYear
    ensures h.latestTotal == KeptYearSum(df, Some(AllScopes), h.latestYear)
    ensures h.reduction == PercentChange(KeptYearSum(df, Some(AllScopes), BaseYear), h.latestTotal)
    ensures exists x :: x in df && x.typ == GrossEmissions && x.fiscalYear == h.latestYear && x.scope == h.largestScope
    ensures forall x :: x in df && x.typ == GrossEmissions && x.fiscalYear == h.latestYear ==>
      && ScopeYearSum(df, h.latestYear, x.scope) <= ScopeYearSum(df, h.latestYear, h.largestScope)
      && (ScopeYearSum(df, h.latestYear, x.scope) == ScopeYearSum(df, h.latestYear, h.largestScope) ==>
            LexLessEq(h.largestScope, x.scope))
  {
    var gross := Where(df, TypeIs(GrossEmissions));
    var latestYear := LatestGrossYear(df);
    var latestEmissions := SumEmissions(Where(gross, YearIs(latestYear)));
    var baseYearEmissions := SumEmissions(Where(gross, YearIs(BaseYear)));
    KpiSums(df, latestYear);
    KpiSums(df, BaseYear);
    Headline(latestYear, latestEmissions, PercentChange(baseYearEmissions, latestEmissions), LargestScopeIn(df, latestYear))
  }

  /** `gross['Fiscal Year'].max()` */
  function LatestGrossYear(df: seq<Row>): (y: int)
    requires exists x :: x in df && x.typ == GrossEmissions
    ensures exists x :: x in df && x.typ == GrossEmissions && x.fiscalYear == y
    ensures forall x :: x in df && x.typ == GrossEmissions ==> x.fiscalYear <= y
  {
    var gross := Where(df, TypeIs(GrossEmissions));
    var x :| x in df && x.typ == GrossEmissions;
    assert x in gross;
    MaxYear(gross)
  }

  /** `gross[gross['Fiscal Year'] == y].groupby('Scope')['Emissions'].sum().idxmax()`
      for a year that has gross rows. */
  function LargestScopeIn(df: seq<Row>, y: int): (s: string)
    requires exists x :: x in df && x.typ == GrossEmissions && x.fiscalYear == y
    ensures exists x :: x in df && x.typ == GrossEmissions && x.fiscalYear == y && x.scope == s
    ensures forall x :: x in df && x.typ == GrossEmissions && x.fiscalYear == y ==>
      && ScopeYearSum(df, y, x.scope) <= ScopeYearSum(df, y, s)
      && (ScopeYearSum(df, y, x.scope) == ScopeYearSum(df, y, s) ==> LexLessEq(s, x.scope))
  {
    var latest := Where(Where(df, TypeIs(GrossEmissions)), YearIs(y));
    KpiRows(df, y);
    KpiSums(df, y);
    var x :| x in df && x.typ == GrossEmissions && x.fiscalYear == y;
    assert x in latest;
    LargestScope(latest)
  }

  /** The rows of the latest-year selection are the gross rows of that year. */
  lemma KpiRows(df: seq<Row>, y: int)
    ensures forall x :: x in Where(Where(df, TypeIs(GrossEmissions)), YearIs(y)) <==>
      x in df && x.typ == GrossEmissions && x.fiscalYear == y
  {
  }

  /** calculate_kpis: "N/A" for all three figures on an empty table; the
      headline figures when the table has gross-emissions rows; and the
      ValueError of idxmax on an empty series when it has rows but none of
      them gross emissions. */
  function CalculateKpis(df: seq<Row>): (r: Result<Kpis>)
    ensures df == [] <==> r == Ok(NotApplicable)
    ensures df != [] && (forall x :: x in df ==> x.typ != GrossEmissions) ==> r == Raised(EmptyArgmax)
    ensures (exists x :: x in df && x.typ == GrossEmissions) ==> r == Ok(LatestHeadline(df))
  {
    if df == [] then Ok(NotApplicable)
    else if forall x :: x in df ==> x.typ != GrossEmissions then Raised(EmptyArgmax)
    else Ok(LatestHeadline(df))
  }

  /** The sums the KPI code takes over successive selections equal the sums
      over one combined mask. */
  lemma KpiSums(df: seq<Row>, y: int)
    ensures SumEmissions(Where(Where(df, TypeIs(GrossEmissions)), YearIs(y))) == KeptYearSum(df, Some(AllScopes), y)
    ensures forall s :: ScopeSum(Where(Where(df, TypeIs(GrossEmissions)), YearIs(y)), s) == ScopeYearSum(df, y, s)
  {
    WhereAnd(df, TypeIs(GrossEmissions), YearIs(y));
    forall s ensures ScopeSum(Where(Where(df, TypeIs(GrossEmissions)), YearIs(y)), s) == ScopeYearSum(df, y, s) {
      WhereAnd(Where(df, TypeIs(GrossEmissions)), YearIs(y), ScopeIs(s));
      WhereAnd(df, And(TypeIs(GrossEmissions), YearIs(y)), ScopeIs(s));
    }
  }

  /** The bootstrap colour of a scorecard line. */
  datatype Color = Success | Danger | Warning

  /** One line of the "Performance Scorecard (2015 vs 2022)" list. */
  datatype ScoreItem = ScoreItem(name: string, change: real, color: Color)

  /** The scorecard's percent change: guarded, so a zero 2015 value gives 0. */
  function ScorecardChange(v2015: real, v2022: real): (change: real)
    ensures v2015 != 0.0 ==> change * v2015 == (v2022 - v2015) * 100.0
    ensures v2015 == 0.0 ==> change == 0.0
    ensures v2015 > 0.0 ==> (change < 0.0 <==> v2022 < v2015) && (change > 0.0 <==> v2022 > v2015)
  {
    if v2015 != 0.0 then
      if v2015 > 0.0 then PercentChangeSign(v2015, v2022); PercentChange(v2015, v2022).value
      else PercentChange(v2015, v2022).value
    else 0.0
  }

  /** `item` is the scorecard line of `category` over the gross rows `gross`. */
  ghost predicate Scored(gross: seq<Row>, category: Category, item: ScoreItem) {
    && item.name == category.name
    && item.change == ScorecardChange(CategorySum(gross, 2015, category.description),
                                      CategorySum(gross, 2022, category.description))
    && (item.color == Success <==> item.change < 0.0)
    && (item.color == Danger <==> item.change > 0.0)
    && (item.color == Warning <==> item.change == 0.0)
  }

  /** calculate_scorecard_items: nothing for an empty table; otherwise one
      line per category, in the fixed category order, with the guarded
      2015-to-2022 change of that category's gross emissions, coloured
      "success" for a decrease, "danger" for an increase and "warning" for
      no change. */
  method ScorecardItems(df: seq<Row>) returns (items: seq<ScoreItem>)
    ensures df == [] ==> items == []
    ensures df != [] ==> |items| == |Categories|
    ensures forall i :: 0 <= i < |items| ==> Scored(Where(df, TypeIs(GrossEmissions)), Categories[i], items[i])
  {
    if df == [] {
      return [];
    }
    var gross := Where(df, TypeIs(GrossEmissions));
    items := [];
    for i := 0 to |Categories|
      invariant |items| == i
      invariant forall k :: 0 <= k < i ==> Scored(gross, Categories[k], items[k])
    {
      var category := Categories[i];
      var v2015 := CategorySum(gross, 2015, category.description);
      var v2022 := CategorySum(gross, 2022, category.description);
      var change := ScorecardChange(v2015, v2022);
      var color;
      if change < 0.0 {
        color := Success;
      } else if change > 0.0 {
        color := Danger;
      } else {
        color := Warning;
      }
      assert Scored(gross, category, ScoreItem(category.name, change, color));
      items := items + [ScoreItem(category.name, change, color)];
    }
  }

  /** sync_slider_with_click: the year of the first clicked point; with no
      click, the latest year of the whole table. `click` is None when the
      callback gets no click data, and otherwise holds the x values of the
      clicked points. */
  function SliderYear(click: Option<seq<int>>, df: seq<Row>): (r: Result<int>)
    ensures click.Some? && click.value != [] ==> r == Ok(click.value[0])
    ensures click.Some? && click.value == [] ==> r == Raised(NoPoint)
    ensures click.None? && df == [] ==> r == Raised(MissingColumn)
    ensures click.None? && df != [] ==>
      && r.Ok?
      && (exists x :: x in df && x.fiscalYear == r.value)
      && (forall x :: x in df ==> x.fiscalYear <= r.value)
  {
    match click
    case Some(points) => if points == [] then Raised(NoPoint) else Ok(points[0])
    case None => if df == [] then Raised(MissingColumn) else Ok(MaxYear(df))
  }
}
