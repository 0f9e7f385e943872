/** The aggregation every dashboard script repeats: keep the gross-emissions
    rows, optionally keep one scope, group by fiscal year and sum; optionally
    join the yearly totals with the revenue table and divide. Also the three
    scorecard categories that main.py and verify_calculations.py share. */
module Emissions {
  import opened Frame
  import opened GroupBy
  import opened Join
  import opened Numeric

  /** The only value of the "Type" column that any script consumes. */
  const GrossEmissions: string := "Gross emissions"

  /** The dropdown value that switches the scope filter off. */
  const AllScopes: string := "All"

  /** A row counts towards the charts for a dropdown value `sel` (None when a
      clearable dropdown has been cleared): it is a gross-emissions row and,
      unless `sel` is "All", its scope equals the selected value. */
  predicate Kept(sel: Option<string>, x: Row) {
    x.typ == GrossEmissions && (sel == Some(AllScopes) || sel == Some(x.scope))
  }

  /** The same selection as a single mask. */
  function KeepMask(sel: Option<string>): (c: Cond)
    ensures forall x :: Holds(c, x) <==> Kept(sel, x)
  {
    match sel
    case None => And(TypeIs(GrossEmissions), ScopeIsNone)
    case Some(s) => if s == AllScopes then TypeIs(GrossEmissions) else And(TypeIs(GrossEmissions), ScopeIs(s))
  }

  /** `df[df['Type'] == 'Gross emissions']`, then, unless the value is "All",
      `gross[gross['Scope'] == sel]`. */
  function Selected(df: seq<Row>, sel: Option<string>): (r: seq<Row>)
    ensures r == Where(df, KeepMask(sel))
    ensures forall x :: x in r <==> x in df && Kept(sel, x)
  {
    var gross := Where(df, TypeIs(GrossEmissions));
    if sel == Some(AllScopes) then gross
    else
      var r := Where(gross, if sel.Some? then ScopeIs(sel.value) else ScopeIsNone);
      WhereAnd(df, TypeIs(GrossEmissions), if sel.Some? then ScopeIs(sel.value) else ScopeIsNone);
      r
  }

  /** The fiscal years that have at least one kept row. */
  ghost function KeptYears(df: seq<Row>, sel: Option<string>): set<int> {
    set x | x in df && Kept(sel, x) :: x.fiscalYear
  }

  /** The emissions of the kept rows of year `y`. */
  function KeptYearSum(df: seq<Row>, sel: Option<string>, y: int): real {
    SumEmissions(Where(df, And(KeepMask(sel), YearIs(y))))
  }

  lemma SelectedFacts(df: seq<Row>, sel: Option<string>)
    ensures YearsOf(Selected(df, sel)) == KeptYears(df, sel)
    ensures forall y :: YearSum(Selected(df, sel), y) == KeptYearSum(df, sel, y)
    ensures Selected(df, sel) == [] <==> forall x :: x in df ==> !Kept(sel, x)
  {
    var kept := Selected(df, sel);
    forall y ensures YearSum(kept, y) == KeptYearSum(df, sel, y) {
      WhereAnd(df, KeepMask(sel), YearIs(y));
    }
    if kept != [] {
      assert kept[0] in kept;
    }
  }

  /** A scope's yearly total is its share of the "All" total: the "All"
      series at year `y` is the selected scope's value plus the gross rows of
      that year in every other scope. */
  lemma {:induction false} ScopeSplit(df: seq<Row>, s: string, y: int)
    requires s != AllScopes
    ensures KeptYearSum(df, Some(AllScopes), y) ==
      KeptYearSum(df, Some(s), y) + SumEmissions(Where(df, And(And(TypeIs(GrossEmissions), YearIs(y)), Not(ScopeIs(s)))))
  {
    var gy := And(TypeIs(GrossEmissions), YearIs(y));
    var t := Where(df, gy);
    SumPartition(t, ScopeIs(s));
    WhereAnd(df, gy, Not(ScopeIs(s)));
    ScopeYearKept(df, s, y);
  }

  /** The kept rows of scope `s` and year `y` are the gross rows of year `y`
      with scope `s`. */
  lemma ScopeYearKept(df: seq<Row>, s: string, y: int)
    requires s != AllScopes
    ensures KeptYearSum(df, Some(s), y) == SumEmissions(Where(Where(df, And(TypeIs(GrossEmissions), YearIs(y))), ScopeIs(s)))
  {
    var gy := And(TypeIs(GrossEmissions), YearIs(y));
    var kept := And(And(TypeIs(GrossEmissions), ScopeIs(s)), YearIs(y));
    assert KeepMask(Some(s)) == And(TypeIs(GrossEmissions), ScopeIs(s));
    assert KeptYearSum(df, Some(s), y) == SumEmissions(Where(df, kept));
    forall x ensures Holds(And(gy, ScopeIs(s)), x) == Holds(kept, x) {
    }
    WhereSame(df, And(gy, ScopeIs(s)), kept);
    WhereAnd(df, gy, ScopeIs(s));
  }

  /** The yearly series behind the area charts: one row per fiscal year that
      has a kept row, in ascending order, each holding the sum of that year's
      kept rows; the totals add up to the sum of all kept rows, and a value
      that matches no row gives an empty series. */
  function TotalByYear(df: seq<Row>, sel: Option<string>): (g: seq<YearTotal>)
    ensures StrictlyAscending(g)
    ensures KeysOf(g) == KeptYears(df, sel)
    ensures forall i :: 0 <= i < |g| ==> g[i].emissions == KeptYearSum(df, sel, g[i].fiscalYear)
    ensures TotalOf(g) == SumEmissions(Where(df, KeepMask(sel)))
    ensures g == [] <==> forall x :: x in df ==> !Kept(sel, x)
  {
    var kept := Selected(df, sel);
    SelectedFacts(df, sel);
    GroupPreservesTotal(kept);
    GroupEmpty(kept);
    GroupByYear(kept)
  }

  /** One row of the intensity frame: the merged columns and
      'Emission Intensity' = Emissions / Revenue. */
  datatype IntensityRow = IntensityRow(fiscalYear: int, emissions: real, revenue: real, intensity: Quotient)

  /** `merged['Emission Intensity'] = merged['Emissions'] / merged['Revenue']`. */
  function WithIntensity(m: seq<Joined>): (r: seq<IntensityRow>)
    ensures |r| == |m|
    ensures forall k :: 0 <= k < |r| ==> r[k].fiscalYear == m[k].fiscalYear && r[k].emissions == m[k].emissions && r[k].revenue == m[k].revenue
    ensures forall k :: 0 <= k < |r| ==> r[k].intensity == Divide(m[k].emissions, m[k].revenue)
  {
    if m == [] then []
    else [IntensityRow(m[0].fiscalYear, m[0].emissions, m[0].revenue, Divide(m[0].emissions, m[0].revenue))] + WithIntensity(m[1..])
  }

  /** The (year, revenue) pairs of an intensity frame. */
  ghost function RevenuePairs(r: seq<IntensityRow>): set<Normalizing> {
    set k | 0 <= k < |r| :: Normalizing(r[k].fiscalYear, r[k].revenue)
  }

  /** The carbon-intensity series: its (year, revenue) pairs are exactly the
      normalizing rows whose year has kept emissions (an inner join, so years
      missing on either side are dropped); each row's emissions are that year's
      kept total and its intensity that total divided by the revenue. */
  function IntensityByYear(df: seq<Row>, norm: seq<Normalizing>, sel: Option<string>): (r: seq<IntensityRow>)
    ensures RevenuePairs(r) == set n | n in norm && n.fiscalYear in KeptYears(df, sel)
    ensures forall k :: 0 <= k < |r| ==>
      r[k].emissions == KeptYearSum(df, sel, r[k].fiscalYear) && r[k].intensity == Divide(r[k].emissions, r[k].revenue)
  {
    var totals := TotalByYear(df, sel);
    JoinSound(totals, norm, df, sel);
    JoinPairs(totals, norm, KeptYears(df, sel));
    WithIntensity(InnerJoin(totals, norm))
  }

  /** The (year, revenue) pairs of the merge are the normalizing rows whose
      year is a key of the totals. */
  lemma JoinPairs(totals: seq<YearTotal>, norm: seq<Normalizing>, years: set<int>)
    requires KeysOf(totals) == years
    ensures RevenuePairs(WithIntensity(InnerJoin(totals, norm))) == set n | n in norm && n.fiscalYear in years
  {
    var r := WithIntensity(InnerJoin(totals, norm));
    forall n | n in norm && n.fiscalYear in years ensures n in RevenuePairs(r) {
      var k := JoinCovers(totals, norm, n);
      assert Normalizing(r[k].fiscalYear, r[k].revenue) == n;
    }
    forall p | p in RevenuePairs(r) ensures p in norm && p.fiscalYear in years {
      var k :| 0 <= k < |r| && p == Normalizing(r[k].fiscalYear, r[k].revenue);
      var j := InnerJoin(totals, norm)[k];
      assert YearTotal(j.fiscalYear, j.emissions) in totals;
    }
  }

  /** Each merged row pairs a year of the totals with that year's total. */
  lemma JoinSound(totals: seq<YearTotal>, norm: seq<Normalizing>, df: seq<Row>, sel: Option<string>)
    requires totals == TotalByYear(df, sel)
    ensures forall k :: 0 <= k < |InnerJoin(totals, norm)| ==>
      InnerJoin(totals, norm)[k].fiscalYear in KeptYears(df, sel) &&
      InnerJoin(totals, norm)[k].emissions == KeptYearSum(df, sel, InnerJoin(totals, norm)[k].fiscalYear)
  {
    var m := InnerJoin(totals, norm);
    forall k | 0 <= k < |m|
      ensures m[k].fiscalYear in KeptYears(df, sel)
      ensures m[k].emissions == KeptYearSum(df, sel, m[k].fiscalYear)
    {
      var e := YearTotal(m[k].fiscalYear, m[k].emissions);
      assert e in totals;
      var i :| 0 <= i < |totals| && totals[i] == e;
      assert e.fiscalYear in KeysOf(totals);
    }
  }

  /** A normalizing row whose year is among the totals' keys is merged. */
  lemma JoinCovers(totals: seq<YearTotal>, norm: seq<Normalizing>, n: Normalizing) returns (k: nat)
    requires n in norm && n.fiscalYear in KeysOf(totals)
    ensures k < |InnerJoin(totals, norm)|
    ensures InnerJoin(totals, norm)[k].fiscalYear == n.fiscalYear && InnerJoin(totals, norm)[k].revenue == n.revenue
  {
    var e :| e in totals && e.fiscalYear == n.fiscalYear;
    var m := InnerJoin(totals, norm);
    assert Joined(e.fiscalYear, e.emissions, n.revenue) in m;
    k :| k < |m| && m[k] == Joined(e.fiscalYear, e.emissions, n.revenue);
  }

  /** With one normalizing row per year, the intensity series has one row per
      year, in ascending order. */
  lemma IntensityAscending(df: seq<Row>, norm: seq<Normalizing>, sel: Option<string>)
    requires DistinctYears(norm)
    ensures forall i, j :: 0 <= i < j < |IntensityByYear(df, norm, sel)| ==>
      IntensityByYear(df, norm, sel)[i].fiscalYear < IntensityByYear(df, norm, sel)[j].fiscalYear
  {
    JoinAscending(TotalByYear(df, sel), norm);
  }

  /** Dropping the 'Emission Intensity' column of an intensity frame. */
  function DropIntensity(r: seq<IntensityRow>): (m: seq<Joined>)
    ensures |m| == |r|
    ensures forall k :: 0 <= k < |r| ==> m[k] == Joined(r[k].fiscalYear, r[k].emissions, r[k].revenue)
  {
    if r == [] then [] else [Joined(r[0].fiscalYear, r[0].emissions, r[0].revenue)] + DropIntensity(r[1..])
  }

  /** Adding the intensity column changes no merged value: dropping it again
      gives back the merged frame. */
  lemma IntensityRoundTrip(m: seq<Joined>)
    ensures DropIntensity(WithIntensity(m)) == m
  {
    assert |DropIntensity(WithIntensity(m))| == |m|;
  }

  /** Every normalizing row whose year has kept emissions appears in the
      intensity series exactly as often as in the normalizing table, and no
      other row appears. */
  lemma IntensityCount(df: seq<Row>, norm: seq<Normalizing>, sel: Option<string>, n: Normalizing)
    ensures multiset(RevenueOf(DropIntensity(IntensityByYear(df, norm, sel))))[n] ==
      if n.fiscalYear in KeptYears(df, sel) then multiset(norm)[n] else 0
  {
    var totals := TotalByYear(df, sel);
    var m := InnerJoin(totals, norm);
    IntensityRoundTrip(m);
    JoinRevenueCount(totals, norm, n);
    AscendingYearCount(totals, n.fiscalYear);
  }

  /** The intensity series follows the yearly totals: its years never
      decrease, even when the normalizing table repeats a year. */
  lemma IntensityOrder(df: seq<Row>, norm: seq<Normalizing>, sel: Option<string>)
    ensures forall i, j :: 0 <= i < j < |IntensityByYear(df, norm, sel)| ==>
      IntensityByYear(df, norm, sel)[i].fiscalYear <= IntensityByYear(df, norm, sel)[j].fiscalYear
  {
    JoinOrder(TotalByYear(df, sel), norm);
  }

  /** A scorecard category: the label shown and the "Description" it sums. */
  datatype Category = Category(name: string, description: string)

  /** The three categories, in the order both scripts iterate them. */
  const Categories: seq<Category> := [
    Category("Transport", "Product transportation (upstream and downstream)"),
    Category("Manufacturing", "Manufacturing (purchased goods and services)"),
    Category("Business Travel", "Business travel")
  ]

  /** The emissions of the rows of `gross` with fiscal year `y` and exactly
      the description `desc`; 0 when no row matches. */
  function CategorySum(gross: seq<Row>, y: int, desc: string): real {
    SumEmissions(Where(gross, And(YearIs(y), DescriptionIs(desc))))
  }

  /** A category absent in a year contributes 0 rather than failing. */
  lemma CategoryAbsent(gross: seq<Row>, y: int, desc: string)
    requires forall x :: x in gross ==> x.fiscalYear != y || x.description != desc
    ensures CategorySum(gross, y, desc) == 0.0
  {
    WhereNone(gross, And(YearIs(y), DescriptionIs(desc)));
  }
}
