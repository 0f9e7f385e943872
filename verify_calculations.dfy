/** verify_calculations.py: recomputes the scorecard's 2015-to-2022 changes
    for the three categories and reports each with its two sums. */
module VerifyCalculations {
  import opened Frame
  import opened Numeric
  import opened Emissions
  import Dashboard

  /** One reported line: category, the 2015 and 2022 sums and the change. */
  datatype ChangeLine = ChangeLine(name: string, v2015: real, v2022: real, change: Quotient)

  /** The percent change as this script guards it: a zero 2015 value gives
      +infinity. */
  function CheckedChange(v2015: real, v2022: real): (q: Quotient)
    ensures v2015 != 0.0 ==> q.Finite? && q.value * v2015 == (v2022 - v2015) * 100.0
    ensures v2015 == 0.0 ==> q == PosInf
  {
    if v2015 != 0.0 then PercentChange(v2015, v2022) else PosInf
  }

  /** `line` is the report of `category` over the gross rows `gross`. */
  ghost predicate Reported(gross: seq<Row>, category: Category, line: ChangeLine) {
    && line.name == category.name
    && line.v2015 == CategorySum(gross, 2015, category.description)
    && line.v2022 == CategorySum(gross, 2022, category.description)
    && line.change == CheckedChange(line.v2015, line.v2022)
  }

  /** calculate_changes: one line per category, in the fixed category order,
      computed over the gross-emissions rows only. */
  method CalculateChanges(df: seq<Row>) returns (lines: seq<ChangeLine>)
    ensures |lines| == |Categories|
    ensures forall i :: 0 <= i < |lines| ==> Reported(Where(df, TypeIs(GrossEmissions)), Categories[i], lines[i])
  {
    var gross := Where(df, TypeIs(GrossEmissions));
    lines := [];
    for i := 0 to |Categories|
      invariant |lines| == i
      invariant forall k :: 0 <= k < i ==> Reported(gross, Categories[k], lines[k])
    {
      var category := Categories[i];
      var v2015 := CategorySum(gross, 2015, category.description);
      var v2022 := CategorySum(gross, 2022, category.description);
      var change := CheckedChange(v2015, v2022);
      lines := lines + [ChangeLine(category.name, v2015, v2022, change)];
    }
  }

  /** The two scripts agree whenever the 2015 value is nonzero; on a zero
      2015 value this one reports +infinity where the dashboard shows 0. */
  lemma AgreesWithScorecard(v2015: real, v2022: real)
    ensures v2015 != 0.0 ==> CheckedChange(v2015, v2022) == Finite(Dashboard.ScorecardChange(v2015, v2022))
    ensures v2015 == 0.0 ==> CheckedChange(v2015, v2022) == PosInf && Dashboard.ScorecardChange(v2015, v2022) == 0.0
  {
  }
}
