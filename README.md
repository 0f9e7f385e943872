# Apple emissions dashboards: the aggregation core in Dafny

Four Python scripts read Apple's published greenhouse-gas table. Each row
has a fiscal year, a type, a scope, a description and an amount in metric
tons CO2e. The scripts reduce that table to the numbers their dashboards
show:

- `main.py` is the emissions tracker. It builds:
  - yearly gross totals, optionally for a single scope;
  - carbon intensity, which is the yearly total divided by revenue;
  - the Scope 3 slice behind the sunburst;
  - three KPIs: the latest total, the change since 2015 and the largest scope;
  - a scorecard that compares 2015 with 2022 for three categories;
  - the year slider's default value.
- `app.py` and `app2.py` are smaller dashboards that draw the same yearly
  gross series behind a scope dropdown.
- `verify_calculations.py` recomputes the scorecard's changes.

The model works on exact values:

- A table is a `seq<Row>`.
- A boolean mask is a first-order `Cond`, and `Frame.Where` applies it.
- `groupby(...).sum()` and `idxmax` are modelled in `GroupBy`.
- `pd.merge` is modelled in `Join`.
- numpy's division, which yields `inf`/`nan` instead of raising, is modelled in `Numeric`.
- Each script is its own module: `Dashboard`, `GrossApp`, `ChartApp` and `VerifyCalculations`.
- The shared gross/scope filtering, the yearly series and the category list are in `Emissions`.
- A Python exception is a `Raised` result:
  - `KeyError` is `MissingColumn`;
  - `IndexError` is `NoPoint`;
  - the `ValueError` of `idxmax` on an empty series is `EmptyArgmax`.

Two places where the code is followed rather than the design description:

- The "reduction since 2015" KPI divides by the 2015 total without a guard.
  A zero or missing baseline therefore gives `inf`, `-inf` or `nan`, not a
  fallback value (`Dashboard.LatestHeadline`).
- In `app2.py` both branches of the title code produce `"Gross Emissions " + value`.
  "All" is therefore shown literally, and a cleared dropdown shows "None".

## Model

| member | source | states |
|---|---|---|
| Frame.Where | main.py:47-50 | A boolean-mask selection contains exactly the rows of the table that satisfy the mask and is no longer than the table |
| Frame.WhereMultiset | main.py:47-50 | Each row that satisfies the mask is kept as many times as it occurs in the table, and every other row is dropped |
| Frame.SumPartition | main.py:57 | `.sum()` over a table equals the sum over the rows a mask keeps plus the sum over the rows it drops |
| Frame.WhereAnd | main.py:124 | Filtering by `a` and then by `b` selects the same rows, in the same order, as the single mask `a & b` |
| Frame.MaxYear | main.py:151 | `['Fiscal Year'].max()` of a non-empty table is a year of some row and no row has a later year |
| GroupBy.GroupByYear | main.py:57 | `groupby('Fiscal Year').sum()` has one row per year present, in strictly ascending order, and each value is the sum of that year's rows |
| GroupBy.GroupPreservesTotal | app.py:41 | The grouped yearly totals add up to the sum of all grouped rows, so grouping loses and duplicates nothing |
| GroupBy.GroupEmpty | app.py:41 | Grouping yields an empty frame exactly when the input is empty |
| GroupBy.LargestScope | main.py:159 | `groupby('Scope').sum().idxmax()` names a scope that occurs, whose sum no other scope exceeds; on a tie it is the key that sorts first |
| GroupBy.LexTotal | main.py:159 | Python string order, which sorts the groupby keys, is total |
| Join.InnerJoin | main.py:89 | Every merged row pairs a yearly total with a normalizing row of the same year, and every such pair is present |
| Join.JoinCount | main.py:89 | A merged row occurs exactly as many times as its yearly total occurs on the left times its normalizing row occurs on the right |
| Join.JoinOrder | main.py:88-89 | With ascending yearly totals, the merge keeps the left key order: its years never decrease, even when the normalizing table repeats a year |
| Join.JoinRevenueCount | main.py:89 | Each normalizing row appears in the merge once per yearly total of its year, times its own multiplicity |
| Join.JoinAscending | main.py:88-89 | With sorted, distinct yearly totals and one revenue row per year, the merged frame has one row per shared year, in ascending order |
| Numeric.Divide | main.py:95 | Float division returns the exact quotient for a nonzero divisor; for a zero divisor it returns +inf, -inf or nan according to the sign of the dividend |
| Numeric.PercentChange | main.py:156 | `((current - base) / base) * 100` is the exact relative change for a nonzero base and an IEEE special value for a zero base |
| Numeric.PercentChangeSign | main.py:191-196 | For a positive base the change is negative, zero or positive exactly when the current value is below, equal to or above the base |
| Emissions.KeepMask | main.py:47-50 | The gross/scope mask holds for a row exactly when the row is a gross-emissions row and the selection is "All" or names its scope |
| Emissions.Selected | app.py:31-35 | The filtered frame contains exactly the gross rows of the selected scope, or all gross rows for "All", and equals one combined mask |
| Emissions.ScopeSplit | main.py:47-57 | For every year, the "All" total is the selected scope's total plus the gross emissions of that year in the other scopes |
| Emissions.TotalByYear | main.py:47-57 | The yearly series has one entry per year that has kept rows, ascending. Each entry is that year's kept total, the entries add up to the kept total, and the series is empty exactly when nothing is kept |
| Emissions.WithIntensity | main.py:95 | The new column leaves every merged row's year, emissions and revenue unchanged and holds emissions divided by revenue |
| Emissions.IntensityRoundTrip | main.py:95 | Adding the intensity column leaves the merged frame intact: dropping the column again gives back exactly the merged rows |
| Emissions.IntensityByYear | main.py:78-95 | The intensity frame's (year, revenue) pairs are exactly the revenue rows whose year has kept emissions. Each row carries that year's kept total, divided by its revenue |
| Emissions.IntensityCount | main.py:88-95 | Each normalizing row whose year has kept emissions appears in the intensity series exactly as often as in the normalizing table, and no other row appears |
| Emissions.IntensityOrder | main.py:88-95 | The intensity series' years never decrease, whatever years the normalizing table repeats |
| Emissions.IntensityAscending | main.py:88-89 | With one revenue row per year, the intensity series is in strictly ascending year order |
| Emissions.CategoryAbsent | verify_calculations.py:17-18 | A category with no row in a year sums to 0 rather than failing |
| Dashboard.TotalEmissionsChart | main.py:45-57 | The area chart shows the kept yearly series, ascending, with per-year totals. Its title is "Total Gross Emissions (scope)" or "(All Scopes)" |
| Dashboard.CarbonIntensityChart | main.py:76-102 | The intensity chart shows the revenue rows of years with kept emissions, each with the kept total over revenue. Its title is "Carbon Intensity" plus the scope suffix |
| Dashboard.Scope3Rows | main.py:122-124 | The sunburst data is exactly the gross Scope 3 rows of the chosen year, with their multiplicities |
| Dashboard.LatestGrossYear | main.py:151 | The latest year is the largest fiscal year among gross rows |
| Dashboard.LargestScopeIn | main.py:159 | The largest contributor is a scope present among the gross rows of that year. No scope has a larger sum there, and ties go to the scope that sorts first |
| Dashboard.ScopeYearSumKept | main.py:159 | The per-scope sum that the largest-contributor KPI ranks equals that scope's yearly value in the charts, for every scope other than "All" |
| Dashboard.LatestHeadline | main.py:148-159 | The headline is the latest gross year, that year's gross total, the unguarded percent change from the 2015 gross total, and the largest scope of that year |
| Dashboard.CalculateKpis | main.py:144-161 | An empty table gives "N/A" and only an empty table does. A non-empty table without gross rows raises the `idxmax` error. Otherwise the result is the headline |
| Dashboard.ScorecardChange | main.py:185-188 | With a nonzero 2015 value the change satisfies change × v2015 = (v2022 − v2015) × 100; a zero 2015 value gives 0. For a positive 2015 value its sign is that of v2022 − v2015 |
| Dashboard.ScorecardItems | main.py:167-200 | An empty table gives no lines. Otherwise there is one line per category in fixed order, with the guarded change of that category's gross emissions and the colour success/danger/warning for a decrease/increase/no change |
| Dashboard.SliderYear | main.py:298-303 | A click yields the x of its first point, and a click without points raises. Without a click the slider takes the latest year of the whole table. The empty frame that a failed load produces has no column, so reading it raises |
| GrossApp.TotalEmissionsGraph | app.py:30-41 | The graph carries the kept yearly series, ascending, adding up to the kept total and empty when nothing matches. Its title is "Gross emissions (All)" or "Gross emissions " + scope |
| ChartApp.EmissionsChart | app2.py:34-45 | The chart carries the kept yearly series, adding up to the kept total. A cleared dropdown keeps no row. The title renders the dropdown value after "Gross Emissions " in both branches |
| VerifyCalculations.CheckedChange | verify_calculations.py:20-23 | With a nonzero 2015 value the change is the exact relative change; a zero 2015 value gives +inf |
| VerifyCalculations.CalculateChanges | verify_calculations.py:4-25 | There is one report line per category in fixed order, over gross rows only, carrying the 2015 sum, the 2022 sum and the guarded change |
| VerifyCalculations.AgreesWithScorecard | verify_calculations.py:20-23 | This script and the dashboard scorecard agree when the 2015 value is nonzero; on zero it reports +inf where the dashboard shows 0 |

## Left out

- Reading the CSV files and sorting them is left out. Only `Fiscal Year`,
  `Type`, `Scope`, `Description` and `Emissions` of the emissions table
  are modelled, and only `Fiscal Year` and `Revenue` of the normalizing
  table.
- Plotly figure construction, Dash layout, callback wiring and component
  styling are left out. The model stops at the data and title handed to a figure.
- `create_scope_breakdown_chart` is left out beyond its gross-emissions filter,
  because plotly does the stacking.
- `create_product_chart` is left out, because it only plots product rows.
- The KPI and scorecard text formatting is left out: `/1e6`, `:.1f` and
  `:+.1f`. Only the numbers are modelled.
- Console output is left out: the `print` calls at main.py:91-92 and
  app.py:34. The report lines that verify_calculations.py:25 prints are its
  only output, and `VerifyCalculations.CalculateChanges` returns them as a
  sequence instead of printing them.
- Float64 rounding is left out. All arithmetic is on exact reals, and only
  the zero-divisor special values are modelled.
- Missing (NaN) cells in the CSV are left out. Every row carries a value in
  every modelled column.
- Frame.Where: the contracts state membership and multiplicity but not that
  row order is preserved. Order is fixed by the definition, which is a
  stable filter.
- Dashboard.SliderYear: click data that is present but has no `points` key
  is left out. Click data is either absent or a list of points.
- Dashboard.TotalEmissionsChart, Dashboard.CarbonIntensityChart,
  Dashboard.Scope3Rows, GrossApp.TotalEmissionsGraph and
  ChartApp.EmissionsChart model an empty table as a CSV with a header and no
  data rows, which gives an empty result. On the column-less frame that a
  failed load produces, the source raises `KeyError` at main.py:47, main.py:78,
  main.py:124, app.py:31 and app2.py:35. That error is not modelled for these
  helpers.
- Join.InnerJoin: within one year, the contracts do not state that the
  normalizing rows keep the order they have in the normalizing table. Counts
  are stated by `Join.JoinCount`, and the order across years by `Join.JoinOrder`.
- Dashboard.SliderYear: a CSV with a header and no data rows is left out. There `max()` gives NaN instead of raising, and the model identifies an empty table with the column-less frame of a failed load.
- Dashboard.CalculateKpis: the `Headline` also records `latestYear`, the
  largest year among gross rows (main.py:151). The card caption at
  main.py:216 computes its year differently, over all rows, so the two
  differ when the latest year has only non-gross rows. The caption is not
  modelled.
- VerifyCalculations.CalculateChanges: the `results` dictionary the script
  creates and never fills is left out.
