/** pandas `groupby(...)['Emissions'].sum()`: by "Fiscal Year" for the
    yearly series, and by "Scope" followed by `idxmax` for the largest
    contributor. */
module GroupBy {
  import opened Frame

  /** One row of the grouped frame: a year and the summed emissions. */
  datatype YearTotal = YearTotal(fiscalYear: int, emissions: real)

  /** The emissions of the rows of `t` that belong to year `y`. */
  function YearSum(t: seq<Row>, y: int): real {
    SumEmissions(Where(t, YearIs(y)))
  }

  ghost function KeysOf(g: seq<YearTotal>): set<int> {
    set e | e in g :: e.fiscalYear
  }

  /** Group keys come out sorted, each exactly once. */
  ghost predicate StrictlyAscending(g: seq<YearTotal>) {
    forall i, j :: 0 <= i < j < |g| ==> g[i].fiscalYear < g[j].fiscalYear
  }

  /** Removing the rows of year `y` leaves the sums of every other year as they were. */
  lemma OtherYearsUnchanged(t: seq<Row>, y: int)
    ensures forall z :: z != y ==> YearSum(Where(t, Not(YearIs(y))), z) == YearSum(t, z)
  {
    forall z | z != y
      ensures YearSum(Where(t, Not(YearIs(y))), z) == YearSum(t, z)
    {
      WhereImplied(t, YearIs(z), Not(YearIs(y)));
    }
  }

  /** Setting aside the rows of year `y` removes exactly that year. */
  lemma RestYears(t: seq<Row>, y: int)
    ensures YearsOf(Where(t, Not(YearIs(y)))) == YearsOf(t) - {y}
  {
    var rest := Where(t, Not(YearIs(y)));
    forall z | z in YearsOf(t) - {y} ensures z in YearsOf(rest) {
      var x :| x in t && x.fiscalYear == z;
      assert Holds(Not(YearIs(y)), x);
      assert x in rest;
    }
    forall z | z in YearsOf(rest) ensures z in YearsOf(t) - {y} {
      var x :| x in rest && x.fiscalYear == z;
      assert x in t && Holds(Not(YearIs(y)), x);
      assert !Holds(YearIs(y), x);
      assert x.fiscalYear in YearsOf(t);
    }
  }

  /** Putting the smallest year in front of the grouping of the other years
      keeps the keys sorted and covers every year. */
  lemma PrependYear(t: seq<Row>, y: int, tail: seq<YearTotal>)
    requires y in YearsOf(t)
    requires forall z :: z in YearsOf(t) ==> y <= z
    requires StrictlyAscending(tail)
    requires KeysOf(tail) == YearsOf(Where(t, Not(YearIs(y))))
    ensures StrictlyAscending([YearTotal(y, YearSum(t, y))] + tail)
    ensures KeysOf([YearTotal(y, YearSum(t, y))] + tail) == YearsOf(t)
    ensures forall k :: 0 <= k < |tail| ==> y < tail[k].fiscalYear
  {
    RestYears(t, y);
    var g := [YearTotal(y, YearSum(t, y))] + tail;
    forall k | 0 <= k < |tail| ensures y < tail[k].fiscalYear {
      assert tail[k] in tail;
      assert tail[k].fiscalYear in KeysOf(tail);
    }
    assert forall e :: e in g <==> e == g[0] || e in tail;
    forall z | z in YearsOf(t) ensures z in KeysOf(g) {
      if z == y {
        assert g[0] in g;
      } else {
        assert z in KeysOf(tail);
        var e :| e in tail && e.fiscalYear == z;
        assert e in g;
      }
    }
    forall z | z in KeysOf(g) ensures z in YearsOf(t) {
      var e :| e in g && e.fiscalYear == z;
      if e != g[0] {
        assert e in tail;
        assert z in KeysOf(tail);
      }
    }
  }

  /** The sums of the other years are not disturbed by setting year `y` aside. */
  lemma PrependSums(t: seq<Row>, y: int, tail: seq<YearTotal>)
    requires forall i :: 0 <= i < |tail| ==> tail[i].fiscalYear != y
    requires forall i :: 0 <= i < |tail| ==> tail[i].emissions == YearSum(Where(t, Not(YearIs(y))), tail[i].fiscalYear)
    ensures forall i :: 0 <= i < |tail| + 1 ==>
      ([YearTotal(y, YearSum(t, y))] + tail)[i].emissions == YearSum(t, ([YearTotal(y, YearSum(t, y))] + tail)[i].fiscalYear)
  {
    OtherYearsUnchanged(t, y);
    var g := [YearTotal(y, YearSum(t, y))] + tail;
    forall i | 0 <= i < |g| ensures g[i].emissions == YearSum(t, g[i].fiscalYear) {
      if i > 0 {
        assert g[i] == tail[i - 1];
      }
    }
  }

  /** `t.groupby('Fiscal Year')['Emissions'].sum()`: one row per year present in
      `t`, in ascending year order, each holding the sum over that year's rows.
      The smallest year is emitted first and its rows are set aside. */
  function GroupByYear(t: seq<Row>): (g: seq<YearTotal>)
    ensures StrictlyAscending(g)
    ensures KeysOf(g) == YearsOf(t)
    ensures forall i :: 0 <= i < |g| ==> g[i].emissions == YearSum(t, g[i].fiscalYear)
    decreases |t|
  {
    if t == [] then []
    else
      var y := MinYear(t);
      var x :| x in t && x.fiscalYear == y;
      assert !Holds(Not(YearIs(y)), x);
      WhereShorter(t, Not(YearIs(y)), x);
      var tail := GroupByYear(Where(t, Not(YearIs(y))));
      PrependYear(t, y, tail);
      PrependSums(t, y, tail);
      [YearTotal(y, YearSum(t, y))] + tail
  }

  function TotalOf(g: seq<YearTotal>): real {
    if g == [] then 0.0 else g[0].emissions + TotalOf(g[1..])
  }

  /** Grouping loses and duplicates nothing: the yearly totals add up to the
      sum over all the grouped rows. */
  lemma {:induction false} GroupPreservesTotal(t: seq<Row>)
    ensures TotalOf(GroupByYear(t)) == SumEmissions(t)
    decreases |t|
  {
    if t != [] {
      var y := MinYear(t);
      var rest := Where(t, Not(YearIs(y)));
      var x :| x in t && x.fiscalYear == y;
      WhereShorter(t, Not(YearIs(y)), x);
      GroupPreservesTotal(rest);
      SumPartition(t, YearIs(y));
      var g := GroupByYear(t);
      assert g[1..] == GroupByYear(rest);
    }
  }

  /** Grouping an empty selection gives an empty frame, and only then. */
  lemma GroupEmpty(t: seq<Row>)
    ensures GroupByYear(t) == [] <==> t == []
  {
    if t != [] {
      assert t[0].fiscalYear in YearsOf(t);
    }
  }

  /** Python's `<` on str: code point by code point, a proper prefix first. */
  predicate LexLess(a: string, b: string) {
    if a == [] then b != []
    else if b == [] then false
    else if a[0] != b[0] then a[0] < b[0]
    else LexLess(a[1..], b[1..])
  }

  predicate LexLessEq(a: string, b: string) {
    a == b || LexLess(a, b)
  }

  lemma {:induction false} LexTransitive(a: string, b: string, c: string)
    requires LexLess(a, b) && LexLess(b, c)
    ensures LexLess(a, c)
  {
    if a != [] && a[0] == b[0] && b[0] == c[0] {
      LexTransitive(a[1..], b[1..], c[1..]);
    }
  }

  lemma {:induction false} LexTotal(a: string, b: string)
    ensures a == b || LexLess(a, b) || LexLess(b, a)
  {
    if a != [] && b != [] && a[0] == b[0] {
      LexTotal(a[1..], b[1..]);
      if a[1..] == b[1..] {
        assert a == [a[0]] + a[1..] && b == [b[0]] + b[1..];
      }
    }
  }

  /** The emissions of the rows of `t` in scope `s`. */
  function ScopeSum(t: seq<Row>, s: string): real {
    SumEmissions(Where(t, ScopeIs(s)))
  }

  /** Scope `s` ranks above scope `u` in `groupby('Scope').sum().idxmax()`:
      a larger sum, or an equal sum and an earlier key in sorted order. */
  predicate Outranks(t: seq<Row>, s: string, u: string) {
    ScopeSum(t, s) > ScopeSum(t, u) || (ScopeSum(t, s) == ScopeSum(t, u) && LexLess(s, u))
  }

  /** `s` is a candidate with the largest sum that sorts first among the
      candidates with that sum. */
  predicate BestOf(t: seq<Row>, cs: seq<string>, s: string) {
    && s in cs
    && (forall u :: u in cs ==> ScopeSum(t, u) <= ScopeSum(t, s))
    && (forall u :: u in cs && ScopeSum(t, u) == ScopeSum(t, s) ==> LexLessEq(s, u))
  }

  /** A head that outranks the best of the rest is the best of all. */
  lemma HeadBest(t: seq<Row>, cs: seq<string>, b: string)
    requires cs != [] && BestOf(t, cs[1..], b) && Outranks(t, cs[0], b)
    ensures BestOf(t, cs, cs[0])
  {
    forall u | u in cs
      ensures ScopeSum(t, u) <= ScopeSum(t, cs[0])
      ensures ScopeSum(t, u) == ScopeSum(t, cs[0]) ==> LexLessEq(cs[0], u)
    {
      if u != cs[0] {
        assert u in cs[1..] by { assert cs == [cs[0]] + cs[1..]; }
        if ScopeSum(t, u) == ScopeSum(t, cs[0]) && u != b {
          LexTransitive(cs[0], b, u);
        }
      }
    }
  }

  /** Otherwise the best of the rest stays the best of all. */
  lemma RestBest(t: seq<Row>, cs: seq<string>, b: string)
    requires cs != [] && BestOf(t, cs[1..], b) && !Outranks(t, cs[0], b)
    ensures BestOf(t, cs, b)
  {
    LexTotal(cs[0], b);
    forall u | u in cs
      ensures ScopeSum(t, u) <= ScopeSum(t, b)
      ensures ScopeSum(t, u) == ScopeSum(t, b) ==> LexLessEq(b, u)
    {
      if u != cs[0] {
        assert u in cs[1..] by { assert cs == [cs[0]] + cs[1..]; }
      }
    }
    assert b in cs by { assert cs == [cs[0]] + cs[1..]; }
  }

  /** The best ranked of the candidate scopes `cs`. */
  function BestScope(t: seq<Row>, cs: seq<string>): (s: string)
    requires cs != []
    ensures BestOf(t, cs, s)
  {
    if |cs| == 1 then
      assert forall u :: u in cs ==> u == cs[0];
      cs[0]
    else
      var b := BestScope(t, cs[1..]);
      if Outranks(t, cs[0], b) then HeadBest(t, cs, b); cs[0]
      else RestBest(t, cs, b); b
  }

  /** The "Scope" column of `t`, in row order. */
  function ScopesOf(t: seq<Row>): (cs: seq<string>)
    ensures |cs| == |t|
    ensures forall i :: 0 <= i < |t| ==> cs[i] == t[i].scope
  {
    if t == [] then [] else [t[0].scope] + ScopesOf(t[1..])
  }

  /** `t.groupby('Scope')['Emissions'].sum().idxmax()` on a non-empty `t`: the
      scope with the largest sum; of several with that sum, the one that sorts
      first, since groupby sorts its keys and idxmax returns the first maximum. */
  function LargestScope(t: seq<Row>): (s: string)
    requires t != []
    ensures exists x :: x in t && x.scope == s
    ensures forall x :: x in t ==> ScopeSum(t, x.scope) <= ScopeSum(t, s)
    ensures forall x :: x in t && ScopeSum(t, x.scope) == ScopeSum(t, s) ==> LexLessEq(s, x.scope)
  {
    var cs := ScopesOf(t);
    var s := BestScope(t, cs);
    assert forall x :: x in t ==> x.scope in cs by {
      forall x | x in t ensures x.scope in cs {
        var i :| 0 <= i < |t| && t[i] == x;
        assert cs[i] == x.scope;
      }
    }
    var i :| 0 <= i < |cs| && cs[i] == s;
    assert t[i] in t;
    s
  }
}
