/** The emissions table and the two pandas operations every dashboard script
    starts from: boolean-mask selection (`df[mask]`) and `Series.sum()`. */
module Frame {

  /** One row of greenhouse_gas_emissions.csv: the columns "Fiscal Year",
      "Type", "Scope", "Description" and "Emissions". */
  datatype Row = Row(fiscalYear: int, typ: string, scope: string, description: string, emissions: real)

  /** A pandas boolean mask over the emissions table, built from column
      comparisons combined with `&` and `~`. */
  datatype Cond =
    | TypeIs(typ: string)
    | ScopeIs(scope: string)
    | YearIs(year: int)
    | DescriptionIs(description: string)
    /** `df['Scope'] == None`: false on every row, since no cell holds None. */
    | ScopeIsNone
    | And(left: Cond, right: Cond)
    | Not(operand: Cond)

  predicate Holds(c: Cond, x: Row) {
    match c
    case TypeIs(t) => x.typ == t
    case ScopeIs(s) => x.scope == s
    case YearIs(y) => x.fiscalYear == y
    case DescriptionIs(d) => x.description == d
    case ScopeIsNone => false
    case And(a, b) => Holds(a, x) && Holds(b, x)
    case Not(a) => !Holds(a, x)
  }

  /** `t[mask]`: keeps exactly the rows where the mask holds, each as many
      times as it occurs in `t`, and drops all the others. */
  function Where(t: seq<Row>, c: Cond): (r: seq<Row>)
    ensures |r| <= |t|
    ensures forall x :: x in r <==> x in t && Holds(c, x)
  {
    if t == [] then []
    else
      assert t == [t[0]] + t[1..];
      (if Holds(c, t[0]) then [t[0]] else []) + Where(t[1..], c)
  }

  /** The selection keeps each kept row as many times as it occurs in `t`. */
  lemma {:induction false} WhereMultiset(t: seq<Row>, c: Cond)
    ensures forall x :: multiset(Where(t, c))[x] == if Holds(c, x) then multiset(t)[x] else 0
  {
    if t != [] {
      WhereMultiset(t[1..], c);
      assert t == [t[0]] + t[1..];
      var head := if Holds(c, t[0]) then [t[0]] else [];
      assert multiset(Where(t, c)) == multiset(head) + multiset(Where(t[1..], c));
    }
  }

  /** The selection is strictly shorter as soon as one row fails the mask. */
  lemma {:induction false} WhereShorter(t: seq<Row>, c: Cond, x: Row)
    requires x in t && !Holds(c, x)
    ensures |Where(t, c)| < |t|
  {
    if t[0] != x {
      assert x in t[1..] by { assert t == [t[0]] + t[1..]; }
      WhereShorter(t[1..], c, x);
    }
  }

  /** One step of the selection: the first row, if kept, then the selection of the rest. */
  lemma WhereCons(t: seq<Row>, c: Cond)
    requires t != []
    ensures Where(t, c) == (if Holds(c, t[0]) then [t[0]] else []) + Where(t[1..], c)
  {
  }

  /** A mask that holds on no row selects nothing. */
  lemma {:induction false} WhereNone(t: seq<Row>, c: Cond)
    requires forall x :: x in t ==> !Holds(c, x)
    ensures Where(t, c) == []
  {
    if t != [] {
      assert t[0] in t;
      WhereNone(t[1..], c);
    }
  }

  /** `t['Emissions'].sum()`; an empty selection sums to 0. */
  function SumEmissions(t: seq<Row>): real {
    if t == [] then 0.0 else t[0].emissions + SumEmissions(t[1..])
  }

  lemma {:induction false} SumConcat(a: seq<Row>, b: seq<Row>)
    ensures SumEmissions(a + b) == SumEmissions(a) + SumEmissions(b)
  {
    if a == [] {
      assert a + b == b;
    } else {
      assert (a + b)[1..] == a[1..] + b;
      SumConcat(a[1..], b);
    }
  }

  /** A mask and its negation split the total: every row is counted exactly once. */
  lemma {:induction false} SumPartition(t: seq<Row>, c: Cond)
    ensures SumEmissions(t) == SumEmissions(Where(t, c)) + SumEmissions(Where(t, Not(c)))
  {
    if t != [] {
      SumPartition(t[1..], c);
      var head := if Holds(c, t[0]) then [t[0]] else [];
      var rest := if Holds(c, t[0]) then [] else [t[0]];
      SumConcat(head, Where(t[1..], c));
      SumConcat(rest, Where(t[1..], Not(c)));
    }
  }

  /** Filtering by `a` and then by `b` is the same as filtering once by `a & b`. */
  lemma {:induction false} WhereAnd(t: seq<Row>, a: Cond, b: Cond)
    ensures Where(Where(t, a), b) == Where(t, And(a, b))
  {
    if t != [] {
      WhereCons(t, a);
      WhereCons(t, And(a, b));
      WhereAnd(t[1..], a, b);
      var wa := Where(t, a);
      if Holds(a, t[0]) {
        assert wa[1..] == Where(t[1..], a);
        WhereCons(wa, b);
      } else {
        assert wa == Where(t[1..], a);
      }
    }
  }

  /** A second filter that the first one already implies changes nothing. */
  lemma {:induction false} WhereImplied(t: seq<Row>, a: Cond, b: Cond)
    requires forall x :: Holds(a, x) ==> Holds(b, x)
    ensures Where(Where(t, b), a) == Where(t, a)
  {
    if t != [] {
      WhereCons(t, b);
      WhereCons(t, a);
      WhereImplied(t[1..], a, b);
      var wb := Where(t, b);
      if Holds(b, t[0]) {
        assert wb[1..] == Where(t[1..], b);
        WhereCons(wb, a);
      } else {
        assert wb == Where(t[1..], b);
      }
    }
  }

  /** Two masks that agree on every row select the same rows. */
  lemma {:induction false} WhereSame(t: seq<Row>, a: Cond, b: Cond)
    requires forall x :: Holds(a, x) == Holds(b, x)
    ensures Where(t, a) == Where(t, b)
  {
    if t != [] {
      WhereSame(t[1..], a, b);
    }
  }

  /** The distinct values of the "Fiscal Year" column. */
  ghost function YearsOf(t: seq<Row>): set<int> {
    set x | x in t :: x.fiscalYear
  }

  /** The smallest fiscal year of a non-empty table: the group key that
      `groupby('Fiscal Year')` emits first. */
  function MinYear(t: seq<Row>): (y: int)
    requires t != []
    ensures exists x :: x in t && x.fiscalYear == y
    ensures forall x :: x in t ==> y <= x.fiscalYear
  {
    if |t| == 1 then t[0].fiscalYear
    else
      var m := MinYear(t[1..]);
      assert t == [t[0]] + t[1..];
      if t[0].fiscalYear <= m then t[0].fiscalYear else m
  }

  /** `t['Fiscal Year'].max()` on a non-empty column. */
  function MaxYear(t: seq<Row>): (y: int)
    requires t != []
    ensures exists x :: x in t && x.fiscalYear == y
    ensures forall x :: x in t ==> x.fiscalYear <= y
  {
    if |t| == 1 then t[0].fiscalYear
    else
      var m := MaxYear(t[1..]);
      assert t == [t[0]] + t[1..];
      if m <= t[0].fiscalYear then t[0].fiscalYear else m
  }

  datatype Option<T> = None | Some(value: T)

  /** The Python exceptions the modelled code can raise. */
  datatype Error =
    /** KeyError: a column looked up on a frame that has none (the empty frame). */
    | MissingColumn
    /** IndexError: `click_data['points'][0]` on an empty list of points. */
    | NoPoint
    /** ValueError: `idxmax` of an empty series. */
    | EmptyArgmax

  datatype Result<T> = Ok(value: T) | Raised(error: Error)
}
