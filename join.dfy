/** `pd.merge(total_emissions, df_norm, on='Fiscal Year')`: the inner join of
    the yearly totals with the normalizing factors table. */
module Join {
  import opened GroupBy

  /** One row of normalizing_factors.csv as the model uses it: the join key
      and the "Revenue" column. */
  datatype Normalizing = Normalizing(fiscalYear: int, revenue: real)

  /** One row of the merged frame. */
  datatype Joined = Joined(fiscalYear: int, emissions: real, revenue: real)

  /** The normalizing rows that pair with one yearly total, in their own order. */
  function Matches(l: YearTotal, right: seq<Normalizing>): (m: seq<Joined>)
    ensures forall k :: 0 <= k < |m| ==> m[k].fiscalYear == l.fiscalYear && m[k].emissions == l.emissions
    ensures forall k :: 0 <= k < |m| ==> Normalizing(l.fiscalYear, m[k].revenue) in right
    ensures forall n :: n in right && n.fiscalYear == l.fiscalYear ==> Joined(l.fiscalYear, l.emissions, n.revenue) in m
    ensures |m| <= |right|
  {
    if right == [] then []
    else
      var rest := Matches(l, right[1..]);
      assert right == [right[0]] + right[1..];
      if right[0].fiscalYear == l.fiscalYear then [Joined(l.fiscalYear, l.emissions, right[0].revenue)] + rest
      else rest
  }

  /** Inner join on "Fiscal Year", left keys in their order: each merged row
      pairs a yearly total with a normalizing row of the same year, and every
      such pair is present. Years missing on either side are dropped. */
  function InnerJoin(left: seq<YearTotal>, right: seq<Normalizing>): (m: seq<Joined>)
    ensures forall k :: 0 <= k < |m| ==>
      YearTotal(m[k].fiscalYear, m[k].emissions) in left && Normalizing(m[k].fiscalYear, m[k].revenue) in right
    ensures forall l, n :: l in left && n in right && l.fiscalYear == n.fiscalYear ==>
      Joined(l.fiscalYear, l.emissions, n.revenue) in m
  {
    if left == [] then []
    else
      var head := Matches(left[0], right);
      var rest := InnerJoin(left[1..], right);
      assert left == [left[0]] + left[1..];
      var m := head + rest;
      assert forall k :: 0 <= k < |head| ==> m[k] == head[k];
      assert forall k :: |head| <= k < |m| ==> m[k] == rest[k - |head|];
      m
  }

  ghost predicate DistinctYears(right: seq<Normalizing>) {
    forall i, j :: 0 <= i < j < |right| ==> right[i].fiscalYear != right[j].fiscalYear
  }

  ghost predicate JoinedAscending(m: seq<Joined>) {
    forall i, j :: 0 <= i < j < |m| ==> m[i].fiscalYear < m[j].fiscalYear
  }

  lemma {:induction false} NoMatches(l: YearTotal, right: seq<Normalizing>)
    requires forall n :: n in right ==> n.fiscalYear != l.fiscalYear
    ensures Matches(l, right) == []
  {
    if right != [] {
      NoMatches(l, right[1..]);
    }
  }

  /** Against a table with one row per year, a yearly total pairs with at most one row. */
  lemma {:induction false} MatchesAtMostOne(l: YearTotal, right: seq<Normalizing>)
    requires DistinctYears(right)
    ensures |Matches(l, right)| <= 1
  {
    if right != [] {
      MatchesAtMostOne(l, right[1..]);
      if right[0].fiscalYear == l.fiscalYear {
        forall n | n in right[1..] ensures n.fiscalYear != l.fiscalYear {
          var j :| 0 <= j < |right[1..]| && right[1..][j] == n;
          assert right[j + 1] == n;
        }
        NoMatches(l, right[1..]);
      }
    }
  }

  /** With sorted, distinct yearly totals and one normalizing row per year,
      the merged frame has one row per shared year, in ascending order. */
  lemma {:induction false} JoinAscending(left: seq<YearTotal>, right: seq<Normalizing>)
    requires StrictlyAscending(left)
    requires DistinctYears(right)
    ensures JoinedAscending(InnerJoin(left, right))
  {
    if left != [] {
      JoinAscending(left[1..], right);
      MatchesAtMostOne(left[0], right);
      var head := Matches(left[0], right);
      var rest := InnerJoin(left[1..], right);
      var m := InnerJoin(left, right);
      assert m == head + rest;
      forall k | 0 <= k < |rest| ensures left[0].fiscalYear < rest[k].fiscalYear {
        var i :| 0 <= i < |left[1..]| && left[1..][i] == YearTotal(rest[k].fiscalYear, rest[k].emissions);
        assert left[i + 1].fiscalYear == rest[k].fiscalYear;
      }
    }
  }

  /** One step of the matching: the first normalizing row, if its year
      matches, then the matches among the rest. */
  lemma MatchesCons(l: YearTotal, right: seq<Normalizing>)
    requires right != []
    ensures Matches(l, right) ==
      (if right[0].fiscalYear == l.fiscalYear then [Joined(l.fiscalYear, l.emissions, right[0].revenue)] else []) + Matches(l, right[1..])
  {
  }

  lemma CountConcat<T>(a: seq<T>, b: seq<T>, x: T)
    ensures multiset(a + b)[x] == multiset(a)[x] + multiset(b)[x]
  {
  }

  lemma CountCons<T>(s: seq<T>, x: T)
    requires s != []
    ensures multiset(s)[x] == (if s[0] == x then 1 else 0) + multiset(s[1..])[x]
  {
    assert s == [s[0]] + s[1..];
  }

  /** A yearly total pairs with each normalizing row of its year as often as
      that row occurs, and with nothing else. */
  lemma {:induction false} MatchesCount(l: YearTotal, right: seq<Normalizing>, j: Joined)
    ensures multiset(Matches(l, right))[j] ==
      if j.fiscalYear == l.fiscalYear && j.emissions == l.emissions then multiset(right)[Normalizing(j.fiscalYear, j.revenue)] else 0
  {
    if right != [] {
      var nr := Normalizing(j.fiscalYear, j.revenue);
      var rest := Matches(l, right[1..]);
      MatchesCount(l, right[1..], j);
      MatchesCons(l, right);
      CountCons(right, nr);
      if right[0].fiscalYear == l.fiscalYear {
        var e := Joined(l.fiscalYear, l.emissions, right[0].revenue);
        CountConcat([e], rest, j);
        assert (e == j) == (j.fiscalYear == l.fiscalYear && j.emissions == l.emissions && right[0] == nr);
      } else {
        assert Matches(l, right) == rest;
        assert j.fiscalYear == l.fiscalYear ==> right[0] != nr;
      }
    }
  }

  /** pd.merge keeps every pairing: a merged row occurs as many times as its
      yearly total occurs on the left times its normalizing row occurs on the
      right. */
  lemma {:induction false} JoinCount(left: seq<YearTotal>, right: seq<Normalizing>, j: Joined)
    ensures multiset(InnerJoin(left, right))[j] ==
      multiset(left)[YearTotal(j.fiscalYear, j.emissions)] * multiset(right)[Normalizing(j.fiscalYear, j.revenue)]
  {
    if left != [] {
      var t := YearTotal(j.fiscalYear, j.emissions);
      var c := multiset(right)[Normalizing(j.fiscalYear, j.revenue)];
      var head := Matches(left[0], right);
      var rest := InnerJoin(left[1..], right);
      var b: nat := if left[0] == t then 1 else 0;
      var a := multiset(left[1..])[t];
      JoinCount(left[1..], right, j);
      MatchesCount(left[0], right, j);
      JoinCons(left, right);
      CountConcat(head, rest, j);
      CountCons(left, t);
      assert multiset(head)[j] == b * c;
      Distribute(b, a, c);
    }
  }

  /** One step of the merge: the matches of the first total, then the merge of the rest. */
  lemma JoinCons(left: seq<YearTotal>, right: seq<Normalizing>)
    requires left != []
    ensures InnerJoin(left, right) == Matches(left[0], right) + InnerJoin(left[1..], right)
  {
  }

  lemma Distribute(a: nat, b: nat, c: nat)
    ensures (a + b) * c == a * c + b * c
  {
  }

  /** The merged rows of `l` all carry its year. */
  lemma MatchesYear(l: YearTotal, right: seq<Normalizing>)
    ensures forall k :: 0 <= k < |Matches(l, right)| ==> Matches(l, right)[k].fiscalYear == l.fiscalYear
  {
  }

  /** pd.merge keeps the order of the left keys: with ascending yearly totals
      the merged rows come in non-decreasing year order, whatever years the
      normalizing table repeats. */
  lemma {:induction false} JoinOrder(left: seq<YearTotal>, right: seq<Normalizing>)
    requires StrictlyAscending(left)
    ensures forall i, j :: 0 <= i < j < |InnerJoin(left, right)| ==>
      InnerJoin(left, right)[i].fiscalYear <= InnerJoin(left, right)[j].fiscalYear
  {
    if left != [] {
      JoinOrder(left[1..], right);
      var head := Matches(left[0], right);
      var rest := InnerJoin(left[1..], right);
      var m := InnerJoin(left, right);
      JoinCons(left, right);
      MatchesYear(left[0], right);
      forall k | 0 <= k < |rest| ensures left[0].fiscalYear < rest[k].fiscalYear {
        var i :| 0 <= i < |left[1..]| && left[1..][i] == YearTotal(rest[k].fiscalYear, rest[k].emissions);
        assert left[i + 1].fiscalYear == rest[k].fiscalYear;
      }
      forall i, j | 0 <= i < j < |m| ensures m[i].fiscalYear <= m[j].fiscalYear {
        if j < |head| {
          assert m[i] == head[i] && m[j] == head[j];
        } else if i < |head| {
          assert m[i] == head[i] && m[j] == rest[j - |head|];
        } else {
          assert m[i] == rest[i - |head|] && m[j] == rest[j - |head|];
        }
      }
    }
  }

  /** The (year, revenue) column pair of a merged frame, in row order. */
  function RevenueOf(m: seq<Joined>): (r: seq<Normalizing>)
    ensures |r| == |m|
    ensures forall k :: 0 <= k < |m| ==> r[k] == Normalizing(m[k].fiscalYear, m[k].revenue)
  {
    if m == [] then [] else [Normalizing(m[0].fiscalYear, m[0].revenue)] + RevenueOf(m[1..])
  }

  /** The number of yearly totals for year `y`. */
  function YearCount(left: seq<YearTotal>, y: int): nat {
    if left == [] then 0 else (if left[0].fiscalYear == y then 1 else 0) + YearCount(left[1..], y)
  }

  lemma {:induction false} MatchesRevenueCount(l: YearTotal, right: seq<Normalizing>, n: Normalizing)
    ensures multiset(RevenueOf(Matches(l, right)))[n] == if n.fiscalYear == l.fiscalYear then multiset(right)[n] else 0
  {
    if right != [] {
      var rest := Matches(l, right[1..]);
      MatchesRevenueCount(l, right[1..], n);
      MatchesCons(l, right);
      CountCons(right, n);
      if right[0].fiscalYear == l.fiscalYear {
        var e := Joined(l.fiscalYear, l.emissions, right[0].revenue);
        RevenueConcat([e], rest);
        assert RevenueOf([e]) == [right[0]];
        CountConcat([right[0]], RevenueOf(rest), n);
      } else {
        assert Matches(l, right) == rest;
      }
    }
  }

  lemma RevenueConcat(a: seq<Joined>, b: seq<Joined>)
    ensures RevenueOf(a + b) == RevenueOf(a) + RevenueOf(b)
  {
    assert forall k :: 0 <= k < |a| ==> (a + b)[k] == a[k];
    assert forall k :: |a| <= k < |a + b| ==> (a + b)[k] == b[k - |a|];
  }

  /** Each normalizing row appears in the merge once for every yearly total of
      its year, as often as it occurs in the normalizing table. */
  lemma {:induction false} JoinRevenueCount(left: seq<YearTotal>, right: seq<Normalizing>, n: Normalizing)
    ensures multiset(RevenueOf(InnerJoin(left, right)))[n] == YearCount(left, n.fiscalYear) * multiset(right)[n]
  {
    if left != [] {
      var c := multiset(right)[n];
      var b: nat := if left[0].fiscalYear == n.fiscalYear then 1 else 0;
      var a := YearCount(left[1..], n.fiscalYear);
      JoinRevenueCount(left[1..], right, n);
      MatchesRevenueCount(left[0], right, n);
      RevenueCons(left, right, n);
      assert YearCount(left, n.fiscalYear) == b + a;
      assert multiset(RevenueOf(InnerJoin(left, right)))[n] == b * c + a * c;
      Distribute(b, a, c);
    }
  }

  /** The revenue count of a merge splits into the first total's matches and
      the merge of the rest. */
  lemma RevenueCons(left: seq<YearTotal>, right: seq<Normalizing>, n: Normalizing)
    requires left != []
    ensures multiset(RevenueOf(InnerJoin(left, right)))[n] ==
      multiset(RevenueOf(Matches(left[0], right)))[n] + multiset(RevenueOf(InnerJoin(left[1..], right)))[n]
  {
    var head := Matches(left[0], right);
    var rest := InnerJoin(left[1..], right);
    JoinCons(left, right);
    RevenueConcat(head, rest);
    CountConcat(RevenueOf(head), RevenueOf(rest), n);
  }

  /** Sorted, distinct yearly totals hold each year at most once. */
  lemma {:induction false} AscendingYearCount(left: seq<YearTotal>, y: int)
    requires StrictlyAscending(left)
    ensures YearCount(left, y) == if y in KeysOf(left) then 1 else 0
  {
    if left != [] {
      AscendingYearCount(left[1..], y);
      assert left == [left[0]] + left[1..];
      assert KeysOf(left) == {left[0].fiscalYear} + KeysOf(left[1..]);
      if left[0].fiscalYear == y {
        forall e | e in left[1..] ensures e.fiscalYear != y {
          var i :| 0 <= i < |left[1..]| && left[1..][i] == e;
          assert left[i + 1] == e;
        }
      }
    }
  }
}
