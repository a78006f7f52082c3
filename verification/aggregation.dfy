/**
  The aggregation stage: the filtered rows grouped by year with the medal
  columns summed (olympics_dashboard.py, lines 40 and 56), and the medal
  distribution summed over all years (lines 72-73).
 */
module Aggregation {
  import opened Records

  /** One row of the grouped table: a year and its three medal sums. */
  datatype YearTotals = YearTotals(year: int, gold: nat, silver: nat, bronze: nat)

  function Get(t: YearTotals, m: Medal): nat
  {
    match m
    case Gold => t.gold
    case Silver => t.silver
    case Bronze => t.bronze
  }

  /** A single record seen as a one-row group. */
  function Tally(r: MedalRecord): (t: YearTotals)
    ensures t.year == r.year
    ensures forall m :: Get(t, m) == Count(r, m)
  {
    YearTotals(r.year, r.gold, r.silver, r.bronze)
  }

  /** Years strictly increase down the table, so each year occurs once. */
  predicate StrictlyAscending(s: seq<YearTotals>)
  {
    forall i, j :: 0 <= i < j < |s| ==> s[i].year < s[j].year
  }

  function SummaryYears(s: seq<YearTotals>): set<int>
  {
    set t | t in s :: t.year
  }

  /** The grouped table read as a map: the sum of `m` for year `y`, 0 when absent. */
  function Lookup(s: seq<YearTotals>, y: int, m: Medal): nat
  {
    if s == [] then 0 else if s[0].year == y then Get(s[0], m) else Lookup(s[1..], y, m)
  }

  /** Sum of column `m` down the grouped table. */
  function ColumnSum(s: seq<YearTotals>, m: Medal): nat
  {
    if s == [] then 0 else Get(s[0], m) + ColumnSum(s[1..], m)
  }

  /** A year below the first row of an ascending table has no row. */
  lemma {:induction false} LookupBelowFirst(s: seq<YearTotals>, y: int, m: Medal)
    requires StrictlyAscending(s)
    requires s == [] || y < s[0].year
    ensures Lookup(s, y, m) == 0
  {
    if s != [] {
      assert s[1..] == [] || s[0].year < s[1..][0].year;
      LookupBelowFirst(s[1..], y, m);
    }
  }

  /** In an ascending table, looking up a row's own year finds that row. */
  lemma {:induction false} LookupAt(s: seq<YearTotals>, i: nat, m: Medal)
    requires StrictlyAscending(s)
    requires i < |s|
    ensures Lookup(s, s[i].year, m) == Get(s[i], m)
  {
    if i > 0 {
      assert s[1..][i - 1] == s[i];
      LookupAt(s[1..], i - 1, m);
    }
  }

  /**
    `r` is `acc` with record totals `t` merged in: still ascending, with
    `t`'s year added to its years, `t`'s counts added to that year and to
    no other, and each column total raised by `t`'s count.
   */
  ghost predicate MergedInto(acc: seq<YearTotals>, t: YearTotals, r: seq<YearTotals>)
  {
    && StrictlyAscending(r)
    && SummaryYears(r) == SummaryYears(acc) + {t.year}
    && (forall y, m :: Lookup(r, y, m) == Lookup(acc, y, m) + (if y == t.year then Get(t, m) else 0))
    && (forall m :: ColumnSum(r, m) == ColumnSum(acc, m) + Get(t, m))
  }

  /** A record older than every row goes first. */
  lemma InsertFirst(acc: seq<YearTotals>, t: YearTotals)
    requires StrictlyAscending(acc)
    requires acc != [] && t.year < acc[0].year
    ensures MergedInto(acc, t, [t] + acc)
  {
    forall m ensures Lookup(acc, t.year, m) == 0 {
      LookupBelowFirst(acc, t.year, m);
    }
    assert SummaryYears([t] + acc) == {t.year} + SummaryYears(acc);
  }

  /** A record of the first row's year is added into that row. */
  lemma MergeFirst(acc: seq<YearTotals>, t: YearTotals, merged: YearTotals)
    requires StrictlyAscending(acc)
    requires acc != [] && t.year == acc[0].year
    requires merged.year == t.year && forall m :: Get(merged, m) == Get(acc[0], m) + Get(t, m)
    ensures MergedInto(acc, t, [merged] + acc[1..])
  {
  }

  /** A record younger than the first row is merged into the rest of the table. */
  lemma MergeLater(acc: seq<YearTotals>, t: YearTotals, rest: seq<YearTotals>)
    requires StrictlyAscending(acc)
    requires acc != [] && acc[0].year < t.year
    requires MergedInto(acc[1..], t, rest)
    ensures MergedInto(acc, t, [acc[0]] + rest)
  {
    var r := [acc[0]] + rest;
    assert r[1..] == rest;
    PrependAscending(acc, t, rest);
    assert SummaryYears(r) == SummaryYears(acc) + {t.year} by {
      assert acc == [acc[0]] + acc[1..];
      assert SummaryYears(r) == {acc[0].year} + SummaryYears(rest);
      assert SummaryYears(acc) == {acc[0].year} + SummaryYears(acc[1..]);
    }
    forall y, m
      ensures Lookup(r, y, m) == Lookup(acc, y, m) + (if y == t.year then Get(t, m) else 0)
    {
      if y != acc[0].year {
        assert Lookup(r, y, m) == Lookup(rest, y, m);
        assert Lookup(acc, y, m) == Lookup(acc[1..], y, m);
      }
    }
    forall m
      ensures ColumnSum(r, m) == ColumnSum(acc, m) + Get(t, m)
    {
      assert ColumnSum(r, m) == Get(acc[0], m) + ColumnSum(rest, m);
    }
  }

  /** The first row stays first: every year merged after it is later. */
  lemma PrependAscending(acc: seq<YearTotals>, t: YearTotals, rest: seq<YearTotals>)
    requires StrictlyAscending(acc)
    requires acc != [] && acc[0].year < t.year
    requires StrictlyAscending(rest)
    requires SummaryYears(rest) == SummaryYears(acc[1..]) + {t.year}
    ensures StrictlyAscending([acc[0]] + rest)
  {
    var r := [acc[0]] + rest;
    forall i, j | 0 <= i < j < |r|
      ensures r[i].year < r[j].year
    {
      if i == 0 {
        var u := rest[j - 1];
        assert u in rest;
        assert u.year in SummaryYears(rest);
        if u.year != t.year {
          assert u.year in SummaryYears(acc[1..]);
          var w :| w in acc[1..] && w.year == u.year;
          var k :| 0 <= k < |acc[1..]| && acc[1..][k] == w;
          assert acc[k + 1] == w;
        }
      } else {
        assert r[i] == rest[i - 1] && r[j] == rest[j - 1];
      }
    }
  }

  /**
    Merges one record's counts into an ascending grouped table: added to
    the row of its year, or inserted as a new row in year order.
   */
  function AddInto(acc: seq<YearTotals>, t: YearTotals): (r: seq<YearTotals>)
    requires StrictlyAscending(acc)
    ensures MergedInto(acc, t, r)
  {
    if acc == [] then [t]
    else if t.year < acc[0].year then
      InsertFirst(acc, t);
      [t] + acc
    else if t.year == acc[0].year then
      var merged := YearTotals(t.year, acc[0].gold + t.gold, acc[0].silver + t.silver, acc[0].bronze + t.bronze);
      MergeFirst(acc, t, merged);
      [merged] + acc[1..]
    else
      var rest := AddInto(acc[1..], t);
      MergeLater(acc, t, rest);
      [acc[0]] + rest
  }

  /**
    `groupby('Year').sum()` restricted to the medal columns: one row per
    distinct year of the input, years ascending, each holding the sum of
    every medal column over the input rows of that year.
   */
  function AggregateByYear(rows: seq<MedalRecord>): (summary: seq<YearTotals>)
    ensures StrictlyAscending(summary)
    ensures SummaryYears(summary) == Years(rows)
    ensures forall y, m :: Lookup(summary, y, m) == TotalInYear(rows, y, m)
    ensures forall m :: ColumnSum(summary, m) == Total(rows, m)
  {
    if rows == [] then []
    else
      assert rows == [rows[0]] + rows[1..];
      assert Years(rows) == {rows[0].year} + Years(rows[1..]);
      AddInto(AggregateByYear(rows[1..]), Tally(rows[0]))
  }

  /** Every row of the grouped table holds the sums over the input rows of its year. */
  lemma YearRowsAreSums(rows: seq<MedalRecord>)
    ensures forall i, m :: 0 <= i < |AggregateByYear(rows)| ==>
              Get(AggregateByYear(rows)[i], m) == TotalInYear(rows, AggregateByYear(rows)[i].year, m)
  {
    var s := AggregateByYear(rows);
    forall i, m | 0 <= i < |s|
      ensures Get(s[i], m) == TotalInYear(rows, s[i].year, m)
    {
      LookupAt(s, i, m);
    }
  }

  /** An ascending table has as many rows as distinct years. */
  lemma {:induction false} AscendingCardinality(s: seq<YearTotals>)
    requires StrictlyAscending(s)
    ensures |SummaryYears(s)| == |s|
  {
    if s != [] {
      assert s == [s[0]] + s[1..];
      TailYears(s);
      AscendingCardinality(s[1..]);
    }
  }

  /** The grouped table has exactly one row per distinct year of its input. */
  lemma OneRowPerYear(rows: seq<MedalRecord>)
    ensures |AggregateByYear(rows)| == |Years(rows)|
  {
    AscendingCardinality(AggregateByYear(rows));
  }

  /** The first row of a non-empty ascending table holds its least year. */
  lemma FirstIsLeast(s: seq<YearTotals>)
    requires StrictlyAscending(s)
    requires s != []
    ensures forall y :: y in SummaryYears(s) ==> s[0].year <= y
  {
  }

  /** Two ascending tables over the same years list the same years in the same places. */
  lemma {:induction false} AscendingYearsDetermined(a: seq<YearTotals>, b: seq<YearTotals>)
    requires StrictlyAscending(a) && StrictlyAscending(b)
    requires SummaryYears(a) == SummaryYears(b)
    ensures |a| == |b|
    ensures forall i :: 0 <= i < |a| ==> a[i].year == b[i].year
  {
    AscendingCardinality(a);
    AscendingCardinality(b);
    if a != [] {
      assert b != [];
      FirstIsLeast(a);
      FirstIsLeast(b);
      assert a[0].year in SummaryYears(b) && b[0].year in SummaryYears(a);
      assert a[0].year == b[0].year;
      TailYears(a);
      TailYears(b);
      AscendingYearsDetermined(a[1..], b[1..]);
      forall i | 0 < i < |a|
        ensures a[i].year == b[i].year
      {
        assert a[i] == a[1..][i - 1] && b[i] == b[1..][i - 1];
      }
    }
  }

  /** Dropping the first row of an ascending table drops exactly its year. */
  lemma TailYears(s: seq<YearTotals>)
    requires StrictlyAscending(s)
    requires s != []
    ensures StrictlyAscending(s[1..])
    ensures SummaryYears(s[1..]) == SummaryYears(s) - {s[0].year}
  {
  }

  /**
    The grouped table is determined by its promises: any ascending table
    over the input's years whose rows hold the per-year sums is exactly
    the one `AggregateByYear` computes.
   */
  lemma GroupByIsUnique(rows: seq<MedalRecord>, s: seq<YearTotals>)
    requires StrictlyAscending(s)
    requires SummaryYears(s) == Years(rows)
    requires forall i, m :: 0 <= i < |s| ==> Get(s[i], m) == TotalInYear(rows, s[i].year, m)
    ensures s == AggregateByYear(rows)
  {
    var g := AggregateByYear(rows);
    AscendingYearsDetermined(s, g);
    YearRowsAreSums(rows);
    forall i | 0 <= i < |s|
      ensures s[i] == g[i]
    {
      assert Get(s[i], Gold) == Get(g[i], Gold);
      assert Get(s[i], Silver) == Get(g[i], Silver);
      assert Get(s[i], Bronze) == Get(g[i], Bronze);
    }
  }

  /** Grouping does not depend on the order of the input rows. */
  lemma AggregateIgnoresOrder(a: seq<MedalRecord>, b: seq<MedalRecord>)
    requires multiset(a) == multiset(b)
    ensures AggregateByYear(a) == AggregateByYear(b)
  {
    var s := AggregateByYear(a);
    assert Years(a) == Years(b) by {
      forall y ensures y in Years(a) <==> y in Years(b) {
        if y in Years(a) {
          var x :| x in a && x.year == y;
          assert x in multiset(b);
        }
        if y in Years(b) {
          var x :| x in b && x.year == y;
          assert x in multiset(a);
        }
      }
    }
    YearRowsAreSums(a);
    forall i, m | 0 <= i < |s|
      ensures Get(s[i], m) == TotalInYear(b, s[i].year, m)
    {
      TotalInYearPermutation(a, b, s[i].year, m);
    }
    GroupByIsUnique(b, s);
  }

  /** One entry of the medal-distribution table (line 73's Medal and Count columns). */
  datatype CategoryTotal = CategoryTotal(medal: Medal, count: nat)

  /** The medal distribution: each medal column summed over all rows, Gold, Silver, Bronze. */
  function CategoryTotals(rows: seq<MedalRecord>): (dist: seq<CategoryTotal>)
    ensures |dist| == 3
    ensures forall i :: 0 <= i < |dist| ==> dist[i].medal == MedalOrder[i]
    ensures forall i :: 0 <= i < |dist| ==> dist[i].count == Total(rows, dist[i].medal)
  {
    [CategoryTotal(Gold, Total(rows, Gold)),
     CategoryTotal(Silver, Total(rows, Silver)),
     CategoryTotal(Bronze, Total(rows, Bronze))]
  }

  /** Sum of the counts of a distribution table. */
  function DistributionSum(dist: seq<CategoryTotal>): nat
  {
    if dist == [] then 0 else dist[0].count + DistributionSum(dist[1..])
  }

  /**
    The pie chart agrees with the grouped table: each category equals that
    column summed over the years, and the grand totals coincide.
   */
  lemma DistributionMatchesYearly(rows: seq<MedalRecord>)
    ensures forall i :: 0 <= i < 3 ==>
              CategoryTotals(rows)[i].count == ColumnSum(AggregateByYear(rows), MedalOrder[i])
    ensures DistributionSum(CategoryTotals(rows))
            == ColumnSum(AggregateByYear(rows), Gold)
             + ColumnSum(AggregateByYear(rows), Silver)
             + ColumnSum(AggregateByYear(rows), Bronze)
  {
    var d := CategoryTotals(rows);
    assert DistributionSum(d[1..][1..][1..]) == 0;
    assert DistributionSum(d[1..][1..]) == d[2].count;
    assert DistributionSum(d[1..]) == d[1].count + d[2].count;
  }
}
