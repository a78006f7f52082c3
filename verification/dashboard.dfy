/**
  One run of the dashboard script for a sidebar selection: filter, then
  either the fallback message or the chart data (olympics_dashboard.py,
  lines 31-86). Drawing the charts is not modelled; the view carries the
  tables they are drawn from.
 */
module Dashboard {
  import opened Records
  import opened Filtering
  import opened Aggregation

  /**
    What the page shows below its subheader: the "no data" message, or the
    per-year table (line and bar charts) and the medal distribution (pie).
   */
  datatype View =
    | NoData
    | Charts(yearly: seq<YearTotals>, distribution: seq<CategoryTotal>)

  /** The filter-and-aggregate pipeline for one selection. */
  function Render(data: seq<MedalRecord>, c: Criteria): (v: View)
    ensures v.NoData? <==> forall x :: x in data ==> !Matches(x, c)
    ensures v.Charts? ==> |v.yearly| > 0 && StrictlyAscending(v.yearly)
    ensures v.Charts? ==> forall i :: 0 <= i < |v.yearly| ==> c.yearMin <= v.yearly[i].year <= c.yearMax
    ensures v.Charts? ==> SummaryYears(v.yearly) == Years(Filter(data, c))
    ensures v.Charts? ==> forall y, m :: Lookup(v.yearly, y, m) == TotalInYear(Filter(data, c), y, m)
    ensures v.Charts? ==> forall m :: ColumnSum(v.yearly, m) == Total(Filter(data, c), m)
    ensures v.Charts? ==> |v.distribution| == 3
    ensures v.Charts? ==> forall i :: 0 <= i < 3 ==>
              v.distribution[i] == CategoryTotal(MedalOrder[i], Total(Filter(data, c), MedalOrder[i]))
  {
    var filtered := Filter(data, c);
    if filtered == [] then NoData
    else
      var yearly := AggregateByYear(filtered);
      assert filtered[0].year in Years(filtered);
      assert forall i :: 0 <= i < |yearly| ==> yearly[i].year in SummaryYears(yearly);
      Charts(yearly, CategoryTotals(filtered))
  }

  /**
    The charts agree with each other and with the filtered rows: each year
    row holds that year's sums, and each pie slice equals the bar chart's
    column summed over the years.
   */
  lemma ChartsAgree(data: seq<MedalRecord>, c: Criteria)
    requires Render(data, c).Charts?
    ensures var v := Render(data, c);
            && (forall i, m :: 0 <= i < |v.yearly| ==>
                  Get(v.yearly[i], m) == TotalInYear(Filter(data, c), v.yearly[i].year, m))
            && (forall i :: 0 <= i < 3 ==>
                  v.distribution[i].medal == MedalOrder[i]
                  && v.distribution[i].count == ColumnSum(v.yearly, MedalOrder[i]))
            && DistributionSum(v.distribution)
               == ColumnSum(v.yearly, Gold) + ColumnSum(v.yearly, Silver) + ColumnSum(v.yearly, Bronze)
  {
    YearRowsAreSums(Filter(data, c));
    DistributionMatchesYearly(Filter(data, c));
  }

  /** On first load (slider at its default, a code from the select box) the charts are drawn. */
  lemma DefaultSelectionDrawsCharts(data: seq<MedalRecord>, noc: string)
    requires data != []
    requires noc in Nocs(data)
    ensures Render(data, DefaultCriteria(data, noc)).Charts?
  {
  }

  /**
    A worked selection: two USA rows of 2000, one of 2004 and one FRA row
    of 2000, filtered for USA over 2000-2004. The FRA row is dropped and
    the USA rows are kept in table order.
   */
  lemma ScenarioFilter(data: seq<MedalRecord>, c: Criteria)
    requires data == [MedalRecord("USA", 2000, 10, 5, 3), MedalRecord("USA", 2000, 2, 0, 1),
                      MedalRecord("USA", 2004, 8, 6, 4), MedalRecord("FRA", 2000, 1, 1, 1)]
    requires c == Criteria("USA", 2000, 2004)
    ensures Filter(data, c) == data[..3]
  {
    var a, b, d, f := data[0], data[1], data[2], data[3];
    assert [f][1..] == [];
    assert Filter([f], c) == [];
    assert [d, f][1..] == [f];
    assert Filter([d, f], c) == [d];
    assert [b, d, f][1..] == [d, f];
    assert Filter([b, d, f], c) == [b, d];
    assert data[1..] == [b, d, f];
    assert data[..3] == [a, b, d];
  }

  /** The two 2000 rows of the worked selection are added together into one row. */
  lemma ScenarioYearly(filtered: seq<MedalRecord>)
    requires filtered == [MedalRecord("USA", 2000, 10, 5, 3), MedalRecord("USA", 2000, 2, 0, 1),
                          MedalRecord("USA", 2004, 8, 6, 4)]
    ensures AggregateByYear(filtered) == [YearTotals(2000, 12, 5, 4), YearTotals(2004, 8, 6, 4)]
  {
    var a, b, d := filtered[0], filtered[1], filtered[2];
    var yearly := [YearTotals(2000, 12, 5, 4), YearTotals(2004, 8, 6, 4)];
    assert filtered[1..] == [b, d] && [b, d][1..] == [d] && [d][1..] == [];
    assert Years(filtered) == {2000, 2004} by {
      assert a in filtered && d in filtered;
    }
    assert SummaryYears(yearly) == {2000, 2004} by {
      assert yearly[0] in yearly && yearly[1] in yearly;
    }
    forall i, m | 0 <= i < |yearly|
      ensures Get(yearly[i], m) == TotalInYear(filtered, yearly[i].year, m)
    {
      var y := yearly[i].year;
      assert TotalInYear([d], y, m) == (if y == 2004 then Count(d, m) else 0);
      assert TotalInYear([b, d], y, m) == (if y == 2000 then Count(b, m) else 0) + TotalInYear([d], y, m);
    }
    GroupByIsUnique(filtered, yearly);
  }

  /** The medal distribution of the worked selection. */
  lemma ScenarioCategories(filtered: seq<MedalRecord>)
    requires filtered == [MedalRecord("USA", 2000, 10, 5, 3), MedalRecord("USA", 2000, 2, 0, 1),
                          MedalRecord("USA", 2004, 8, 6, 4)]
    ensures CategoryTotals(filtered)
            == [CategoryTotal(Gold, 20), CategoryTotal(Silver, 11), CategoryTotal(Bronze, 8)]
  {
    var a, b, d := filtered[0], filtered[1], filtered[2];
    assert filtered[1..] == [b, d] && [b, d][1..] == [d] && [d][1..] == [];
    forall m ensures Total(filtered, m) == Count(a, m) + Count(b, m) + Count(d, m) {
      assert Total([d], m) == Count(d, m);
      assert Total([b, d], m) == Count(b, m) + Total([d], m);
    }
  }

  /** Whatever table yields the worked selection's three rows, the charts follow from them. */
  lemma ScenarioCharts(data: seq<MedalRecord>, c: Criteria)
    requires Filter(data, c) == [MedalRecord("USA", 2000, 10, 5, 3), MedalRecord("USA", 2000, 2, 0, 1),
                                 MedalRecord("USA", 2004, 8, 6, 4)]
    ensures Render(data, c)
            == Charts([YearTotals(2000, 12, 5, 4), YearTotals(2004, 8, 6, 4)],
                      [CategoryTotal(Gold, 20), CategoryTotal(Silver, 11), CategoryTotal(Bronze, 8)])
  {
    ScenarioYearly(Filter(data, c));
    ScenarioCategories(Filter(data, c));
  }

  /** The whole pipeline on the worked selection. */
  lemma UsaScenario(data: seq<MedalRecord>, c: Criteria)
    requires data == [MedalRecord("USA", 2000, 10, 5, 3), MedalRecord("USA", 2000, 2, 0, 1),
                      MedalRecord("USA", 2004, 8, 6, 4), MedalRecord("FRA", 2000, 1, 1, 1)]
    requires c == Criteria("USA", 2000, 2004)
    ensures Render(data, c)
            == Charts([YearTotals(2000, 12, 5, 4), YearTotals(2004, 8, 6, 4)],
                      [CategoryTotal(Gold, 20), CategoryTotal(Silver, 11), CategoryTotal(Bronze, 8)])
  {
    ScenarioFilter(data, c);
    assert data[..3] == [data[0], data[1], data[2]];
    ScenarioCharts(data, c);
  }
}
