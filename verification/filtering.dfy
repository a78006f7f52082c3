/**
  The filter stage: the sidebar's committee code and year range select the
  rows the charts are drawn from (olympics_dashboard.py, lines 23-33).
 */
module Filtering {
  import opened Records

  /** The sidebar selection: a committee code and the slider's two ends. */
  datatype Criteria = Criteria(noc: string, yearMin: int, yearMax: int)

  /** The boolean mask of lines 31-33, for one row. */
  predicate Matches(r: MedalRecord, c: Criteria)
  {
    r.noc == c.noc && c.yearMin <= r.year && r.year <= c.yearMax
  }

  /** `a` is obtained from `b` by deleting elements, the rest kept in order. */
  predicate IsSubsequence<T(==)>(a: seq<T>, b: seq<T>)
    decreases |b|
  {
    a == [] ||
    (b != [] && ((a[0] == b[0] && IsSubsequence(a[1..], b[1..])) || IsSubsequence(a, b[1..])))
  }

  /** Indexing the table with the mask: the matching rows, in table order. */
  function Filter(rows: seq<MedalRecord>, c: Criteria): (kept: seq<MedalRecord>)
    ensures forall x :: x in kept <==> x in rows && Matches(x, c)
    ensures |kept| <= |rows|
  {
    if rows == [] then []
    else if Matches(rows[0], c) then [rows[0]] + Filter(rows[1..], c)
    else Filter(rows[1..], c)
  }

  /** Every matching row is kept as often as it occurs in the table; no other row is. */
  lemma {:induction false} FilterCounts(rows: seq<MedalRecord>, c: Criteria)
    ensures forall x :: multiset(Filter(rows, c))[x] == if Matches(x, c) then multiset(rows)[x] else 0
  {
    if rows != [] {
      assert rows == [rows[0]] + rows[1..];
      FilterCounts(rows[1..], c);
    }
  }

  /** The kept rows appear in the same relative order as in the table. */
  lemma {:induction false} FilterKeepsOrder(rows: seq<MedalRecord>, c: Criteria)
    ensures IsSubsequence(Filter(rows, c), rows)
  {
    if rows != [] {
      FilterKeepsOrder(rows[1..], c);
      var rest := Filter(rows[1..], c);
      if Matches(rows[0], c) {
        assert ([rows[0]] + rest)[1..] == rest;
      } else if rest != [] {
        assert rest[0] in rest;
      }
    }
  }

  /** Re-applying the same selection changes nothing. */
  lemma {:induction false} FilterIdempotent(rows: seq<MedalRecord>, c: Criteria)
    ensures Filter(Filter(rows, c), c) == Filter(rows, c)
  {
    if rows != [] {
      FilterIdempotent(rows[1..], c);
      if Matches(rows[0], c) {
        assert ([rows[0]] + Filter(rows[1..], c))[1..] == Filter(rows[1..], c);
      }
    }
  }

  /** A one-year slider range keeps rows of that year only. */
  lemma FilterSingleYear(rows: seq<MedalRecord>, c: Criteria)
    requires c.yearMin == c.yearMax
    ensures forall x :: x in Filter(rows, c) ==> x.noc == c.noc && x.year == c.yearMin
  {
  }

  /** An inverted year range selects nothing. */
  lemma FilterInvertedRange(rows: seq<MedalRecord>, c: Criteria)
    requires c.yearMin > c.yearMax
    ensures Filter(rows, c) == []
  {
  }

  /** The slider's lower end: the smallest year in the table (line 27). */
  function MinYear(rows: seq<MedalRecord>): (lo: int)
    requires rows != []
    ensures lo in Years(rows)
    ensures forall x :: x in rows ==> lo <= x.year
  {
    if |rows| == 1 then rows[0].year
    else
      var rest := MinYear(rows[1..]);
      assert forall x :: x in rows ==> x == rows[0] || x in rows[1..];
      if rows[0].year <= rest then rows[0].year else rest
  }

  /** The slider's upper end: the largest year in the table (line 27). */
  function MaxYear(rows: seq<MedalRecord>): (hi: int)
    requires rows != []
    ensures hi in Years(rows)
    ensures forall x :: x in rows ==> x.year <= hi
  {
    if |rows| == 1 then rows[0].year
    else
      var rest := MaxYear(rows[1..]);
      assert forall x :: x in rows ==> x == rows[0] || x in rows[1..];
      if rows[0].year >= rest then rows[0].year else rest
  }

  /** The slider's initial value together with a chosen code (lines 26-28). */
  function DefaultCriteria(rows: seq<MedalRecord>, noc: string): Criteria
    requires rows != []
  {
    Criteria(noc, MinYear(rows), MaxYear(rows))
  }

  /**
    With the slider at its default, the year range removes nothing: every
    row of the chosen code is kept, as often as it occurs, and a code taken
    from the table (as the select box offers) selects at least one row.
   */
  lemma FilterDefaultRange(rows: seq<MedalRecord>, noc: string)
    requires rows != []
    ensures forall x :: multiset(Filter(rows, DefaultCriteria(rows, noc)))[x]
                        == if x.noc == noc then multiset(rows)[x] else 0
    ensures noc in Nocs(rows) ==> Filter(rows, DefaultCriteria(rows, noc)) != []
  {
    var c := DefaultCriteria(rows, noc);
    FilterCounts(rows, c);
    forall x
      ensures multiset(Filter(rows, c))[x] == if x.noc == noc then multiset(rows)[x] else 0
    {
      if x.noc == noc && x in rows {
        assert Matches(x, c);
      }
    }
    if noc in Nocs(rows) {
      var x :| x in rows && x.noc == noc;
      assert Matches(x, c);
      assert x in Filter(rows, c);
    }
  }
}
