/**
  The medal table the dashboard works on: one record per row of the loaded
  data set, and the column sums every chart is built from.
 */
module Records {

  /** One row of the medal table. Counts are already coerced to integers. */
  datatype MedalRecord = MedalRecord(noc: string, year: int, gold: nat, silver: nat, bronze: nat)

  /** The three medal columns, in the order the dashboard plots them. */
  datatype Medal = Gold | Silver | Bronze

  const MedalOrder: seq<Medal> := [Gold, Silver, Bronze]

  /** The value of column `m` in record `r`. */
  function Count(r: MedalRecord, m: Medal): nat
  {
    match m
    case Gold => r.gold
    case Silver => r.silver
    case Bronze => r.bronze
  }

  /** Sum of column `m` over all rows. */
  function Total(rows: seq<MedalRecord>, m: Medal): nat
  {
    if rows == [] then 0 else Count(rows[0], m) + Total(rows[1..], m)
  }

  /** Sum of column `m` over the rows whose year is `y`. */
  function TotalInYear(rows: seq<MedalRecord>, y: int, m: Medal): nat
  {
    if rows == [] then 0
    else (if rows[0].year == y then Count(rows[0], m) else 0) + TotalInYear(rows[1..], y, m)
  }

  /** The distinct years occurring in the rows. */
  function Years(rows: seq<MedalRecord>): set<int>
  {
    set r | r in rows :: r.year
  }

  /** The distinct committee codes occurring in the rows. */
  function Nocs(rows: seq<MedalRecord>): set<string>
  {
    set r | r in rows :: r.noc
  }

  /** A column sum depends only on which rows there are, not on their order. */
  lemma {:induction false} TotalInYearPermutation(a: seq<MedalRecord>, b: seq<MedalRecord>, y: int, m: Medal)
    requires multiset(a) == multiset(b)
    ensures TotalInYear(a, y, m) == TotalInYear(b, y, m)
    decreases |a|
  {
    if a == [] {
      assert b == [] by {
        assert |b| == |multiset(b)|;
      }
    } else {
      var k := IndexOf(b, a[0]);
      var rest := RemoveAt(b, k);
      assert multiset(a[1..]) == multiset(rest) by {
        assert a == [a[0]] + a[1..];
      }
      calc {
        TotalInYear(a, y, m);
        (if a[0].year == y then Count(a[0], m) else 0) + TotalInYear(a[1..], y, m);
        { TotalInYearPermutation(a[1..], rest, y, m); }
        (if b[k].year == y then Count(b[k], m) else 0) + TotalInYear(rest, y, m);
        { TotalInYearRemove(b, k, y, m); }
        TotalInYear(b, y, m);
      }
    }
  }

  /** A position at which `x` occurs in `s`. */
  lemma IndexOf<T>(s: seq<T>, x: T) returns (k: nat)
    requires x in multiset(s)
    ensures k < |s| && s[k] == x
  {
    k :| 0 <= k < |s| && s[k] == x;
  }

  /** `s` without its element at `k`: one occurrence fewer of that element. */
  function RemoveAt<T>(s: seq<T>, k: nat): (r: seq<T>)
    requires k < |s|
    ensures |r| == |s| - 1
    ensures multiset(r) == multiset(s) - multiset{s[k]}
  {
    assert s == s[..k] + [s[k]] + s[k+1..];
    s[..k] + s[k+1..]
  }

  /** Removing the row at `k` removes exactly its contribution. */
  lemma {:induction false} TotalInYearRemove(b: seq<MedalRecord>, k: nat, y: int, m: Medal)
    requires k < |b|
    ensures TotalInYear(b, y, m)
            == (if b[k].year == y then Count(b[k], m) else 0) + TotalInYear(RemoveAt(b, k), y, m)
  {
    if k > 0 {
      assert RemoveAt(b, k)[1..] == RemoveAt(b[1..], k - 1);
      TotalInYearRemove(b[1..], k - 1, y, m);
    } else {
      assert RemoveAt(b, k) == b[1..];
    }
  }
}
