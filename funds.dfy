/**
 * The fund table as it reaches the metric computation: one row per fund and
 * calendar month, and the (fund_id, date) order the table is sorted in.
 */
module Funds {

  datatype Option<T> = None | Some(value: T) {
    function GetOr(default: T): T {
      match this
      case Some(v) => v
      case None => default
    }
  }

  /** One monthly observation. Price and dividend per share are None when
      the cell is empty (NaN in the table). */
  datatype Obs = Obs(fundId: int, year: int, month: int, price: Option<real>, dividend: Option<real>)

  /** One output row: the pass-through columns and the three percentages. */
  datatype Record = Record(fundId: int, year: int, month: int, price: real, dividend: real,
                           basePct: real, ltdPct: real, ytdPct: real)

  /** Every row names a calendar month, as building its first-of-month date demands. */
  predicate ValidMonths(s: seq<Obs>) {
    forall i :: 0 <= i < |s| ==> 1 <= s[i].month <= 12
  }

  /** The first-of-month date of (year, month), counted in months. */
  function MonthIndex(year: int, month: int): (r: int)
    ensures 1 <= month <= 12 ==> r / 12 == year && r % 12 + 1 == month
  {
    12 * year + month - 1
  }

  /** Ordering by first-of-month date is ordering by (year, month). */
  lemma MonthIndexOrder(y1: int, m1: int, y2: int, m2: int)
    requires 1 <= m1 <= 12 && 1 <= m2 <= 12
    ensures MonthIndex(y1, m1) <= MonthIndex(y2, m2) <==> y1 < y2 || (y1 == y2 && m1 <= m2)
    ensures MonthIndex(y1, m1) == MonthIndex(y2, m2) <==> y1 == y2 && m1 == m2
  {
  }

  /** The sort order of the table: by fund, then by date. */
  predicate RowLe(a: Obs, b: Obs) {
    a.fundId < b.fundId ||
    (a.fundId == b.fundId && MonthIndex(a.year, a.month) <= MonthIndex(b.year, b.month))
  }

  predicate Sorted(s: seq<Obs>) {
    forall j, k :: 0 <= j < k < |s| ==> RowLe(s[j], s[k])
  }

  /** At most one observation per fund and month. */
  predicate UniqueKeys(s: seq<Obs>) {
    forall j, k :: 0 <= j < k < |s| ==>
      s[j].fundId != s[k].fundId || s[j].year != s[k].year || s[j].month != s[k].month
  }

  /** No division by zero: the starting price and every present price are
      non-zero. This is more than the division needs, since a fund's last
      price is never a divisor. */
  predicate NonZeroPrices(s: seq<Obs>, start: real) {
    start != 0.0 && forall i :: 0 <= i < |s| && s[i].price.Some? ==> s[i].price.value != 0.0
  }

  /** The rows of fund f, in table order. */
  function FundRows(s: seq<Obs>, f: int): (r: seq<Obs>)
    ensures |r| <= |s|
  {
    if s == [] then []
    else
      var last := s[|s| - 1];
      FundRows(s[..|s| - 1], f) + (if last.fundId == f then [last] else [])
  }

  /** FundRows keeps exactly the rows of fund f. */
  lemma {:induction false} FundRowsMembers(s: seq<Obs>, f: int)
    ensures forall x :: x in FundRows(s, f) <==> x in s && x.fundId == f
    decreases |s|
  {
    if s != [] {
      FundRowsMembers(s[..|s| - 1], f);
      assert s == s[..|s| - 1] + [s[|s| - 1]];
    }
  }

  lemma FundRowsSnoc(s: seq<Obs>, x: Obs, f: int)
    ensures x.fundId == f ==> FundRows(s + [x], f) == FundRows(s, f) + [x]
    ensures x.fundId != f ==> FundRows(s + [x], f) == FundRows(s, f)
  {
    assert (s + [x])[..|s|] == s;
    assert FundRows(s, f) + [] == FundRows(s, f);
  }

  /** The output rows of fund f, in output order. */
  function FundRecords(r: seq<Record>, f: int): seq<Record>
  {
    if r == [] then []
    else
      var last := r[|r| - 1];
      FundRecords(r[..|r| - 1], f) + (if last.fundId == f then [last] else [])
  }

  lemma FundRecordsSnoc(r: seq<Record>, q: Record, f: int)
    ensures q.fundId == f ==> FundRecords(r + [q], f) == FundRecords(r, f) + [q]
    ensures q.fundId != f ==> FundRecords(r + [q], f) == FundRecords(r, f)
  {
    assert (r + [q])[..|r|] == r;
    assert FundRecords(r, f) + [] == FundRecords(r, f);
  }

  /** A permutation of the table keeps the row-wise preconditions. */
  lemma PermutationKeeps(a: seq<Obs>, b: seq<Obs>, start: real)
    requires multiset(a) == multiset(b)
    ensures ValidMonths(a) ==> ValidMonths(b)
    ensures NonZeroPrices(a, start) ==> NonZeroPrices(b, start)
  {
    forall i | 0 <= i < |b|
      ensures exists k :: 0 <= k < |a| && a[k] == b[i]
    {
      assert b[i] in multiset(b);
      assert b[i] in a;
    }
  }
}
