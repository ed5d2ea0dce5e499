/**
 * The performance metrics as the table operations define them. Each value
 * of a row is a function of that row and the rows before it, the way the
 * grouped shift and the grouped cumulative products read the table; none
 * of these definitions assumes the table is sorted.
 */
module Performance {
  import opened Funds
  import opened Sorting
  import opened Rounding

  /** The price of the last row of fund f in t (the grouped shift), with a
      missing one replaced by the starting price: either no row of f comes
      before, or that row's price cell is empty. */
  function PastPrice(t: seq<Obs>, f: int, start: real): (p: real)
    ensures (forall k :: 0 <= k < |t| ==> t[k].fundId != f) ==> p == start
    ensures p == start || exists k :: 0 <= k < |t| && t[k].fundId == f && t[k].price == Some(p)
    decreases |t|
  {
    if t == [] then start
    else if t[|t| - 1].fundId == f then t[|t| - 1].price.GetOr(start)
    else
      var p := PastPrice(t[..|t| - 1], f, start);
      assert forall k :: 0 <= k < |t| - 1 ==> t[..|t| - 1][k] == t[k];
      p
  }

  /** The prior price is the price of the last row of fund f, whatever the
      order of the table. */
  lemma {:induction false} PastPriceIsLastOwnRow(t: seq<Obs>, f: int, k: nat, start: real)
    requires k < |t| && t[k].fundId == f
    requires forall m :: k < m < |t| ==> t[m].fundId != f
    ensures PastPrice(t, f, start) == t[k].price.GetOr(start)
    decreases |t|
  {
    if k < |t| - 1 {
      PastPriceIsLastOwnRow(t[..|t| - 1], f, k, start);
    }
  }

  /** The prior price is never zero when no price is. */
  lemma PastPriceNonZero(t: seq<Obs>, f: int, start: real)
    requires NonZeroPrices(t, start)
    ensures PastPrice(t, f, start) != 0.0
  {
    var p := PastPrice(t, f, start);
    if p != start {
      var k :| 0 <= k < |t| && t[k].fundId == f && t[k].price == Some(p);
      assert t[k].price.Some?;
    }
  }

  /** The return of a month that ends at price after paying dividend, over
      a month that started at prior. */
  function Return(price: real, dividend: real, prior: real): real
    requires prior != 0.0
  {
    (price - dividend) / prior - 1.0
  }

  /** The return is what turns the prior price into the month's price net
      of dividend: prior * (1 + return) == price - dividend. */
  lemma ReturnGrowsPrior(price: real, dividend: real, prior: real)
    requires prior != 0.0
    ensures prior * (1.0 + Return(price, dividend, prior)) == price - dividend
  {
    var q := (price - dividend) / prior;
    assert 1.0 + Return(price, dividend, prior) == q;
  }

  /** The base monthly return of row x after the rows t, from the fund's
      prior price; None (NaN) when price or dividend is missing. */
  function Base(t: seq<Obs>, x: Obs, start: real): (r: Option<real>)
    requires NonZeroPrices(t, start)
    ensures r.None? <==> x.price.None? || x.dividend.None?
  {
    if x.price.Some? && x.dividend.Some? then
      PastPriceNonZero(t, x.fundId, start);
      Some(Return(x.price.value, x.dividend.value, PastPrice(t, x.fundId, start)))
    else None
  }

  /** The return factor 1 + base that the cumulative products multiply; a
      missing base is skipped, which is multiplying by 1. */
  function Factor(t: seq<Obs>, x: Obs, start: real): real
    requires NonZeroPrices(t, start)
  {
    match Base(t, x, start)
    case Some(b) => 1.0 + b
    case None => 1.0
  }

  /** The return-factor column (the cumulative_return_factor column with a
      missing value skipped): entry i is the factor of row i after the rows
      before it. */
  function Factors(t: seq<Obs>, start: real): (fs: seq<real>)
    requires NonZeroPrices(t, start)
    ensures |fs| == |t|
    decreases |t|
  {
    if t == [] then []
    else
      var k := |t| - 1;
      assert forall j :: 0 <= j < k ==> t[..k][j] == t[j];
      Factors(t[..k], start) + [Factor(t[..k], t[k], start)]
  }

  /** The two groupings of the cumulative products: by fund (life to date)
      and by fund and year (year to date). */
  datatype Group = ByFund(fund: int) | ByFundYear(fund: int, year: int)

  predicate InGroup(x: Obs, g: Group) {
    x.fundId == g.fund && (g.ByFundYear? ==> x.year == g.year)
  }

  /** The entries of column fs on the rows of t in group g, in table order:
      what the grouping hands to the cumulative product. */
  function GroupFactors(t: seq<Obs>, fs: seq<real>, g: Group): (c: seq<real>)
    requires |fs| == |t|
    ensures |c| <= |t|
    decreases |t|
  {
    if t == [] then []
    else
      var k := |t| - 1;
      GroupFactors(t[..k], fs[..k], g) + (if InGroup(t[k], g) then [fs[k]] else [])
  }

  /** The product of a list of factors. */
  function Mult(xs: seq<real>): real
    decreases |xs|
  {
    if xs == [] then 1.0 else Mult(xs[..|xs| - 1]) * xs[|xs| - 1]
  }

  /** The grouped cumulative product at the last row of t: the product of the
      return factors of all rows of t in group g, that row included. */
  function CumProd(t: seq<Obs>, g: Group, start: real): real
    requires NonZeroPrices(t, start)
  {
    Mult(GroupFactors(t, Factors(t, start), g))
  }

  /** The pass-through columns of an output row, with an empty price or
      dividend cell reported as 0. */
  predicate Carries(r: Record, x: Obs) {
    r.fundId == x.fundId && r.year == x.year && r.month == x.month &&
    r.price == x.price.GetOr(0.0) && r.dividend == x.dividend.GetOr(0.0)
  }

  /** The output row of x given its base return and its two cumulative
      products. A missing base makes all three percentages missing, and
      missing values are reported as 0. */
  function OutputRow(x: Obs, base: Option<real>, ltd: real, ytd: real): (r: Record)
    ensures Carries(r, x)
  {
    match base
    case None =>
      Record(x.fundId, x.year, x.month, x.price.GetOr(0.0), x.dividend.GetOr(0.0), 0.0, 0.0, 0.0)
    case Some(b) =>
      Record(x.fundId, x.year, x.month, x.price.GetOr(0.0), x.dividend.GetOr(0.0),
             Pct(b), Pct(ltd - 1.0), Pct(ytd - 1.0))
  }

  /** The output row of x after the rows t. */
  function RowRecord(t: seq<Obs>, x: Obs, start: real): (r: Record)
    requires NonZeroPrices(t + [x], start)
    ensures Carries(r, x)
  {
    assert NonZeroPrices(t, start) by { assert forall j :: 0 <= j < |t| ==> (t + [x])[j] == t[j]; }
    OutputRow(x, Base(t, x, start),
              CumProd(t + [x], ByFund(x.fundId), start),
              CumProd(t + [x], ByFundYear(x.fundId, x.year), start))
  }

  /** The output table for a table s in its current order: one row per row. */
  function Report(s: seq<Obs>, start: real): (r: seq<Record>)
    requires NonZeroPrices(s, start)
    ensures |r| == |s|
    ensures forall i :: 0 <= i < |s| ==> Carries(r[i], s[i])
    decreases |s|
  {
    if s == [] then []
    else
      var k := |s| - 1;
      assert s[..k] + [s[k]] == s;
      Report(s[..k], start) + [RowRecord(s[..k], s[k], start)]
  }

  /** The metric computation: sort by fund and date, then one output row per
      row in that order. */
  function Metrics(rows: seq<Obs>, start: real): (r: seq<Record>)
    requires NonZeroPrices(rows, start)
    ensures |r| == |rows|
    ensures forall i :: 0 <= i < |r| ==> Carries(r[i], SortRows(rows)[i])
    ensures forall i, j :: 0 <= i < j < |r| ==>
              r[i].fundId < r[j].fundId ||
              (r[i].fundId == r[j].fundId &&
               MonthIndex(r[i].year, r[i].month) <= MonthIndex(r[j].year, r[j].month))
  {
    var s := SortRows(rows);
    PermutationKeeps(rows, s, start);
    assert |s| == |multiset(s)| == |multiset(rows)| == |rows|;
    Report(s, start)
  }
}
