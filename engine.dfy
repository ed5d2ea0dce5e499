/**
 * The metric computation as the table library performs it: sort the rows by
 * fund and date, then walk them once, carrying the fund's last price, its
 * life-to-date product, the current year and its year-to-date product, and
 * restarting them whenever the fund (or, for the year to date, the year)
 * changes. RunStep and MultSnocStep hold the multiplication of a running
 * step inside a function, so that the solver matches steps by their
 * arguments instead of reasoning about products.
 */
module Engine {
  import opened Funds
  import opened Sorting
  import opened Performance
  import opened RunningProducts
  import opened MetricProperties

  /** One step of a running product that restarts: the factor alone on a
      restart, otherwise the previous product times the factor. */
  function RunStep(prev: real, factor: real, restart: bool): real
  {
    if restart then factor else prev * factor
  }

  lemma MultSnocStep(xs: seq<real>, v: real)
    ensures Mult(xs + [v]) == RunStep(Mult(xs), v, false)
  {
    MultSnoc(xs, v);
  }

  /** On the sorted table the life-to-date product at row i is one running
      step from the product at the previous row. */
  lemma LtdStep(s: seq<Obs>, fs: seq<real>, i: nat, prev: real)
    requires Sorted(s) && |fs| == |s| && i < |s|
    requires !FirstOfFund(s, i) ==> prev == Ltd(s, fs, i - 1)
    ensures RunStep(prev, fs[i], FirstOfFund(s, i)) == Ltd(s, fs, i)
  {
    LtdFactorsStep(s, fs, i);
    if FirstOfFund(s, i) {
      MultSingle(fs[i]);
    } else {
      MultSnocStep(LtdFactors(s, fs, i - 1), fs[i]);
    }
  }

  /** The same for the year-to-date product, which restarts with each year. */
  lemma YtdStep(s: seq<Obs>, fs: seq<real>, i: nat, prev: real)
    requires Sorted(s) && ValidMonths(s) && |fs| == |s| && i < |s|
    requires !FirstOfYear(s, i) ==> prev == Ytd(s, fs, i - 1)
    ensures RunStep(prev, fs[i], FirstOfYear(s, i)) == Ytd(s, fs, i)
  {
    YtdFactorsStep(s, fs, i);
    if FirstOfYear(s, i) {
      MultSingle(fs[i]);
    } else {
      MultSnocStep(YtdFactors(s, fs, i - 1), fs[i]);
    }
  }

  lemma PrefixSnoc<T>(a: seq<T>, i: nat)
    requires i < |a|
    ensures a[..i + 1] == a[..i] + [a[i]]
  {
  }

  /** Everything the pass needs to know about row i of the sorted table: where
      its prior price comes from, and that the two running steps from the
      products at row i - 1 give its cumulative products. */
  lemma RowStep(s: seq<Obs>, i: nat, start: real, ltd: real, ytd: real)
    requires Sorted(s) && ValidMonths(s) && NonZeroPrices(s, start) && i < |s|
    requires !FirstOfFund(s, i) ==> ltd == Ltd(s, Factors(s, start), i - 1)
    requires !FirstOfYear(s, i) ==> ytd == Ytd(s, Factors(s, start), i - 1)
    ensures NonZeroPrices(s[..i], start)
    ensures FirstOfFund(s, i) <==> i == 0 || s[i - 1].fundId != s[i].fundId
    ensures FirstOfYear(s, i) <==> FirstOfFund(s, i) || s[i - 1].year != s[i].year
    ensures PastPrice(s[..i], s[i].fundId, start) ==
            if FirstOfFund(s, i) then start else s[i - 1].price.GetOr(start)
    ensures Factors(s, start)[i] == Factor(s[..i], s[i], start)
    ensures RunStep(ltd, Factors(s, start)[i], FirstOfFund(s, i)) == Ltd(s, Factors(s, start), i)
    ensures RunStep(ytd, Factors(s, start)[i], FirstOfYear(s, i)) == Ytd(s, Factors(s, start), i)
    ensures Report(s, start)[i] ==
            OutputRow(s[i], Base(s[..i], s[i], start),
                      Ltd(s, Factors(s, start), i), Ytd(s, Factors(s, start), i))
  {
    PriorPriceInSortedTable(s, i, start);
    FactorAt(s, i, start);
    LtdStep(s, Factors(s, start), i, ltd);
    YtdStep(s, Factors(s, start), i, ytd);
    CumProdAt(s, i, start);
    ReportAt(s, i, start);
  }

  /** What the pass carries from one row to the next: the fund and year of
      the last row, its price (the next row's prior price within the fund),
      and its life-to-date and year-to-date products. */
  datatype Carry = Carry(fund: int, year: int, lastPrice: real, ltd: real, ytd: real)

  /** c is what the pass carries after the first i rows of the sorted table. */
  predicate After(s: seq<Obs>, start: real, i: nat, c: Carry)
    requires NonZeroPrices(s, start) && i <= |s|
  {
    i > 0 ==>
      c.fund == s[i - 1].fundId && c.year == s[i - 1].year &&
      c.lastPrice == s[i - 1].price.GetOr(start) &&
      c.ltd == Ltd(s, Factors(s, start), i - 1) && c.ytd == Ytd(s, Factors(s, start), i - 1)
  }

  /** One row of the pass: restart on a new fund or year, take the prior
      price, compute the base return and its factor, extend the two running
      products and emit the output row. */
  method Step(s: seq<Obs>, start: real, i: nat, c: Carry) returns (rec: Record, next: Carry)
    requires Sorted(s) && ValidMonths(s) && NonZeroPrices(s, start) && i < |s|
    requires After(s, start, i, c)
    ensures rec == Report(s, start)[i]
    ensures next.fund == s[i].fundId && next.year == s[i].year
    ensures next.lastPrice == s[i].price.GetOr(start)
    ensures next.ltd == Ltd(s, Factors(s, start), i) && next.ytd == Ytd(s, Factors(s, start), i)
  {
    var x := s[i];
    var newFund := i == 0 || x.fundId != c.fund;
    var newYear := newFund || x.year != c.year;
    RowStep(s, i, start, c.ltd, c.ytd);
    assert newFund == FirstOfFund(s, i);
    assert newYear == FirstOfYear(s, i);
    var prior := if newFund then start else c.lastPrice;
    assert prior == PastPrice(s[..i], x.fundId, start);
    var base: Option<real> := None;
    var factor := 1.0;
    if x.price.Some? && x.dividend.Some? {
      var b := Return(x.price.value, x.dividend.value, prior);
      base := Some(b);
      factor := 1.0 + b;
    }
    assert base == Base(s[..i], x, start);
    assert factor == Factors(s, start)[i];
    var ltd := RunStep(c.ltd, factor, newFund);
    var ytd := RunStep(c.ytd, factor, newYear);
    rec := OutputRow(x, base, ltd, ytd);
    next := Carry(x.fundId, x.year, x.price.GetOr(start), ltd, ytd);
  }

  /** The pass over a table already sorted by fund and date. */
  method Pass(s: seq<Obs>, start: real) returns (report: seq<Record>)
    requires Sorted(s) && ValidMonths(s) && NonZeroPrices(s, start)
    ensures report == Report(s, start)
  {
    ghost var expected := Report(s, start);
    var c := Carry(0, 0, start, 1.0, 1.0);
    report := [];
    var i := 0;
    while i < |s|
      invariant 0 <= i <= |s|
      invariant report == expected[..i]
      invariant After(s, start, i, c)
    {
      var rec;
      rec, c := Step(s, start, i, c);
      PrefixSnoc(expected, i);
      report := report + [rec];
      i := i + 1;
    }
  }

  /** The metric computation: sort the rows by fund and date, then make the
      pass; the output is exactly the one the table operations define. */
  method ComputeMetrics(rows: seq<Obs>, start: real) returns (report: seq<Record>)
    requires ValidMonths(rows) && NonZeroPrices(rows, start)
    ensures report == Metrics(rows, start)
  {
    var s := SortRows(rows);
    PermutationKeeps(rows, s, start);
    report := Pass(s, start);
  }
}
