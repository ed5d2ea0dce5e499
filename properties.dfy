/**
 * What the metric definitions promise: each fund's metrics are computed
 * from its own rows only, the reported percentages are the rounded base
 * return and the rounded cumulative products of the sorted table, and the
 * cumulative products obey the identities the return arithmetic implies.
 * Ratio, PriceRatio and MultSnocPair wrap quotients and products in
 * functions so that the telescoping proof can match them by their
 * arguments, which the solver does not do inside a nonlinear term.
 */
module MetricProperties {
  import opened Funds
  import opened Sorting
  import opened Rounding
  import opened Performance
  import opened RunningProducts

  // ---------------------------------------------------------------------
  // Reading the tables row by row

  lemma NonZeroPrefix(s: seq<Obs>, n: nat, start: real)
    requires NonZeroPrices(s, start) && n <= |s|
    ensures NonZeroPrices(s[..n], start)
  {
    assert forall j :: 0 <= j < n ==> s[..n][j] == s[j];
  }

  lemma FactorsSnoc(t: seq<Obs>, y: Obs, start: real)
    requires NonZeroPrices(t + [y], start)
    ensures NonZeroPrices(t, start)
    ensures Factors(t + [y], start) == Factors(t, start) + [Factor(t, y, start)]
  {
    assert (t + [y])[..|t|] == t;
  }

  /** The factor column of a prefix of the table is that prefix of the
      table's factor column: a row's factor depends on earlier rows only. */
  lemma {:induction false} FactorsPrefix(s: seq<Obs>, n: nat, start: real)
    requires NonZeroPrices(s, start) && n <= |s|
    ensures NonZeroPrices(s[..n], start)
    ensures Factors(s[..n], start) == Factors(s, start)[..n]
    decreases |s|
  {
    NonZeroPrefix(s, n, start);
    if n < |s| {
      var k := |s| - 1;
      assert s == s[..k] + [s[k]];
      FactorsSnoc(s[..k], s[k], start);
      FactorsPrefix(s[..k], n, start);
      assert s[..k][..n] == s[..n];
    } else {
      assert s[..n] == s;
    }
  }

  /** Entry i of the factor column is the factor of row i after the rows
      before it. */
  lemma FactorAt(s: seq<Obs>, i: nat, start: real)
    requires NonZeroPrices(s, start) && i < |s|
    ensures NonZeroPrices(s[..i], start)
    ensures Factors(s, start)[i] == Factor(s[..i], s[i], start)
  {
    FactorsPrefix(s, i + 1, start);
    assert s[..i + 1] == s[..i] + [s[i]];
    FactorsSnoc(s[..i], s[i], start);
  }

  /** The cumulative products reported on row i are the life-to-date and
      year-to-date products of the factor column at row i. */
  lemma CumProdAt(s: seq<Obs>, i: nat, start: real)
    requires NonZeroPrices(s, start) && i < |s|
    ensures NonZeroPrices(s[..i] + [s[i]], start)
    ensures CumProd(s[..i] + [s[i]], ByFund(s[i].fundId), start) == Ltd(s, Factors(s, start), i)
    ensures CumProd(s[..i] + [s[i]], ByFundYear(s[i].fundId, s[i].year), start) ==
            Ytd(s, Factors(s, start), i)
  {
    assert s[..i] + [s[i]] == s[..i + 1];
    FactorsPrefix(s, i + 1, start);
  }

  lemma ReportSnoc(s: seq<Obs>, x: Obs, start: real)
    requires NonZeroPrices(s + [x], start)
    ensures NonZeroPrices(s, start)
    ensures Report(s + [x], start) == Report(s, start) + [RowRecord(s, x, start)]
  {
    assert (s + [x])[..|s|] == s;
  }

  /** Output row i is the row of s[i] computed from the rows before it. */
  lemma {:induction false} ReportAt(s: seq<Obs>, i: nat, start: real)
    requires NonZeroPrices(s, start) && i < |s|
    ensures NonZeroPrices(s[..i] + [s[i]], start)
    ensures Report(s, start)[i] == RowRecord(s[..i], s[i], start)
    decreases |s|
  {
    assert s[..i] + [s[i]] == s[..i + 1];
    NonZeroPrefix(s, i + 1, start);
    var n := |s| - 1;
    assert s[..n] + [s[n]] == s;
    ReportSnoc(s[..n], s[n], start);
    if i < n {
      ReportAt(s[..n], i, start);
      assert s[..n][..i] == s[..i] && s[..n][i] == s[i];
    }
  }

  /** The percentages of output row i: a missing base return reports all
      three as 0; otherwise they are the rounded base return and the rounded
      life-to-date and year-to-date products minus one, computed from the
      unrounded factors. */
  lemma ReportRow(s: seq<Obs>, i: nat, start: real)
    requires NonZeroPrices(s, start) && i < |s|
    ensures NonZeroPrices(s[..i], start)
    ensures Base(s[..i], s[i], start).None? ==>
              Report(s, start)[i].basePct == 0.0 &&
              Report(s, start)[i].ltdPct == 0.0 &&
              Report(s, start)[i].ytdPct == 0.0
    ensures Base(s[..i], s[i], start).Some? ==>
              Report(s, start)[i].basePct == Pct(Base(s[..i], s[i], start).value) &&
              Report(s, start)[i].ltdPct == Pct(Ltd(s, Factors(s, start), i) - 1.0) &&
              Report(s, start)[i].ytdPct == Pct(Ytd(s, Factors(s, start), i) - 1.0)
  {
    NonZeroPrefix(s, i, start);
    ReportAt(s, i, start);
    CumProdAt(s, i, start);
  }

  // ---------------------------------------------------------------------
  // Fund isolation

  lemma NonZeroFundRows(t: seq<Obs>, f: int, start: real)
    requires NonZeroPrices(t, start)
    ensures NonZeroPrices(FundRows(t, f), start)
  {
    var fr := FundRows(t, f);
    FundRowsMembers(t, f);
    forall i | 0 <= i < |fr| && fr[i].price.Some? ensures fr[i].price.value != 0.0 {
      assert fr[i] in fr;
    }
  }

  /** The prior price of fund f is found among the rows of fund f. */
  lemma {:induction false} PastPriceOwnRows(t: seq<Obs>, f: int, start: real)
    ensures PastPrice(FundRows(t, f), f, start) == PastPrice(t, f, start)
    decreases |t|
  {
    if t != [] {
      var t', y := t[..|t| - 1], t[|t| - 1];
      assert t == t' + [y];
      PastPriceOwnRows(t', f, start);
      FundRowsSnoc(t', y, f);
      if y.fundId == f {
        assert (FundRows(t', f) + [y])[..|FundRows(t', f)|] == FundRows(t', f);
      }
    }
  }

  /** A row's base return, and so its factor, depends on the earlier rows
      only through its prior price. */
  lemma BaseOfPastPrice(t1: seq<Obs>, t2: seq<Obs>, y: Obs, start: real)
    requires NonZeroPrices(t1, start) && NonZeroPrices(t2, start)
    requires PastPrice(t1, y.fundId, start) == PastPrice(t2, y.fundId, start)
    ensures Base(t1, y, start) == Base(t2, y, start)
    ensures Factor(t1, y, start) == Factor(t2, y, start)
  {
  }

  /** The factor column of fund f's rows alone is the fund's part of the
      factor column of the whole table. */
  lemma {:induction false} FactorsOwnRows(t: seq<Obs>, f: int, start: real)
    requires NonZeroPrices(t, start)
    ensures NonZeroPrices(FundRows(t, f), start)
    ensures Factors(FundRows(t, f), start) == FundColumn(t, Factors(t, start), f)
    decreases |t|
  {
    NonZeroFundRows(t, f, start);
    if t != [] {
      var t', y := t[..|t| - 1], t[|t| - 1];
      assert t == t' + [y];
      FactorsSnoc(t', y, start);
      FactorsOwnRows(t', f, start);
      FundColumnSnoc(t', Factors(t', start), y, Factor(t', y, start), f);
      FundRowsSnoc(t', y, f);
      if y.fundId == f {
        var fr' := FundRows(t', f);
        FactorsSnoc(fr', y, start);
        PastPriceOwnRows(t', f, start);
        BaseOfPastPrice(fr', t', y, start);
      }
    }
  }

  /** The cumulative products of a group of fund f are products over the
      rows of fund f alone. */
  lemma CumProdOwnRows(t: seq<Obs>, g: Group, start: real)
    requires NonZeroPrices(t, start)
    ensures NonZeroPrices(FundRows(t, g.fund), start)
    ensures CumProd(FundRows(t, g.fund), g, start) == CumProd(t, g, start)
  {
    FactorsOwnRows(t, g.fund, start);
    GroupFactorsOwnRows(t, Factors(t, start), g);
  }

  /** An output row depends on the earlier rows only through the base
      return and the two cumulative products. */
  lemma RowRecordOfParts(t1: seq<Obs>, t2: seq<Obs>, x: Obs, start: real)
    requires NonZeroPrices(t1, start) && NonZeroPrices(t2, start)
    requires NonZeroPrices(t1 + [x], start) && NonZeroPrices(t2 + [x], start)
    requires Base(t1, x, start) == Base(t2, x, start)
    requires CumProd(t1 + [x], ByFund(x.fundId), start) == CumProd(t2 + [x], ByFund(x.fundId), start)
    requires CumProd(t1 + [x], ByFundYear(x.fundId, x.year), start) ==
             CumProd(t2 + [x], ByFundYear(x.fundId, x.year), start)
    ensures RowRecord(t1, x, start) == RowRecord(t2, x, start)
  {
  }

  /** The output row of x computed after fund x's own rows is the one computed
      after the whole table. */
  lemma RowRecordOwnRows(t: seq<Obs>, x: Obs, start: real)
    requires NonZeroPrices(t + [x], start)
    ensures NonZeroPrices(FundRows(t, x.fundId) + [x], start)
    ensures RowRecord(FundRows(t, x.fundId), x, start) == RowRecord(t, x, start)
  {
    var f := x.fundId;
    FundRowsSnoc(t, x, f);
    NonZeroFundRows(t + [x], f, start);
    NonZeroPrefix(t + [x], |t|, start);
    assert (t + [x])[..|t|] == t;
    NonZeroFundRows(t, f, start);
    PastPriceOwnRows(t, f, start);
    BaseOfPastPrice(FundRows(t, f), t, x, start);
    CumProdOwnRows(t + [x], ByFund(f), start);
    CumProdOwnRows(t + [x], ByFundYear(f, x.year), start);
    RowRecordOfParts(FundRows(t, f), t, x, start);
  }

  /** The output rows of fund f are the output computed from fund f's rows
      alone: rows of other funds never change them. */
  lemma {:induction false} FundIsolation(s: seq<Obs>, f: int, start: real)
    requires NonZeroPrices(s, start)
    ensures NonZeroPrices(FundRows(s, f), start)
    ensures FundRecords(Report(s, start), f) == Report(FundRows(s, f), start)
    decreases |s|
  {
    NonZeroFundRows(s, f, start);
    if s != [] {
      var s', x := s[..|s| - 1], s[|s| - 1];
      assert s == s' + [x];
      ReportSnoc(s', x, start);
      FundIsolation(s', f, start);
      FundRowsSnoc(s', x, f);
      var rec := RowRecord(s', x, start);
      FundRecordsSnoc(Report(s', start), rec, f);
      if x.fundId == f {
        RowRecordOwnRows(s', x, start);
        ReportSnoc(FundRows(s', f), x, start);
      }
    }
  }

  /** The same after sorting: the metric computation on the whole table,
      restricted to fund f, is the metric computation on fund f's rows. */
  lemma MetricsIsolation(rows: seq<Obs>, f: int, start: real)
    requires NonZeroPrices(rows, start)
    ensures NonZeroPrices(FundRows(rows, f), start)
    ensures FundRecords(Metrics(rows, start), f) == Metrics(FundRows(rows, f), start)
  {
    NonZeroFundRows(rows, f, start);
    var s := SortRows(rows);
    PermutationKeeps(rows, s, start);
    FundIsolation(s, f, start);
    FundRowsOfSort(rows, f);
  }

  /** Adding or removing rows of other funds leaves fund f's output alone. */
  lemma OtherFundsIrrelevant(a: seq<Obs>, b: seq<Obs>, f: int, start: real)
    requires NonZeroPrices(a, start) && NonZeroPrices(b, start)
    requires FundRows(a, f) == FundRows(b, f)
    ensures FundRecords(Metrics(a, start), f) == FundRecords(Metrics(b, start), f)
  {
    MetricsIsolation(a, f, start);
    MetricsIsolation(b, f, start);
  }

  // ---------------------------------------------------------------------
  // Identities that hold in any order

  /** A row appends its factor to the factors of its own groups and leaves
      every other group's product alone. */
  lemma CumProdSnoc(t: seq<Obs>, y: Obs, g: Group, start: real)
    requires NonZeroPrices(t + [y], start)
    ensures NonZeroPrices(t, start)
    ensures InGroup(y, g) ==>
              CumProd(t + [y], g, start) ==
              Mult(GroupFactors(t, Factors(t, start), g) + [Factor(t, y, start)])
    ensures !InGroup(y, g) ==> CumProd(t + [y], g, start) == CumProd(t, g, start)
  {
    FactorsSnoc(t, y, start);
    GroupFactorsSnoc(t, Factors(t, start), y, Factor(t, y, start), g);
  }

  /** A fund whose first row is priced at the starting price with no dividend
      reports a flat first month: base, life-to-date and year-to-date all 0. */
  lemma FirstRowAtStartIsFlat(t: seq<Obs>, x: Obs, start: real)
    requires NonZeroPrices(t + [x], start)
    requires forall k :: 0 <= k < |t| ==> t[k].fundId != x.fundId
    requires x.price == Some(start) && x.dividend == Some(0.0)
    ensures RowRecord(t, x, start).basePct == 0.0
    ensures RowRecord(t, x, start).ltdPct == 0.0
    ensures RowRecord(t, x, start).ytdPct == 0.0
  {
    var f := x.fundId;
    CumProdSnoc(t, x, ByFund(f), start);
    CumProdSnoc(t, x, ByFundYear(f, x.year), start);
    assert PastPrice(t, f, start) == start;
    FlatReturn(start);
    assert Factor(t, x, start) == 1.0;
    GroupFactorsOfNoRows(t, Factors(t, start), ByFund(f));
    GroupFactorsOfNoRows(t, Factors(t, start), ByFundYear(f, x.year));
    assert [] + [1.0] == [1.0];
    MultSingle(1.0);
    Round2Exact(0);
  }

  lemma FlatReturn(p: real)
    requires p != 0.0
    ensures Return(p, 0.0, p) == 0.0
  {
    assert (p - 0.0) / p == 1.0;
  }

  /** When all of fund f's rows before and at x fall in x's year, the row of
      x reports the same year-to-date and life-to-date returns. */
  lemma SingleYearRow(t: seq<Obs>, x: Obs, start: real)
    requires NonZeroPrices(t + [x], start)
    requires forall k :: 0 <= k < |t| && t[k].fundId == x.fundId ==> t[k].year == x.year
    ensures RowRecord(t, x, start).ytdPct == RowRecord(t, x, start).ltdPct
  {
    var u := t + [x];
    assert forall k :: 0 <= k < |u| && u[k].fundId == x.fundId ==> u[k].year == x.year by {
      assert forall k :: 0 <= k < |t| ==> u[k] == t[k];
    }
    SingleYearFactors(u, Factors(u, start), x.fundId, x.year);
  }

  /** When all of a fund's rows fall in one year, its reported year-to-date
      return equals its life-to-date return on every row. */
  lemma SingleYearFund(s: seq<Obs>, f: int, y: int, start: real)
    requires NonZeroPrices(s, start)
    requires forall k :: 0 <= k < |s| && s[k].fundId == f ==> s[k].year == y
    ensures forall i :: 0 <= i < |s| && s[i].fundId == f ==>
              Report(s, start)[i].ytdPct == Report(s, start)[i].ltdPct
  {
    forall i | 0 <= i < |s| && s[i].fundId == f
      ensures Report(s, start)[i].ytdPct == Report(s, start)[i].ltdPct
    {
      ReportAt(s, i, start);
      assert forall k :: 0 <= k < i ==> s[..i][k] == s[k];
      SingleYearRow(s[..i], s[i], start);
    }
  }

  /** A price relative to a reference price. */
  function Ratio(p: real, q: real): real
    requires q != 0.0
  {
    p / q
  }

  /** The latest price of fund f relative to the starting price. */
  function PriceRatio(t: seq<Obs>, f: int, start: real): real
    requires start != 0.0
  {
    Ratio(PastPrice(t, f, start), start)
  }

  /** Growing from price a to price b without dividend multiplies the ratio
      to the starting price c by b / a. */
  lemma Telescope(a: real, b: real, c: real)
    requires a != 0.0 && c != 0.0
    ensures Mult([Ratio(a, c), 1.0 + Return(b, 0.0, a)]) == Ratio(b, c)
  {
    var q := b / a;
    var u := a / c;
    assert 1.0 + Return(b, 0.0, a) == q;
    assert a * q == b;
    assert u * c == a;
    assert (u * q) * c == b by {
      assert (u * q) * c == (u * c) * q;
    }
    MultPair(u, q);
  }

  lemma MultSnocPair(xs: seq<real>, v: real)
    ensures Mult(xs + [v]) == Mult([Mult(xs), v])
  {
    MultSnoc(xs, v);
    MultPair(Mult(xs), v);
  }

  /** One more priced row without dividend carries the telescoped product
      along with the price. */
  lemma TelescopeStep(t: seq<Obs>, y: Obs, start: real)
    requires NonZeroPrices(t, start) && NonZeroPrices(t + [y], start)
    requires y.price.Some? && y.dividend == Some(0.0)
    requires CumProd(t, ByFund(y.fundId), start) == PriceRatio(t, y.fundId, start)
    ensures CumProd(t + [y], ByFund(y.fundId), start) == PriceRatio(t + [y], y.fundId, start)
  {
    var f := y.fundId;
    CumProdSnoc(t, y, ByFund(f), start);
    MultSnocPair(GroupFactors(t, Factors(t, start), ByFund(f)), Factor(t, y, start));
    PastPriceNonZero(t, f, start);
    assert PastPrice(t + [y], f, start) == y.price.value;
    Telescope(PastPrice(t, f, start), y.price.value, start);
  }

  /** Without dividends or empty price cells, the life-to-date product of a
      fund telescopes to its latest price over the starting price. */
  lemma {:induction false} NoDividendTelescopes(t: seq<Obs>, f: int, start: real)
    requires NonZeroPrices(t, start)
    requires forall k :: 0 <= k < |t| && t[k].fundId == f ==>
               t[k].price.Some? && t[k].dividend == Some(0.0)
    ensures CumProd(t, ByFund(f), start) == PriceRatio(t, f, start)
    decreases |t|
  {
    if t == [] {
      assert start / start == 1.0;
    } else {
      var t', y := t[..|t| - 1], t[|t| - 1];
      assert t == t' + [y];
      NonZeroPrefix(t, |t| - 1, start);
      NoDividendTelescopes(t', f, start);
      CumProdSnoc(t', y, ByFund(f), start);
      if y.fundId == f {
        TelescopeStep(t', y, start);
      } else {
        assert PastPrice(t, f, start) == PastPrice(t', f, start);
      }
    }
  }

  // ---------------------------------------------------------------------
  // On the sorted table

  /** The prior price of a row of the sorted table is the starting price on
      the fund's first row and the previous row's price otherwise (or the
      starting price when that cell is empty), never a price of another fund. */
  lemma PriorPriceInSortedTable(s: seq<Obs>, i: nat, start: real)
    requires Sorted(s) && i < |s|
    ensures FirstOfFund(s, i) ==> PastPrice(s[..i], s[i].fundId, start) == start
    ensures !FirstOfFund(s, i) ==>
              s[i - 1].fundId == s[i].fundId &&
              PastPrice(s[..i], s[i].fundId, start) == s[i - 1].price.GetOr(start)
  {
    if FirstOfFund(s, i) {
      NoEarlierRowOfFund(s, i);
    } else {
      assert s[..i][i - 1] == s[i - 1];
    }
  }

  /** On the first row of a calendar year the reported year-to-date return is
      that month's base return. */
  lemma YtdRestartsEachYear(s: seq<Obs>, i: nat, start: real)
    requires Sorted(s) && ValidMonths(s) && NonZeroPrices(s, start) && i < |s|
    requires FirstOfYear(s, i)
    ensures Report(s, start)[i].ytdPct == Report(s, start)[i].basePct
  {
    ReportRow(s, i, start);
    YtdRecurrence(s, Factors(s, start), i);
    FactorAt(s, i, start);
  }
}
