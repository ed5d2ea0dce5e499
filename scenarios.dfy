/**
 * Worked examples: small tables with the output the metric computation
 * reports for them, starting from a price of 1000.
 */
module Scenarios {
  import opened Funds
  import opened Sorting
  import opened Rounding
  import opened Performance
  import opened RunningProducts

  /** The output of a two-row table in its current order. */
  lemma TwoRowReport(a: Obs, b: Obs, start: real)
    requires NonZeroPrices([a, b], start)
    ensures NonZeroPrices([] + [a], start) && NonZeroPrices([a] + [b], start)
    ensures Report([a, b], start) == [RowRecord([], a, start), RowRecord([a], b, start)]
  {
    assert [a, b][..1] == [a] && [a][..0] == [] && [] + [a] == [a] && [a] + [b] == [a, b];
  }

  /** The output for rows whose sorted order is [a, b]. */
  lemma TwoRowMetrics(rows: seq<Obs>, a: Obs, b: Obs, start: real)
    requires NonZeroPrices(rows, start) && NonZeroPrices([a, b], start)
    requires SortRows(rows) == [a, b]
    ensures NonZeroPrices([] + [a], start) && NonZeroPrices([a] + [b], start)
    ensures Metrics(rows, start) == [RowRecord([], a, start), RowRecord([a], b, start)]
  {
    TwoRowReport(a, b, start);
  }

  /** The output rows of a fund's first two months, both with price and
      dividend: the first month's factor alone, then both factors for the
      life-to-date product and, if the year changed, the second factor alone
      for the year-to-date product. */
  lemma OneFundTwoRows(a: Obs, b: Obs, start: real)
    requires NonZeroPrices([a, b], start) && a.fundId == b.fundId
    requires a.price.Some? && a.dividend.Some? && b.price.Some? && b.dividend.Some?
    ensures NonZeroPrices([] + [a], start) && NonZeroPrices([a] + [b], start)
    ensures a.price.value != 0.0
    ensures var fa := 1.0 + Return(a.price.value, a.dividend.value, start);
      RowRecord([], a, start) ==
      OutputRow(a, Some(Return(a.price.value, a.dividend.value, start)), Mult([fa]), Mult([fa]))
    ensures var fa := 1.0 + Return(a.price.value, a.dividend.value, start);
      var fb := 1.0 + Return(b.price.value, b.dividend.value, a.price.value);
      var rb := Some(Return(b.price.value, b.dividend.value, a.price.value));
      RowRecord([a], b, start) ==
      if a.year == b.year then OutputRow(b, rb, Mult([fa, fb]), Mult([fa, fb]))
      else OutputRow(b, rb, Mult([fa, fb]), Mult([fb]))
  {
    assert [a, b][0] == a;
    assert [a, b][..1] == [a] && [a][..0] == [] && [] + [a] == [a] && [a] + [b] == [a, b];
    var fa := 1.0 + Return(a.price.value, a.dividend.value, start);
    var fb := 1.0 + Return(b.price.value, b.dividend.value, a.price.value);
    assert PastPrice([a], b.fundId, start) == a.price.value;
    assert Factors([a], start) == [fa];
    assert Factors([a, b], start) == [fa, fb];
    assert GroupFactors([a], [fa], ByFund(a.fundId)) == [fa];
    assert GroupFactors([a], [fa], ByFundYear(a.fundId, a.year)) == [fa];
    assert [fa, fb][..1] == [fa];
    assert GroupFactors([a, b], [fa, fb], ByFund(b.fundId)) == [fa, fb];
    assert GroupFactors([a, b], [fa, fb], ByFundYear(b.fundId, b.year)) ==
           if a.year == b.year then [fa, fb] else [fb];
  }

  // -------------------------------------------------------------------
  // Two months of one fund in one year: a month at 1050 after a dividend
  // of 10, then a month from 1050 to 1100.

  /** The percentages the two months report, rounded half to even. */
  lemma TwoMonthsPercentages()
    ensures Pct(0.04) == 4.0
    ensures Pct(1.0 / 21.0) == 4.76
    ensures Pct(572.0 / 525.0 - 1.0) == 8.95
  {
    Round2Exact(400);
    assert RoundHalfEven(10000.0 / 21.0) == 476;
    assert RoundHalfEven(4700.0 / 525.0 * 100.0) == 895;
  }

  /** The two output rows: 4% in January; 1100 / 1050 - 1 = 1/21 in
      February, compounded with January's 1.04 for both products. */
  lemma TwoMonthsRows(jan: Obs, feb: Obs)
    requires jan == Obs(1, 2023, 1, Some(1050.0), Some(10.0))
    requires feb == Obs(1, 2023, 2, Some(1100.0), Some(0.0))
    ensures NonZeroPrices([] + [jan], 1000.0) && NonZeroPrices([jan] + [feb], 1000.0)
    ensures RowRecord([], jan, 1000.0) == Record(1, 2023, 1, 1050.0, 10.0, 4.0, 4.0, 4.0)
    ensures RowRecord([jan], feb, 1000.0) == Record(1, 2023, 2, 1100.0, 0.0, 4.76, 8.95, 8.95)
  {
    OneFundTwoRows(jan, feb, 1000.0);
    assert Return(1050.0, 10.0, 1000.0) == 0.04;
    assert Return(1100.0, 0.0, 1050.0) == 1.0 / 21.0;
    MultSingle(1.04);
    MultPair(1.04, 22.0 / 21.0);
    TwoMonthsPercentages();
  }

  /** The whole output for the two months, which are already in order. */
  lemma TwoMonthsReport(jan: Obs, feb: Obs)
    requires jan == Obs(1, 2023, 1, Some(1050.0), Some(10.0))
    requires feb == Obs(1, 2023, 2, Some(1100.0), Some(0.0))
    ensures NonZeroPrices([jan, feb], 1000.0)
    ensures Metrics([jan, feb], 1000.0) ==
            [Record(1, 2023, 1, 1050.0, 10.0, 4.0, 4.0, 4.0),
             Record(1, 2023, 2, 1100.0, 0.0, 4.76, 8.95, 8.95)]
  {
    SortIsCanonical([jan, feb], [jan, feb]);
    TwoRowMetrics([jan, feb], jan, feb, 1000.0);
    TwoMonthsRows(jan, feb);
  }

  // -------------------------------------------------------------------
  // A fund across a year end, each month up 10%.

  /** The table listed as January 2023 then December 2022 sorts December
      first. */
  lemma YearEndSorted(dec: Obs, jan: Obs)
    requires dec == Obs(7, 2022, 12, Some(1100.0), Some(0.0))
    requires jan == Obs(7, 2023, 1, Some(1210.0), Some(0.0))
    ensures SortRows([jan, dec]) == [dec, jan]
  {
    assert multiset([dec, jan]) == multiset([jan, dec]);
    SortIsCanonical([jan, dec], [dec, jan]);
  }

  lemma YearEndPercentages()
    ensures Pct(0.1) == 10.0 && Pct(1.21 - 1.0) == 21.0
  {
    Round2Exact(1000);
    Round2Exact(2100);
  }

  /** The two output rows in date order: December up 10% on every measure;
      January up 10% from 1100, with the life-to-date product carrying
      December's factor and the year-to-date product starting again. */
  lemma YearEndRows(dec: Obs, jan: Obs)
    requires dec == Obs(7, 2022, 12, Some(1100.0), Some(0.0))
    requires jan == Obs(7, 2023, 1, Some(1210.0), Some(0.0))
    ensures NonZeroPrices([] + [dec], 1000.0) && NonZeroPrices([dec] + [jan], 1000.0)
    ensures RowRecord([], dec, 1000.0) == Record(7, 2022, 12, 1100.0, 0.0, 10.0, 10.0, 10.0)
    ensures RowRecord([dec], jan, 1000.0) == Record(7, 2023, 1, 1210.0, 0.0, 10.0, 21.0, 10.0)
  {
    OneFundTwoRows(dec, jan, 1000.0);
    assert Return(1100.0, 0.0, 1000.0) == 0.1;
    assert Return(1210.0, 0.0, 1100.0) == 0.1;
    MultSingle(1.1);
    MultPair(1.1, 1.1);
    YearEndPercentages();
    assert RowRecord([dec], jan, 1000.0) == OutputRow(jan, Some(0.1), 1.21, 1.1);
  }

  /** The whole output: sorted by date, the year-to-date return restarting
      in January while the life-to-date return compounds. */
  lemma YearEndReport(dec: Obs, jan: Obs)
    requires dec == Obs(7, 2022, 12, Some(1100.0), Some(0.0))
    requires jan == Obs(7, 2023, 1, Some(1210.0), Some(0.0))
    ensures NonZeroPrices([jan, dec], 1000.0)
    ensures Metrics([jan, dec], 1000.0) ==
            [Record(7, 2022, 12, 1100.0, 0.0, 10.0, 10.0, 10.0),
             Record(7, 2023, 1, 1210.0, 0.0, 10.0, 21.0, 10.0)]
  {
    YearEndSorted(dec, jan);
    TwoRowMetrics([jan, dec], dec, jan, 1000.0);
    YearEndRows(dec, jan);
  }
}
