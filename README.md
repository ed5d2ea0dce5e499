# Fund performance metrics

This project models the per-fund return engine of the fund data pipeline in
Dafny. The engine is `metrics` in `script.py`. It takes monthly observations
(fund id, year, month, price per share, dividend per share) and sorts them by
fund and by first-of-month date. For every row it then reports three
percentages, each rounded to two decimals:

- **Base monthly performance.** This is `(price - dividend) / prior - 1`. The
  prior price is the fund's previous row's price. On a fund's first row, or
  when that previous price is empty, the starting price (1000 in `script.py`)
  is used instead.
- **Life-to-date (LTD) performance.** The running product of `1 + base` over
  the fund's rows so far, minus one.
- **Year-to-date (YTD) performance.** The same running product, restarted for
  every (fund, year).

Empty cells are reported as 0.

The model has two layers:

- **The table definitions.** Module `Performance` (`metrics.dfy`) gives, for
  every row, the value the grouped shift and the grouped cumulative products
  produce. Each value is a function of the row and the rows before it. No
  order is assumed.
- **The imperative pass.** Module `Engine` (`engine.dfy`) sorts the rows and
  walks them once. It carries the last fund and year, the last price, and the
  LTD and YTD products, and restarts them when the fund or the year changes.
  `Engine.ComputeMetrics` is proved to produce exactly `Performance.Metrics`.

The other modules are:

- `Funds`: rows, the sort key, row filters.
- `Sorting`: a stable insertion sort and its canonicity.
- `Rounding`: two-decimal rounding, half to even.
- `RunningProducts`: the products and their recurrences.
- `MetricProperties`: properties of the output.
- `Scenarios`: worked examples.

Numbers are exact reals. A cell is `Option<real>`, where `None` is an empty
(NaN) cell. The starting price is a parameter.

Two behaviours of `script.py` are worth stating, because a reader might
expect otherwise:

- One might expect every non-finite value to be reported as 0. Line 68
  replaces only NaN with 0. An infinite return, from a non-zero
  `price - dividend` over a zero prior price, stays infinite. A 0/0 return is
  NaN and is reported as 0.
- One might expect a row with an empty previous price to report 0. Line 51
  fills the empty previous price with the starting price, so the row gets a
  return computed from the starting price.

## Model

| member | source | states |
|---|---|---|
| Funds.MonthIndex | script.py:38 | The first-of-month date of (year, month), counted in months; for a month in 1..12 the year and month are recovered from it, so distinct months get distinct dates |
| Funds.RowLe | script.py:47 | Definition: the sort order, by fund id and then by first-of-month date |
| Funds.Sorted | script.py:47 | Definition: every row is ordered before every later row by fund, then date |
| Funds.MonthIndexOrder | script.py:38 | On valid months, the first-of-month date used as the sort key orders rows by (year, month) and is equal exactly when year and month are equal |
| Funds.PermutationKeeps | script.py:47 | Reordering the table keeps valid months and non-zero prices |
| Sorting.Insert | script.py:47 | Inserting a row into a table sorted by (fund, date) gives a sorted table with that row added to the multiset of rows |
| Sorting.SortRows | script.py:47 | The sorted table is ordered by fund, then date, and is a permutation of the input |
| Sorting.SortIsCanonical | script.py:47 | With valid months and at most one row per fund and month, every sorted permutation of the rows equals SortRows, so the order does not depend on the sort algorithm |
| Sorting.SortedPermutationsAgree | script.py:47 | With valid months, two sorted permutations of the same rows with at most one row per fund and month are equal |
| Sorting.FundRowsOfSort | script.py:47 | One fund's rows in the sorted table are that fund's rows sorted |
| Sorting.SortedFundRows | script.py:47 | One fund's rows of a sorted table are sorted |
| Performance.PastPrice | script.py:49-51 | The prior price is the starting price when the fund has no earlier row, and otherwise the starting price or a price of an earlier row of the same fund |
| Performance.PastPriceIsLastOwnRow | script.py:49-51 | The prior price is the price of the fund's last earlier row, or the starting price if that cell is empty, whatever the other funds' rows are |
| Performance.PastPriceNonZero | script.py:51-53 | The divisor of the base return is never zero when no price is zero |
| MetricProperties.PriorPriceInSortedTable | script.py:47-51 | In the sorted table, a fund's first row has the starting price as prior price; any other row takes the previous row's price, and that row belongs to the same fund |
| Performance.Return | script.py:53 | Definition: the `bmf` formula, `(price - dividend) / prior - 1` |
| Performance.ReturnGrowsPrior | script.py:53 | The return turns the prior price into the month's price net of dividend: prior times (1 + return) is price minus dividend |
| Performance.Base | script.py:53 | The base return of a row is empty (NaN) exactly when its price or its dividend is empty; otherwise it is the return over the fund's prior price |
| Performance.Factor | script.py:59 | Definition: the `cumulative_return_factor` 1 + base, or 1 when base is empty, because `cumprod` skips NaN |
| Performance.Factors | script.py:59 | The factor column has one entry per row; entry i is the factor of row i after the rows before it |
| Performance.GroupFactors | script.py:60-65 | The factors a `groupby` hands to `cumprod` for one group, in table order; never more than there are rows |
| Performance.Mult | script.py:60-65 | Definition: the product of a list of factors, 1 for the empty list |
| Performance.CumProd | script.py:60-65 | Definition: the grouped cumulative product at the last row of a table, the product of its group's factors up to that row |
| Performance.OutputRow | script.py:55-68 | An output row keeps the row's fund, year, month, price and dividend (empty ones as 0) |
| Performance.RowRecord | script.py:53-70 | Every output row carries the input row's pass-through columns |
| Performance.Report | script.py:68-70 | One output row per input row, each carrying its input row's columns |
| Performance.Metrics | script.py:44-70 | One output row per input row, each carrying the columns of the sorted table's row at its position, ordered by fund then date |
| Rounding.RoundHalfEven | script.py:55 | The result is within one half of x, and on a tie it is even |
| Rounding.Round2 | script.py:55-66 | Rounding to two decimals moves a value by at most 0.005 |
| Rounding.Pct | script.py:55-66 | A reported percentage is within 0.005 of 100 times the return |
| Rounding.Round2Exact | script.py:55-66 | A value already on the two-decimal grid is reported unchanged |
| Rounding.Round2Idempotent | script.py:55-66 | Rounding an already rounded value changes nothing |
| MetricProperties.ReportRow | script.py:53-68 | A row without a base return reports 0 for all three percentages; otherwise it reports the rounded base return and the rounded LTD and YTD products minus one, computed from the unrounded factors |
| MetricProperties.ReportAt | script.py:53-70 | Output row i depends only on input row i and the rows before it |
| MetricProperties.FactorsPrefix | script.py:59 | The factor column of a prefix of the table is the prefix of the factor column |
| MetricProperties.FactorAt | script.py:53-59 | Entry i of the factor column is 1 + base of row i computed after the rows before it |
| MetricProperties.CumProdAt | script.py:60-65 | The grouped cumulative products at row i are the LTD and YTD products of the sorted table at i |
| RunningProducts.GroupFactorsSnoc | script.py:60-65 | A new row adds its factor to the product list of its own group and leaves every other group's list unchanged |
| RunningProducts.LtdFactorsStep | script.py:60 | In the sorted table the LTD factor list starts afresh with a fund's first row and otherwise extends the previous row's list by this row's factor |
| RunningProducts.YtdFactorsStep | script.py:65 | The YTD factor list starts afresh on a new fund or year and otherwise extends the previous row's list |
| RunningProducts.LtdRecurrence | script.py:59-60 | 1 + LTD is the row's factor on the fund's first row and otherwise the previous row's 1 + LTD times the row's factor |
| RunningProducts.YtdRecurrence | script.py:65 | 1 + YTD is the row's factor on the first row of a (fund, year) and otherwise the previous row's 1 + YTD times the row's factor |
| RunningProducts.FirstFactors | script.py:60-65 | A group's product list at its first row is that row's factor alone |
| RunningProducts.LtdFactors | script.py:60 | Definition: the factors of row i's fund from the start of the table up to row i |
| RunningProducts.YtdFactors | script.py:65 | Definition: the factors of row i's (fund, Year) group up to row i |
| RunningProducts.Ltd | script.py:60 | Definition: 1 + LTD at row i, the product of LtdFactors |
| RunningProducts.Ytd | script.py:65 | Definition: 1 + YTD at row i, the product of YtdFactors |
| RunningProducts.CompletedYears | script.py:60-65 | Definition: the final 1 + YTD of each of the fund's calendar years before row i's year, oldest first |
| RunningProducts.MultPositive | script.py:60-65 | The product of a list of positive factors is positive |
| RunningProducts.GroupFactorsIn | script.py:60-65 | Every factor a group hands to the cumulative product is an entry of the factor column |
| RunningProducts.CumulativePositive | script.py:59-65 | When every factor of the column is positive (every base return above -100%), 1 + LTD and 1 + YTD at every row are positive, so LTD and YTD stay above -100% |
| RunningProducts.NoEarlierRowOfFund | script.py:47-60 | In the sorted table no row before a fund's first row belongs to that fund |
| RunningProducts.NoEarlierRowOfYear | script.py:47-65 | In the sorted table no row before the first row of a (fund, year) belongs to that group |
| RunningProducts.YearStart | script.py:65 | The start of row i's year block is at or before i and is the first row of its (fund, year) |
| RunningProducts.YearStartIsBlockStart | script.py:65 | Every row from the year start to row i is in the same fund and year, and none of them starts a new year |
| RunningProducts.YearFactorsSplit | script.py:60-65 | The LTD factor list is the YTD list in the fund's first year, and otherwise the LTD list at the end of the previous year followed by the YTD list |
| RunningProducts.LtdSplitsIntoYears | script.py:60-65 | 1 + LTD equals the product of the final 1 + YTD of each completed earlier year of the fund times the current 1 + YTD |
| RunningProducts.MultConcat | script.py:60-65 | The product of two factor lists joined is the product of their products |
| RunningProducts.SingleYearFactors | script.py:60-65 | If all of a fund's rows are in one year, its (fund, year) product list is its fund product list |
| RunningProducts.GroupFactorsOfNoRows | script.py:60-65 | A group without rows in the table has an empty product list |
| RunningProducts.GroupFactorsOwnRows | script.py:60-65 | A fund's grouped product lists are the same when computed from that fund's rows alone |
| RunningProducts.FundColumnSnoc | script.py:49-60 | A row adds its column entry to its own fund's column and to no other fund's |
| MetricProperties.YtdRestartsEachYear | script.py:65 | On the first row of a fund's year, YTD performance equals base performance |
| MetricProperties.SingleYearRow | script.py:60-65 | When all of a fund's earlier rows are in the row's year, its YTD equals its LTD |
| MetricProperties.SingleYearFund | script.py:60-65 | If all of a fund's rows are in one year, YTD equals LTD on every row of that fund |
| MetricProperties.FirstRowAtStartIsFlat | script.py:51-66 | A fund's first row priced at the starting price with no dividend reports 0 for base, LTD and YTD |
| MetricProperties.FlatReturn | script.py:53 | A month that ends at its prior price with no dividend has a zero return |
| MetricProperties.Telescope | script.py:53-60 | A price ratio times the factor of a month without dividend is the ratio to that month's price |
| MetricProperties.TelescopeStep | script.py:53-60 | Adding a row without dividend keeps the LTD product equal to the fund's last price over the starting price |
| MetricProperties.NoDividendTelescopes | script.py:53-60 | For a fund that never pays a dividend and has no empty price, 1 + LTD is its last price divided by the starting price |
| MetricProperties.CumProdSnoc | script.py:60-65 | A new row multiplies its own group's product by its factor and leaves other groups' products unchanged |
| MetricProperties.FactorsOwnRows | script.py:49-59 | The factor column computed from a fund's rows alone is that fund's entries of the whole table's factor column |
| MetricProperties.CumProdOwnRows | script.py:60-65 | A group's cumulative product is the same when computed from its fund's rows alone |
| MetricProperties.PastPriceOwnRows | script.py:49 | The prior price of a fund is the same when computed from that fund's rows alone |
| MetricProperties.RowRecordOwnRows | script.py:49-68 | A row's output row is the same when computed from its fund's rows alone |
| MetricProperties.FundIsolation | script.py:49-65 | A fund's output rows, in table order, are the output of the table restricted to that fund |
| MetricProperties.MetricsIsolation | script.py:44-70 | A fund's output rows of the whole computation equal the computation run on that fund's rows alone |
| MetricProperties.OtherFundsIrrelevant | script.py:44-70 | Two tables with the same rows for a fund give that fund the same output rows, whatever other funds they contain |
| Engine.RunStep | script.py:60-65 | Definition: one step of a running product, the factor alone on a restart and otherwise the previous product times the factor |
| Engine.After | script.py:49-65 | Definition: the state (`Carry`) the pass holds after rows 0..i-1: the last row's fund, year and price (or the start if empty), and the LTD and YTD products at that row |
| Engine.LtdStep | script.py:59-60 | On the sorted table one running step (restart on a new fund, else multiply) from the previous row's LTD product gives this row's LTD product |
| Engine.YtdStep | script.py:65 | One running step that restarts on a new fund or year gives this row's YTD product |
| Engine.RowStep | script.py:47-70 | For row i of the sorted table: the restart tests are the fund and year changes, the prior price is the start or the previous row's price, and the running steps give the LTD and YTD products of the output row |
| Engine.Step | script.py:49-68 | Processing row i from the state after rows 0..i-1 emits exactly output row i and the state after row i |
| Engine.Pass | script.py:49-70 | The pass over a sorted table outputs exactly the table's report |
| Engine.ComputeMetrics | script.py:44-70 | Sorting and then the pass outputs exactly the metrics the table operations define |
| Scenarios.OneFundTwoRows | script.py:49-68 | A fund's first two rows: the first uses the starting price and its own factor for both products; the second uses the first row's price, both factors for LTD, and for YTD both factors in the same year or only its own after a year change |
| Scenarios.TwoMonthsPercentages | script.py:55-66 | The worked example's returns round to 4.0, 4.76 and 8.95 |
| Scenarios.TwoMonthsRows | script.py:49-68 | From 1000, a month at 1050 with dividend 10 reports 4.0/4.0/4.0; the next month at 1100 with no dividend reports 4.76/8.95/8.95 |
| Scenarios.TwoMonthsReport | script.py:44-70 | The whole output for those two months, in their given order |
| Scenarios.YearEndSorted | script.py:47 | Rows listed as January 2023 then December 2022 sort December first |
| Scenarios.YearEndPercentages | script.py:55-66 | Returns of 10% and 21% are reported as 10.0 and 21.0 |
| Scenarios.YearEndRows | script.py:49-68 | December, up 10% from 1000, reports 10.0 on every measure. January, up 10% from 1100, reports base 10.0, LTD 21.0 and YTD 10.0, because the YTD restarts |
| Scenarios.YearEndReport | script.py:44-70 | The whole output for those rows, sorted December first |

## Left out

- Loading the input files, `load_metadata` and `load_funddata` (script.py:21-41). These read CSV and JSON files and rename columns. Only the date key of line 38 is modelled. Building that date rejects a month outside 1..12, so the model requires valid months for the pass. It also rejects a year outside the range the timestamp type can represent, which is at most 1..9999. The model does not require that, because its month count works for every integer year.
- The SQL table creation and inserts (script.py:72-137), the `__main__` driver (script.py:139-153) and the display option (script.py:4). These are database I/O and configuration.
- Floating point. Prices, returns and products are exact reals, so IEEE rounding inside the products is not modelled. The two-decimal rounding is modelled exactly: half to even, on the exact value.
- Zero prices. Reals have no infinity, so the model cannot represent the infinite return that `script.py` keeps when a zero starting or previous price divides a non-zero `price - dividend`. It also does not model the 0/0 case, where the NaN becomes 0 at line 68. Every entry point therefore requires the starting price and every present price to be non-zero (`NonZeroPrices`). That requirement is broader than the division needs: it also excludes tables where a zero price is never a divisor, such as a fund whose last month closes at 0, which `script.py` reports as -100% on all three measures.
- Sort stability. The sort is a stable insertion sort. Its result is proved to be the only sorted order when (fund, month) keys are unique. Ties between duplicate keys keep insertion order, which is not claimed to match the library's own tie order.
- In-place column writes. `metrics` adds columns to the table one at a time (lines 49-66). The model computes the same values row by row into output records. The intermediate columns `past_price`, `bmf` and `cumulative_return_factor` are not kept as table state.
- Integer widths. Fund ids, years and months are unbounded integers, because `script.py` never relies on their width.
