/**
 * Grouped cumulative products over an arbitrary factor column. Nothing here
 * depends on how the factors are computed, so these facts hold for the
 * cumulative_return_factor column in particular. Which factors a group
 * multiplies is a fact about sequences (GroupFactors); only MultSnoc,
 * MultConcat and the lemmas right beside them are about multiplication.
 * MultPair, MultConcatPair and SplitProduct restate a product x * y as
 * Mult([x, y]): the solver matches equal arguments of a function but does
 * not match equal factors of a nonlinear product, so the larger proofs
 * pass products around in that form.
 */
module RunningProducts {
  import opened Funds
  import opened Performance

  /** Appending a factor multiplies the product by it. */
  lemma MultSnoc(xs: seq<real>, v: real)
    ensures Mult(xs + [v]) == Mult(xs) * v
  {
    assert (xs + [v])[..|xs|] == xs;
  }

  lemma GroupFactorsSnoc(t: seq<Obs>, fs: seq<real>, y: Obs, v: real, g: Group)
    requires |fs| == |t|
    ensures InGroup(y, g) ==> GroupFactors(t + [y], fs + [v], g) == GroupFactors(t, fs, g) + [v]
    ensures !InGroup(y, g) ==> GroupFactors(t + [y], fs + [v], g) == GroupFactors(t, fs, g)
  {
    assert (t + [y])[..|t|] == t;
    assert (fs + [v])[..|fs|] == fs;
    assert GroupFactors(t, fs, g) + [] == GroupFactors(t, fs, g);
  }

  /** A group with no rows in t has no factors. */
  lemma {:induction false} GroupFactorsOfNoRows(t: seq<Obs>, fs: seq<real>, g: Group)
    requires |fs| == |t|
    requires forall k :: 0 <= k < |t| ==> !InGroup(t[k], g)
    ensures GroupFactors(t, fs, g) == []
    decreases |t|
  {
    if t != [] {
      var k := |t| - 1;
      assert forall j :: 0 <= j < k ==> t[..k][j] == t[j];
      GroupFactorsOfNoRows(t[..k], fs[..k], g);
    }
  }

  /** When all of fund f's rows fall in year y, grouping by (fund, year) and
      grouping by fund select the same factors. */
  lemma {:induction false} SingleYearFactors(t: seq<Obs>, fs: seq<real>, f: int, y: int)
    requires |fs| == |t|
    requires forall k :: 0 <= k < |t| && t[k].fundId == f ==> t[k].year == y
    ensures GroupFactors(t, fs, ByFundYear(f, y)) == GroupFactors(t, fs, ByFund(f))
    decreases |t|
  {
    if t != [] {
      var k := |t| - 1;
      assert forall j :: 0 <= j < k ==> t[..k][j] == t[j];
      SingleYearFactors(t[..k], fs[..k], f, y);
    }
  }

  // ---------------------------------------------------------------------
  // Restriction to one fund

  /** The entries of column fs on the rows of fund f, in table order. This
      filters a column by the fund of its parallel rows, so it is written
      apart from FundRows (rows) and FundRecords (output rows), which each
      filter a sequence by its own elements' fund. */
  function FundColumn(t: seq<Obs>, fs: seq<real>, f: int): (c: seq<real>)
    requires |fs| == |t|
    ensures |c| == |FundRows(t, f)|
    decreases |t|
  {
    if t == [] then []
    else
      var k := |t| - 1;
      assert t == t[..k] + [t[k]];
      FundRowsSnoc(t[..k], t[k], f);
      FundColumn(t[..k], fs[..k], f) + (if t[k].fundId == f then [fs[k]] else [])
  }

  lemma FundColumnSnoc(t: seq<Obs>, fs: seq<real>, y: Obs, v: real, f: int)
    requires |fs| == |t|
    ensures y.fundId == f ==> FundColumn(t + [y], fs + [v], f) == FundColumn(t, fs, f) + [v]
    ensures y.fundId != f ==> FundColumn(t + [y], fs + [v], f) == FundColumn(t, fs, f)
  {
    assert (t + [y])[..|t|] == t;
    assert (fs + [v])[..|fs|] == fs;
    assert FundColumn(t, fs, f) + [] == FundColumn(t, fs, f);
  }

  /** A group of fund f selects the same factors whether or not the rows of
      other funds are present. */
  lemma {:induction false} GroupFactorsOwnRows(t: seq<Obs>, fs: seq<real>, g: Group)
    requires |fs| == |t|
    ensures GroupFactors(FundRows(t, g.fund), FundColumn(t, fs, g.fund), g) == GroupFactors(t, fs, g)
    decreases |t|
  {
    if t != [] {
      var k := |t| - 1;
      var t', fs', y, v := t[..k], fs[..k], t[k], fs[k];
      assert t == t' + [y];
      assert fs == fs' + [v];
      GroupFactorsOwnRows(t', fs', g);
      GroupFactorsSnoc(t', fs', y, v, g);
      FundRowsSnoc(t', y, g.fund);
      FundColumnSnoc(t', fs', y, v, g.fund);
      if y.fundId == g.fund {
        GroupFactorsSnoc(FundRows(t', g.fund), FundColumn(t', fs', g.fund), y, v, g);
      }
    }
  }

  // ---------------------------------------------------------------------
  // On the sorted table

  predicate FirstOfFund(s: seq<Obs>, i: nat)
    requires i < |s|
  {
    i == 0 || s[i - 1].fundId != s[i].fundId
  }

  predicate FirstOfYear(s: seq<Obs>, i: nat)
    requires i < |s|
  {
    FirstOfFund(s, i) || s[i - 1].year != s[i].year
  }

  lemma NoEarlierRowOfFund(s: seq<Obs>, i: nat)
    requires Sorted(s) && i < |s| && FirstOfFund(s, i)
    ensures forall k :: 0 <= k < i ==> s[k].fundId != s[i].fundId
  {
    forall k | 0 <= k < i ensures s[k].fundId != s[i].fundId {
      assert RowLe(s[i - 1], s[i]);
      assert k == i - 1 || RowLe(s[k], s[i - 1]);
    }
  }

  lemma NoEarlierRowOfYear(s: seq<Obs>, i: nat)
    requires Sorted(s) && ValidMonths(s) && i < |s| && FirstOfYear(s, i)
    ensures forall k :: 0 <= k < i ==> !InGroup(s[k], ByFundYear(s[i].fundId, s[i].year))
  {
    if FirstOfFund(s, i) {
      NoEarlierRowOfFund(s, i);
    } else {
      forall k | 0 <= k < i ensures !InGroup(s[k], ByFundYear(s[i].fundId, s[i].year)) {
        assert RowLe(s[i - 1], s[i]);
        MonthIndexOrder(s[i - 1].year, s[i - 1].month, s[i].year, s[i].month);
        if k < i - 1 {
          assert RowLe(s[k], s[i - 1]);
          MonthIndexOrder(s[k].year, s[k].month, s[i - 1].year, s[i - 1].month);
        }
      }
    }
  }

  /** The factors the life-to-date product at row i multiplies: those of
      the fund's rows up to and including row i. */
  function LtdFactors(s: seq<Obs>, fs: seq<real>, i: nat): seq<real>
    requires |fs| == |s| && i < |s|
  {
    GroupFactors(s[..i + 1], fs[..i + 1], ByFund(s[i].fundId))
  }

  /** The factors the year-to-date product at row i multiplies: those of the
      rows of the fund and year of row i, up to and including row i. */
  function YtdFactors(s: seq<Obs>, fs: seq<real>, i: nat): seq<real>
    requires |fs| == |s| && i < |s|
  {
    GroupFactors(s[..i + 1], fs[..i + 1], ByFundYear(s[i].fundId, s[i].year))
  }

  /** The life-to-date product at row i. */
  function Ltd(s: seq<Obs>, fs: seq<real>, i: nat): real
    requires |fs| == |s| && i < |s|
  {
    Mult(LtdFactors(s, fs, i))
  }

  /** The year-to-date product at row i. */
  function Ytd(s: seq<Obs>, fs: seq<real>, i: nat): real
    requires |fs| == |s| && i < |s|
  {
    Mult(YtdFactors(s, fs, i))
  }

  /** The factors a group selects up to row i: those up to row i - 1, then
      row i's own. */
  lemma PrefixFactors(s: seq<Obs>, fs: seq<real>, i: nat, g: Group)
    requires |fs| == |s| && i < |s| && InGroup(s[i], g)
    ensures GroupFactors(s[..i + 1], fs[..i + 1], g) == GroupFactors(s[..i], fs[..i], g) + [fs[i]]
  {
    assert s[..i + 1] == s[..i] + [s[i]];
    assert fs[..i + 1] == fs[..i] + [fs[i]];
    GroupFactorsSnoc(s[..i], fs[..i], s[i], fs[i], g);
  }

  /** A group with no rows before row i selects row i's factor alone. */
  lemma FirstFactors(s: seq<Obs>, fs: seq<real>, i: nat, g: Group)
    requires |fs| == |s| && i < |s| && InGroup(s[i], g)
    requires forall k :: 0 <= k < i ==> !InGroup(s[k], g)
    ensures GroupFactors(s[..i + 1], fs[..i + 1], g) == [fs[i]]
  {
    PrefixFactors(s, fs, i, g);
    assert forall k :: 0 <= k < i ==> s[..i][k] == s[k];
    GroupFactorsOfNoRows(s[..i], fs[..i], g);
  }

  /** On the sorted table the fund's factors up to row i are row i's factor,
      after those up to row i - 1 unless row i starts its fund. */
  lemma LtdFactorsStep(s: seq<Obs>, fs: seq<real>, i: nat)
    requires Sorted(s) && |fs| == |s| && i < |s|
    ensures FirstOfFund(s, i) ==> LtdFactors(s, fs, i) == [fs[i]]
    ensures !FirstOfFund(s, i) ==> LtdFactors(s, fs, i) == LtdFactors(s, fs, i - 1) + [fs[i]]
  {
    var g := ByFund(s[i].fundId);
    if FirstOfFund(s, i) {
      NoEarlierRowOfFund(s, i);
      FirstFactors(s, fs, i, g);
    } else {
      PrefixFactors(s, fs, i, g);
      assert s[..(i - 1) + 1] == s[..i];
      assert fs[..(i - 1) + 1] == fs[..i];
    }
  }

  /** The same for the factors of the fund and year, which start afresh with
      each year. */
  lemma YtdFactorsStep(s: seq<Obs>, fs: seq<real>, i: nat)
    requires Sorted(s) && ValidMonths(s) && |fs| == |s| && i < |s|
    ensures FirstOfYear(s, i) ==> YtdFactors(s, fs, i) == [fs[i]]
    ensures !FirstOfYear(s, i) ==> YtdFactors(s, fs, i) == YtdFactors(s, fs, i - 1) + [fs[i]]
  {
    var g := ByFundYear(s[i].fundId, s[i].year);
    if FirstOfYear(s, i) {
      NoEarlierRowOfYear(s, i);
      FirstFactors(s, fs, i, g);
    } else {
      PrefixFactors(s, fs, i, g);
      assert s[..(i - 1) + 1] == s[..i];
      assert fs[..(i - 1) + 1] == fs[..i];
    }
  }

  /** Months that never lose everything keep the product positive: when
      every factor is positive (every return above -100%), so is their
      product. */
  lemma {:induction false} MultPositive(xs: seq<real>)
    requires forall k :: 0 <= k < |xs| ==> xs[k] > 0.0
    ensures Mult(xs) > 0.0
    decreases |xs|
  {
    if xs != [] {
      var n := |xs| - 1;
      assert forall k :: 0 <= k < n ==> xs[..n][k] == xs[k];
      MultPositive(xs[..n]);
      assert xs[n] > 0.0;
    }
  }

  /** A group hands cumprod entries of the column and nothing else. */
  lemma {:induction false} GroupFactorsIn(t: seq<Obs>, fs: seq<real>, g: Group)
    requires |fs| == |t|
    ensures forall v :: v in GroupFactors(t, fs, g) ==> v in fs
    decreases |t|
  {
    if t != [] {
      var k := |t| - 1;
      GroupFactorsIn(t[..k], fs[..k], g);
      assert forall v :: v in fs[..k] ==> v in fs;
    }
  }

  /** When every month's return is above -100% (every factor positive),
      the life-to-date and year-to-date products stay positive, that is
      LTD and YTD stay above -100%. */
  lemma CumulativePositive(s: seq<Obs>, fs: seq<real>, i: nat)
    requires |fs| == |s| && i < |s|
    requires forall k :: 0 <= k < |fs| ==> fs[k] > 0.0
    ensures Ltd(s, fs, i) > 0.0 && Ytd(s, fs, i) > 0.0
  {
    var n := i + 1;
    assert forall v :: v in fs[..n] ==> v in fs;
    GroupFactorsIn(s[..n], fs[..n], ByFund(s[i].fundId));
    GroupFactorsIn(s[..n], fs[..n], ByFundYear(s[i].fundId, s[i].year));
    var a, b := LtdFactors(s, fs, i), YtdFactors(s, fs, i);
    assert forall k :: 0 <= k < |a| ==> a[k] in a;
    assert forall k :: 0 <= k < |b| ==> b[k] in b;
    MultPositive(a);
    MultPositive(b);
  }

  lemma MultSingle(v: real)
    ensures Mult([v]) == v
  {
    assert [v] == [] + [v];
    MultSnoc([], v);
  }

  /** The life-to-date product is a running product that restarts with each
      fund: on the fund's first row it is that row's factor, on every later
      row the previous row's product times the row's factor. */
  lemma LtdRecurrence(s: seq<Obs>, fs: seq<real>, i: nat)
    requires Sorted(s) && |fs| == |s| && i < |s|
    ensures FirstOfFund(s, i) ==> Ltd(s, fs, i) == fs[i]
    ensures !FirstOfFund(s, i) ==> Ltd(s, fs, i) == Ltd(s, fs, i - 1) * fs[i]
  {
    LtdFactorsStep(s, fs, i);
    if FirstOfFund(s, i) {
      MultSingle(fs[i]);
    } else {
      MultSnoc(LtdFactors(s, fs, i - 1), fs[i]);
    }
  }

  /** The year-to-date product is the same running product, restarted with
      each calendar year of the fund. */
  lemma YtdRecurrence(s: seq<Obs>, fs: seq<real>, i: nat)
    requires Sorted(s) && ValidMonths(s) && |fs| == |s| && i < |s|
    ensures FirstOfYear(s, i) ==> Ytd(s, fs, i) == fs[i]
    ensures !FirstOfYear(s, i) ==> Ytd(s, fs, i) == Ytd(s, fs, i - 1) * fs[i]
  {
    YtdFactorsStep(s, fs, i);
    if FirstOfYear(s, i) {
      MultSingle(fs[i]);
    } else {
      MultSnoc(YtdFactors(s, fs, i - 1), fs[i]);
    }
  }

  /** The first row of the (fund, year) block that row i belongs to. */
  function YearStart(s: seq<Obs>, i: nat): (j: nat)
    requires i < |s|
    ensures j <= i && FirstOfYear(s, j)
  {
    if FirstOfYear(s, i) then i else YearStart(s, i - 1)
  }

  /** Every row from YearStart(s, i) to row i belongs to row i's fund and
      year, and none of them but the first starts a year. */
  lemma {:induction false} YearStartIsBlockStart(s: seq<Obs>, i: nat)
    requires i < |s|
    ensures forall k :: YearStart(s, i) <= k <= i ==>
              s[k].fundId == s[i].fundId && s[k].year == s[i].year
    ensures forall k :: YearStart(s, i) < k <= i ==> !FirstOfYear(s, k)
  {
    if !FirstOfYear(s, i) {
      YearStartIsBlockStart(s, i - 1);
    }
  }

  /** The fund's factors up to row i are those up to the end of the previous
      year, if any, followed by the factors of row i's year. */
  lemma {:induction false} YearFactorsSplit(s: seq<Obs>, fs: seq<real>, i: nat)
    requires Sorted(s) && ValidMonths(s) && |fs| == |s| && i < |s|
    ensures FirstOfFund(s, YearStart(s, i)) ==> LtdFactors(s, fs, i) == YtdFactors(s, fs, i)
    ensures !FirstOfFund(s, YearStart(s, i)) ==>
              LtdFactors(s, fs, i) == LtdFactors(s, fs, YearStart(s, i) - 1) + YtdFactors(s, fs, i)
    decreases i
  {
    LtdFactorsStep(s, fs, i);
    YtdFactorsStep(s, fs, i);
    if !FirstOfYear(s, i) {
      YearFactorsSplit(s, fs, i - 1);
      var j := YearStart(s, i);
      if !FirstOfFund(s, j) {
        var a, b := LtdFactors(s, fs, j - 1), YtdFactors(s, fs, i - 1);
        assert (a + b) + [fs[i]] == a + (b + [fs[i]]);
      }
    }
  }

  /** The final year-to-date products of the fund's calendar years before
      the year of row i, oldest first. */
  function CompletedYears(s: seq<Obs>, fs: seq<real>, i: nat): seq<real>
    requires |fs| == |s| && i < |s|
    decreases i
  {
    var j := YearStart(s, i);
    if FirstOfFund(s, j) then []
    else CompletedYears(s, fs, j - 1) + [Ytd(s, fs, j - 1)]
  }

  lemma Associate(a: real, b: real, c: real)
    ensures (a * b) * c == a * (b * c)
  {
  }

  /** The product of two lists of factors one after the other. */
  lemma {:induction false} MultConcat(a: seq<real>, b: seq<real>)
    ensures Mult(a + b) == Mult(a) * Mult(b)
    decreases |b|
  {
    if b == [] {
      assert a + b == a;
    } else {
      var b', v := b[..|b| - 1], b[|b| - 1];
      assert b == b' + [v];
      assert a + b == (a + b') + [v];
      MultConcat(a, b');
      MultSnoc(a + b', v);
      MultSnoc(b', v);
      Associate(Mult(a), Mult(b'), v);
    }
  }

  lemma MultPair(x: real, y: real)
    ensures Mult([x, y]) == x * y
  {
    assert [x, y] == [x] + [y];
    MultSnoc([x], y);
    MultSingle(x);
  }

  /** The product of two lists one after the other, as the product of
      their two products. */
  lemma MultConcatPair(a: seq<real>, b: seq<real>)
    ensures Mult(a + b) == Mult([Mult(a), Mult(b)])
  {
    MultConcat(a, b);
    MultPair(Mult(a), Mult(b));
  }

  /** A product over a list made of a first part and a second part, each
      with a known product. */
  lemma SplitProduct(c: seq<real>, a: seq<real>, b: seq<real>, d: seq<real>, e: real)
    requires c == a + b && Mult(a) == Mult(d) && Mult(b) == e
    ensures Mult(c) == Mult(d + [e])
  {
    MultConcatPair(a, b);
    MultConcatPair(d, [e]);
    MultSingle(e);
  }

  /** The life-to-date product at any row of the sorted table is the product
      of the final year-to-date products of the fund's completed years and
      the current year-to-date product. */
  lemma {:induction false} LtdSplitsIntoYears(s: seq<Obs>, fs: seq<real>, i: nat)
    requires Sorted(s) && ValidMonths(s) && |fs| == |s| && i < |s|
    ensures Ltd(s, fs, i) == Mult(CompletedYears(s, fs, i) + [Ytd(s, fs, i)])
    decreases i
  {
    YearFactorsSplit(s, fs, i);
    var j := YearStart(s, i);
    if !FirstOfFund(s, j) {
      LtdSplitsIntoYears(s, fs, j - 1);
      SplitProduct(LtdFactors(s, fs, i), LtdFactors(s, fs, j - 1), YtdFactors(s, fs, i),
                   CompletedYears(s, fs, i), Ytd(s, fs, i));
    } else {
      MultSingle(Ytd(s, fs, i));
      assert [] + [Ytd(s, fs, i)] == [Ytd(s, fs, i)];
    }
  }
}
