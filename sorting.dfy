/**
 * The sort of the table by (fund_id, date) before any metric is computed.
 * The table library's multi-column sort is stable; it is modelled by a
 * stable insertion sort, and when no fund has two rows for one month every
 * sorted permutation is this one.
 */
module Sorting {
  import opened Funds

  /** Places x after every row of s that does not come after it. */
  function Insert(s: seq<Obs>, x: Obs): (r: seq<Obs>)
    requires Sorted(s)
    ensures Sorted(r)
    ensures multiset(r) == multiset(s) + multiset{x}
    decreases |s|
  {
    if s == [] || RowLe(s[|s| - 1], x) then s + [x]
    else
      var last := s[|s| - 1];
      var r' := Insert(s[..|s| - 1], x);
      assert s == s[..|s| - 1] + [last];
      assert forall j :: 0 <= j < |r'| ==> RowLe(r'[j], last) by {
        forall j | 0 <= j < |r'| ensures RowLe(r'[j], last) {
          assert r'[j] in multiset(r');
        }
      }
      r' + [last]
  }

  /** The table sorted by (fund_id, date), rows with equal keys in input order. */
  function SortRows(rows: seq<Obs>): (s: seq<Obs>)
    ensures Sorted(s)
    ensures multiset(s) == multiset(rows)
  {
    if rows == [] then []
    else
      assert rows == rows[..|rows| - 1] + [rows[|rows| - 1]];
      Insert(SortRows(rows[..|rows| - 1]), rows[|rows| - 1])
  }

  /** Inserting a row of another fund leaves a fund's rows alone; inserting
      one of its own rows inserts it among them. */
  lemma {:induction false} FundRowsOfInsert(s: seq<Obs>, x: Obs, f: int)
    requires Sorted(s)
    ensures Sorted(FundRows(s, f))
    ensures x.fundId == f ==> FundRows(Insert(s, x), f) == Insert(FundRows(s, f), x)
    ensures x.fundId != f ==> FundRows(Insert(s, x), f) == FundRows(s, f)
    decreases |s|
  {
    SortedFundRows(s, f);
    if s == [] || RowLe(s[|s| - 1], x) {
      InsertAtEnd(s, x, f);
    } else {
      var s' := s[..|s| - 1];
      assert s == s' + [s[|s| - 1]];
      FundRowsOfInsert(s', x, f);
      InsertBeforeLast(s, x, f);
    }
  }

  lemma InsertBeforeLast(s: seq<Obs>, x: Obs, f: int)
    requires Sorted(s) && s != [] && !RowLe(s[|s| - 1], x)
    requires Sorted(FundRows(s[..|s| - 1], f)) && Sorted(FundRows(s, f))
    requires x.fundId == f ==>
      FundRows(Insert(s[..|s| - 1], x), f) == Insert(FundRows(s[..|s| - 1], f), x)
    requires x.fundId != f ==> FundRows(Insert(s[..|s| - 1], x), f) == FundRows(s[..|s| - 1], f)
    ensures x.fundId == f ==> FundRows(Insert(s, x), f) == Insert(FundRows(s, f), x)
    ensures x.fundId != f ==> FundRows(Insert(s, x), f) == FundRows(s, f)
  {
    var last := s[|s| - 1];
    var s' := s[..|s| - 1];
    var r' := Insert(s', x);
    assert Insert(s, x) == r' + [last];
    FundRowsSnoc(r', last, f);
    assert s == s' + [last];
    FundRowsSnoc(s', last, f);
    if x.fundId == f && last.fundId == f {
      OwnRowBeforeOwnLast(FundRows(s', f), last, x);
    }
  }

  lemma OwnRowBeforeOwnLast(fr: seq<Obs>, last: Obs, x: Obs)
    requires Sorted(fr) && Sorted(fr + [last]) && !RowLe(last, x)
    ensures Insert(fr + [last], x) == Insert(fr, x) + [last]
  {
    assert (fr + [last])[..|fr|] == fr;
  }

  lemma InsertAtEnd(s: seq<Obs>, x: Obs, f: int)
    requires Sorted(s) && (s == [] || RowLe(s[|s| - 1], x))
    requires Sorted(FundRows(s, f))
    ensures x.fundId == f ==> FundRows(Insert(s, x), f) == Insert(FundRows(s, f), x)
    ensures x.fundId != f ==> FundRows(Insert(s, x), f) == FundRows(s, f)
  {
    assert Insert(s, x) == s + [x];
    FundRowsSnoc(s, x, f);
    var fr := FundRows(s, f);
    if x.fundId == f && fr != [] {
      FundRowsMembers(s, f);
      assert fr[|fr| - 1] in fr;
      var k :| 0 <= k < |s| && s[k] == fr[|fr| - 1];
      assert k == |s| - 1 || RowLe(s[k], s[|s| - 1]);
      assert RowLe(fr[|fr| - 1], x);
      assert Insert(fr, x) == fr + [x];
    }
  }

  lemma {:induction false} SortedFundRows(s: seq<Obs>, f: int)
    requires Sorted(s)
    ensures Sorted(FundRows(s, f))
    decreases |s|
  {
    if s != [] {
      var s' := s[..|s| - 1];
      SortedFundRows(s', f);
      var fr' := FundRows(s', f);
      FundRowsMembers(s', f);
      forall j | 0 <= j < |fr'| ensures RowLe(fr'[j], s[|s| - 1]) {
        assert fr'[j] in fr';
      }
    }
  }

  /** Sorting and then taking one fund's rows is sorting that fund's rows. */
  lemma {:induction false} FundRowsOfSort(rows: seq<Obs>, f: int)
    ensures FundRows(SortRows(rows), f) == SortRows(FundRows(rows, f))
    decreases |rows|
  {
    if rows != [] {
      var rows' := rows[..|rows| - 1];
      var x := rows[|rows| - 1];
      assert rows == rows' + [x];
      FundRowsOfSort(rows', f);
      FundRowsOfInsert(SortRows(rows'), x, f);
      FundRowsSnoc(rows', x, f);
      if x.fundId == f {
        var fr' := FundRows(rows', f);
        assert (fr' + [x])[..|fr'|] == fr';
        assert SortRows(fr' + [x]) == Insert(SortRows(fr'), x);
      }
    }
  }

  /** With at most one row per fund and month, a sorted permutation of the
      table is unique: any such sort agrees with SortRows. */
  lemma {:induction false} SortIsCanonical(rows: seq<Obs>, b: seq<Obs>)
    requires Sorted(b) && multiset(b) == multiset(rows)
    requires ValidMonths(b) && UniqueKeys(b)
    ensures b == SortRows(rows)
  {
    SortedPermutationsAgree(b, SortRows(rows));
  }

  lemma HeadsAgree(a: seq<Obs>, b: seq<Obs>)
    requires a != [] && Sorted(a) && Sorted(b) && multiset(a) == multiset(b)
    requires ValidMonths(a) && UniqueKeys(a)
    ensures b != [] && a[0] == b[0]
  {
    assert a[0] in multiset(b);
    assert a[0] in b;
    var m :| 0 <= m < |b| && b[m] == a[0];
    assert b[0] in multiset(a);
    assert b[0] in a;
    var m' :| 0 <= m' < |a| && a[m'] == b[0];
    assert RowLe(b[0], a[0]) by { assert m == 0 || RowLe(b[0], b[m]); }
    assert RowLe(a[0], b[0]) by { assert m' == 0 || RowLe(a[0], a[m']); }
    MonthIndexOrder(a[0].year, a[0].month, a[m'].year, a[m'].month);
    assert m' == 0;
  }

  lemma TailsPermuted(a: seq<Obs>, b: seq<Obs>)
    requires a != [] && b != [] && a[0] == b[0] && multiset(a) == multiset(b)
    ensures multiset(a[1..]) == multiset(b[1..])
  {
    assert a == [a[0]] + a[1..];
    assert b == [b[0]] + b[1..];
    assert multiset(a[1..]) == multiset(a) - multiset{a[0]};
    assert multiset(b[1..]) == multiset(b) - multiset{b[0]};
  }

  lemma {:induction false} SortedPermutationsAgree(a: seq<Obs>, b: seq<Obs>)
    requires Sorted(a) && Sorted(b) && multiset(a) == multiset(b)
    requires ValidMonths(a) && UniqueKeys(a)
    ensures a == b
    decreases |a|
  {
    if a == [] {
      assert |b| == |multiset(b)| == 0;
    } else {
      HeadsAgree(a, b);
      TailsPermuted(a, b);
      SortedPermutationsAgree(a[1..], b[1..]);
      assert a == [a[0]] + a[1..];
      assert b == [b[0]] + b[1..];
    }
  }
}
