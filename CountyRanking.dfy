/** The "counties affected" list (FinalProject.py:147): the number of
    incidents per county, largest first, cut to the first seven entries. */
module CountyRanking {
  import opened Rows
  import opened Incidents

  /** One entry of the ranking. */
  datatype CountyCount = CountyCount(county: string, count: int)

  function CountOf(e: CountyCount): int { e.count }

  /** The counties of the table, each once, in order of first appearance. */
  function Counties(rows: seq<Incident>): seq<string>
  {
    Dedup(Project(CountyOf, rows))
  }

  /** The rows of one county. */
  function RowsOfCounty(rows: seq<Incident>, c: string): seq<Incident>
  {
    Filter(KeyIs(CountyOf, c), rows)
  }

  function CountyEntry(rows: seq<Incident>): string -> CountyCount
  {
    c => CountyCount(c, |RowsOfCounty(rows, c)|)
  }

  /** The count of every county, in order of first appearance. */
  function Tally(rows: seq<Incident>): seq<CountyCount>
  {
    Project(CountyEntry(rows), Counties(rows))
  }

  ghost predicate NonIncreasing(s: seq<CountyCount>)
  {
    forall i, j :: 0 <= i < j < |s| ==> s[i].count >= s[j].count
  }

  /** Places `x` after every entry whose count is at least its own. */
  function InsertByCount(x: CountyCount, s: seq<CountyCount>): seq<CountyCount>
    decreases |s|
  {
    if s == [] then [x]
    else if s[0].count >= x.count then [s[0]] + InsertByCount(x, s[1..])
    else [x] + s
  }

  /** Insertion sort by count, largest first; entries with equal counts keep their order. */
  function SortByCount(s: seq<CountyCount>): seq<CountyCount>
    decreases |s|
  {
    if s == [] then [] else InsertByCount(s[|s| - 1], SortByCount(s[..|s| - 1]))
  }

  /** Every county with its number of incidents, largest count first. */
  function ValueCounts(rows: seq<Incident>): seq<CountyCount>
  {
    SortByCount(Tally(rows))
  }

  /** How many entries the dashboard shows. */
  const Shown: nat := 7

  /** The first `n` entries of the ranking, or all of them when there are fewer. */
  function TopCounties(rows: seq<Incident>, n: nat): seq<CountyCount>
  {
    var v := ValueCounts(rows);
    if |v| <= n then v else v[..n]
  }

  function TopSevenCounties(rows: seq<Incident>): seq<CountyCount>
  {
    TopCounties(rows, Shown)
  }

  // ---------------------------------------------------------------------
  // The sort
  // ---------------------------------------------------------------------

  lemma {:induction false} InsertByCountMultiset(x: CountyCount, s: seq<CountyCount>)
    ensures multiset(InsertByCount(x, s)) == multiset(s) + multiset{x}
    decreases |s|
  {
    if s != [] {
      assert s == [s[0]] + s[1..];
      if s[0].count >= x.count {
        InsertByCountMultiset(x, s[1..]);
      }
    }
  }

  lemma {:induction false} InsertByCountSorted(x: CountyCount, s: seq<CountyCount>)
    requires NonIncreasing(s)
    ensures NonIncreasing(InsertByCount(x, s))
    decreases |s|
  {
    if s != [] {
      var r := InsertByCount(x, s);
      if s[0].count >= x.count {
        var tail := s[1..];
        InsertByCountSorted(x, tail);
        InsertByCountMultiset(x, tail);
        var rest := InsertByCount(x, tail);
        assert r == [s[0]] + rest;
        forall i, j | 0 <= i < j < |r|
          ensures r[i].count >= r[j].count
        {
          assert r[j] == rest[j - 1];
          if i > 0 {
            assert r[i] == rest[i - 1];
          } else {
            assert rest[j - 1] in multiset(rest);
            if rest[j - 1] != x {
              assert rest[j - 1] in tail;
              var k :| 0 <= k < |tail| && tail[k] == rest[j - 1];
              assert tail[k] == s[k + 1];
            }
          }
        }
      } else {
        forall i, j | 0 <= i < j < |r|
          ensures r[i].count >= r[j].count
        {
          assert r[j] == s[j - 1];
          if i > 0 {
            assert r[i] == s[i - 1];
          }
        }
      }
    }
  }

  lemma {:induction false} InsertByCountDistinct(x: CountyCount, s: seq<CountyCount>)
    requires Distinct(s) && x !in s
    ensures Distinct(InsertByCount(x, s))
    decreases |s|
  {
    if s != [] {
      if s[0].count >= x.count {
        var tail := s[1..];
        assert Distinct(tail) by {
          forall i, j | 0 <= i < j < |tail|
            ensures tail[i] != tail[j]
          {
            assert tail[i] == s[i + 1] && tail[j] == s[j + 1];
          }
        }
        assert s[0] !in tail by {
          forall k | 0 <= k < |tail|
            ensures tail[k] != s[0]
          {
            assert tail[k] == s[k + 1];
          }
        }
        InsertByCountDistinct(x, tail);
        InsertByCountMultiset(x, tail);
        assert s[0] !in multiset(InsertByCount(x, tail));
        DistinctCons(s[0], InsertByCount(x, tail));
      } else {
        DistinctCons(x, s);
      }
    }
  }

  /** Sorting by count puts the entries in non-increasing count order and
      neither adds nor loses an entry. */
  lemma {:induction false} SortByCountSpec(s: seq<CountyCount>)
    ensures NonIncreasing(SortByCount(s))
    ensures multiset(SortByCount(s)) == multiset(s)
    decreases |s|
  {
    if s != [] {
      var init, x := s[..|s| - 1], s[|s| - 1];
      SortByCountSpec(init);
      InsertByCountSorted(x, SortByCount(init));
      InsertByCountMultiset(x, SortByCount(init));
      assert s == init + [x];
    }
  }

  lemma {:induction false} SortByCountDistinct(s: seq<CountyCount>)
    requires Distinct(s)
    ensures Distinct(SortByCount(s))
    decreases |s|
  {
    if s != [] {
      var init, x := s[..|s| - 1], s[|s| - 1];
      assert Distinct(init) by {
        forall i, j | 0 <= i < j < |init|
          ensures init[i] != init[j]
        {
          assert init[i] == s[i] && init[j] == s[j];
        }
      }
      assert x !in init by {
        forall k | 0 <= k < |init|
          ensures init[k] != x
        {
          assert init[k] == s[k];
        }
      }
      SortByCountDistinct(init);
      SortByCountSpec(init);
      assert x !in multiset(SortByCount(init));
      InsertByCountDistinct(x, SortByCount(init));
    }
  }

  // ---------------------------------------------------------------------
  // The ranking
  // ---------------------------------------------------------------------

  /** The tally has one entry per county of the table, holding the number of
      rows of that county, and no two entries are equal. */
  lemma TallySpec(rows: seq<Incident>)
    ensures Distinct(Tally(rows))
    ensures forall e :: e in Tally(rows) <==>
      (exists k :: 0 <= k < |rows| && rows[k].county == e.county) &&
      e.count == |RowsOfCounty(rows, e.county)|
  {
    var column := Project(CountyOf, rows);
    var cs := Counties(rows);
    var t := Tally(rows);
    DedupMembers(column);
    DedupDistinct(column);
    forall i, j | 0 <= i < j < |t|
      ensures t[i] != t[j]
    {
      assert t[i].county == cs[i] && t[j].county == cs[j];
    }
    forall e
      ensures e in t <==>
        (exists k :: 0 <= k < |rows| && rows[k].county == e.county) &&
        e.count == |RowsOfCounty(rows, e.county)|
    {
      if e in t {
        var i :| 0 <= i < |t| && t[i] == e;
        assert cs[i] in cs;
        var k :| 0 <= k < |column| && column[k] == cs[i];
        assert rows[k].county == e.county;
      }
      if (exists k :: 0 <= k < |rows| && rows[k].county == e.county) &&
         e.count == |RowsOfCounty(rows, e.county)| {
        var k :| 0 <= k < |rows| && rows[k].county == e.county;
        assert column[k] == e.county;
        assert e.county in cs;
        var i :| 0 <= i < |cs| && cs[i] == e.county;
        assert t[i] == e;
      }
    }
  }

  /** A county that occurs in the table has a count of at least one. */
  lemma CountyCountPositive(rows: seq<Incident>, k: nat)
    requires k < |rows|
    ensures |RowsOfCounty(rows, rows[k].county)| >= 1
  {
    FilterMembers(KeyIs(CountyOf, rows[k].county), rows);
    assert rows[k] in RowsOfCounty(rows, rows[k].county);
  }

  /** The full ranking: counts in non-increasing order, one entry per county of
      the table, each holding the number of rows of its county. */
  lemma ValueCountsSpec(rows: seq<Incident>)
    ensures NonIncreasing(ValueCounts(rows))
    ensures forall i, j :: 0 <= i < j < |ValueCounts(rows)| ==>
      ValueCounts(rows)[i].county != ValueCounts(rows)[j].county
    ensures forall e :: e in ValueCounts(rows) <==>
      (exists k :: 0 <= k < |rows| && rows[k].county == e.county) &&
      e.count == |RowsOfCounty(rows, e.county)|
  {
    var t := Tally(rows);
    var v := ValueCounts(rows);
    TallySpec(rows);
    SortByCountSpec(t);
    SortByCountDistinct(t);
    assert forall e :: e in v <==> e in t by {
      forall e
        ensures e in v <==> e in t
      {
        assert e in v <==> e in multiset(v);
        assert e in t <==> e in multiset(t);
      }
    }
    forall i, j | 0 <= i < j < |v|
      ensures v[i].county != v[j].county
    {
      assert v[i] in v && v[j] in v;
    }
  }

  lemma {:induction false} TallyIsGroupSums(rows: seq<Incident>, cs: seq<string>)
    ensures SumOf(CountOf, Project(CountyEntry(rows), cs)) == GroupSums(CountyOf, cs, One, rows)
    decreases |cs|
  {
    if cs != [] {
      var init, c := cs[..|cs| - 1], cs[|cs| - 1];
      TallyIsGroupSums(rows, init);
      SumOfSnoc(CountOf, Project(CountyEntry(rows), init), CountyEntry(rows)(c));
      SumOfOne(RowsOfCounty(rows, c));
    }
  }

  lemma {:induction false} InsertByCountSum(x: CountyCount, s: seq<CountyCount>)
    ensures SumOf(CountOf, InsertByCount(x, s)) == SumOf(CountOf, s) + x.count
    decreases |s|
  {
    if s == [] {
      SumOfSnoc(CountOf, [], x);
    } else {
      assert s == [s[0]] + s[1..];
      SumOfAppend(CountOf, [s[0]], s[1..]);
      SumOfSnoc(CountOf, [], s[0]);
      if s[0].count >= x.count {
        InsertByCountSum(x, s[1..]);
        SumOfAppend(CountOf, [s[0]], InsertByCount(x, s[1..]));
      } else {
        SumOfAppend(CountOf, [x], s);
        SumOfSnoc(CountOf, [], x);
      }
    }
  }

  lemma {:induction false} SortByCountSum(s: seq<CountyCount>)
    ensures SumOf(CountOf, SortByCount(s)) == SumOf(CountOf, s)
    decreases |s|
  {
    if s != [] {
      SortByCountSum(s[..|s| - 1]);
      InsertByCountSum(s[|s| - 1], SortByCount(s[..|s| - 1]));
    }
  }

  /** The counts of the full ranking add up to the number of rows. */
  lemma ValueCountsAddUp(rows: seq<Incident>)
    ensures SumOf(CountOf, ValueCounts(rows)) == |rows|
  {
    var column := Project(CountyOf, rows);
    var cs := Counties(rows);
    SortByCountSum(Tally(rows));
    TallyIsGroupSums(rows, cs);
    DedupDistinct(column);
    DedupMembers(column);
    forall k | 0 <= k < |rows|
      ensures CountyOf(rows[k]) in cs
    {
      assert column[k] in column;
    }
    GroupSumsTotal(CountyOf, cs, One, rows);
    SumOfOne(rows);
  }

  /** The shown ranking: at most `n` entries, counts non-increasing, distinct
      counties, each count the number of rows of its county and at least one,
      all counties when there are at most `n`, and no county left out with a
      larger count than a county shown. */
  lemma TopCountiesSpec(rows: seq<Incident>, n: nat)
    ensures |TopCounties(rows, n)| <= n
    ensures |TopCounties(rows, n)| == n || TopCounties(rows, n) == ValueCounts(rows)
    ensures NonIncreasing(TopCounties(rows, n))
    ensures forall i, j :: 0 <= i < j < |TopCounties(rows, n)| ==>
      TopCounties(rows, n)[i].county != TopCounties(rows, n)[j].county
    ensures forall i :: 0 <= i < |TopCounties(rows, n)| ==>
      TopCounties(rows, n)[i].count == |RowsOfCounty(rows, TopCounties(rows, n)[i].county)| >= 1
    ensures forall k, i ::
      (0 <= k < |rows| && 0 <= i < |TopCounties(rows, n)| &&
       forall j :: 0 <= j < |TopCounties(rows, n)| ==> TopCounties(rows, n)[j].county != rows[k].county) ==>
      |RowsOfCounty(rows, rows[k].county)| <= TopCounties(rows, n)[i].count
  {
    var v := ValueCounts(rows);
    var t := TopCounties(rows, n);
    ValueCountsSpec(rows);
    assert forall i :: 0 <= i < |t| ==> t[i] == v[i];
    forall i | 0 <= i < |t|
      ensures t[i].count == |RowsOfCounty(rows, t[i].county)| >= 1
    {
      assert v[i] in v;
      var k :| 0 <= k < |rows| && rows[k].county == t[i].county;
      CountyCountPositive(rows, k);
    }
    forall k, i | 0 <= k < |rows| && 0 <= i < |t| &&
      (forall j :: 0 <= j < |t| ==> t[j].county != rows[k].county)
      ensures |RowsOfCounty(rows, rows[k].county)| <= t[i].count
    {
      var e := CountyCount(rows[k].county, |RowsOfCounty(rows, rows[k].county)|);
      assert e in v;
      var m :| 0 <= m < |v| && v[m] == e;
      assert v[m].county == rows[k].county;
      assert m >= |t| > i;
    }
  }

  /** The seven-entry list the dashboard shows. */
  lemma TopSevenCountiesSpec(rows: seq<Incident>)
    ensures |TopSevenCounties(rows)| <= 7
    ensures NonIncreasing(TopSevenCounties(rows))
    ensures forall i :: 0 <= i < |TopSevenCounties(rows)| ==>
      TopSevenCounties(rows)[i].count == |RowsOfCounty(rows, TopSevenCounties(rows)[i].county)| >= 1
  {
    TopCountiesSpec(rows, Shown);
  }
}
