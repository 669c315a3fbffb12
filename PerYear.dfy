/** The per-year series of the dashboard: deaths per year
    (FinalProject.py:109, a group-by on ArchiveYear summing Fatalities),
    fires per year (line 122, a count of rows per ArchiveYear sorted by year)
    and acres burned per year (line 141, a group-by summing AcresBurned).
    Each is one entry per year that occurs in the table, in ascending year order. */
module PerYear {
  import opened Rows
  import opened Incidents
  import HumanCost

  /** One entry of a per-year series. */
  datatype YearTotal = YearTotal(year: int, total: int)

  function TotalOf(t: YearTotal): int { t.total }

  ghost predicate StrictlyIncreasing(ys: seq<int>)
  {
    forall i, j :: 0 <= i < j < |ys| ==> ys[i] < ys[j]
  }

  /** Adds `y` to an ascending list of years unless it is already there. */
  function InsertYear(ys: seq<int>, y: int): seq<int>
    decreases |ys|
  {
    if ys == [] then [y]
    else if y < ys[0] then [y] + ys
    else if y == ys[0] then ys
    else [ys[0]] + InsertYear(ys[1..], y)
  }

  lemma {:induction false} InsertYearMembers(ys: seq<int>, y: int)
    ensures forall z :: z in InsertYear(ys, y) <==> z in ys || z == y
    decreases |ys|
  {
    if ys != [] && y > ys[0] {
      InsertYearMembers(ys[1..], y);
      assert ys == [ys[0]] + ys[1..];
    }
  }

  lemma {:induction false} InsertYearSorted(ys: seq<int>, y: int)
    requires StrictlyIncreasing(ys)
    ensures StrictlyIncreasing(InsertYear(ys, y))
    decreases |ys|
  {
    if ys != [] {
      var r := InsertYear(ys, y);
      if y < ys[0] {
        forall i, j | 0 <= i < j < |r|
          ensures r[i] < r[j]
        {
          assert r[j] == ys[j - 1];
          if i > 0 {
            assert r[i] == ys[i - 1];
          } else if j > 1 {
            assert ys[0] < ys[j - 1];
          }
        }
      } else if y > ys[0] {
        var tail := ys[1..];
        InsertYearSorted(tail, y);
        InsertYearMembers(tail, y);
        var rest := InsertYear(tail, y);
        assert r == [ys[0]] + rest;
        forall i, j | 0 <= i < j < |r|
          ensures r[i] < r[j]
        {
          assert r[j] == rest[j - 1];
          if i > 0 {
            assert r[i] == rest[i - 1];
          } else {
            assert rest[j - 1] in rest;
            if rest[j - 1] != y {
              var k :| 0 <= k < |tail| && tail[k] == rest[j - 1];
              assert tail[k] == ys[k + 1];
            }
          }
        }
      }
    }
  }

  /** The years of the table, ascending, each once. */
  function Years(rows: seq<Incident>): seq<int>
    decreases |rows|
  {
    if rows == [] then [] else InsertYear(Years(rows[..|rows| - 1]), rows[|rows| - 1].year)
  }

  lemma {:induction false} YearsSpec(rows: seq<Incident>)
    ensures StrictlyIncreasing(Years(rows))
    ensures forall y :: y in Years(rows) <==> exists i :: 0 <= i < |rows| && rows[i].year == y
    decreases |rows|
  {
    if rows != [] {
      var init := rows[..|rows| - 1];
      YearsSpec(init);
      InsertYearMembers(Years(init), rows[|rows| - 1].year);
      InsertYearSorted(Years(init), rows[|rows| - 1].year);
      forall y
        ensures y in Years(rows) <==> exists i :: 0 <= i < |rows| && rows[i].year == y
      {
        if exists i :: 0 <= i < |rows| && rows[i].year == y {
          var i :| 0 <= i < |rows| && rows[i].year == y;
          if i < |init| {
            assert init[i] == rows[i];
          }
        }
        if exists i :: 0 <= i < |init| && init[i].year == y {
          var i :| 0 <= i < |init| && init[i].year == y;
          assert rows[i] == init[i];
        }
      }
    }
  }

  /** The rows of one archive year. */
  function OfYear(rows: seq<Incident>, y: int): seq<Incident>
  {
    Filter(KeyIs(YearOf, y), rows)
  }

  /** The entry of year `y`: the column `f` summed over the rows of that year. */
  function YearEntry(rows: seq<Incident>, f: Incident -> int): int -> YearTotal
  {
    y => YearTotal(y, SumOf(f, OfYear(rows, y)))
  }

  /** The column `f` summed per archive year. */
  function PerYear(rows: seq<Incident>, f: Incident -> int): seq<YearTotal>
  {
    Project(YearEntry(rows, f), Years(rows))
  }

  function DeathsPerYear(rows: seq<Incident>): seq<YearTotal> { PerYear(rows, FatalitiesOf) }

  function FiresPerYear(rows: seq<Incident>): seq<YearTotal> { PerYear(rows, One) }

  function AcresPerYear(rows: seq<Incident>): seq<YearTotal> { PerYear(rows, AcresOf) }

  /** A per-year series is in strictly ascending year order, so no year appears twice. */
  lemma PerYearAscending(rows: seq<Incident>, f: Incident -> int)
    ensures forall i, j :: 0 <= i < j < |PerYear(rows, f)| ==> PerYear(rows, f)[i].year < PerYear(rows, f)[j].year
  {
    YearsSpec(rows);
  }

  /** Every entry of a per-year series is the year of some row. */
  lemma PerYearYearsOccur(rows: seq<Incident>, f: Incident -> int)
    ensures forall i :: 0 <= i < |PerYear(rows, f)| ==>
      exists k :: 0 <= k < |rows| && rows[k].year == PerYear(rows, f)[i].year
  {
    var ys := Years(rows);
    var g := PerYear(rows, f);
    YearsSpec(rows);
    forall i | 0 <= i < |g|
      ensures exists k :: 0 <= k < |rows| && rows[k].year == g[i].year
    {
      assert g[i].year == ys[i];
      assert ys[i] in ys;
    }
  }

  /** Every year of the table has an entry in a per-year series. */
  lemma PerYearCoversYears(rows: seq<Incident>, f: Incident -> int)
    ensures forall k :: 0 <= k < |rows| ==>
      exists i :: 0 <= i < |PerYear(rows, f)| && PerYear(rows, f)[i].year == rows[k].year
  {
    var ys := Years(rows);
    var g := PerYear(rows, f);
    YearsSpec(rows);
    forall k | 0 <= k < |rows|
      ensures exists i :: 0 <= i < |g| && g[i].year == rows[k].year
    {
      assert rows[k].year in ys;
      var i :| 0 <= i < |ys| && ys[i] == rows[k].year;
      assert g[i].year == ys[i];
    }
  }

  lemma {:induction false} PerYearIsGroupSums(rows: seq<Incident>, f: Incident -> int, ys: seq<int>)
    ensures SumOf(TotalOf, Project(YearEntry(rows, f), ys)) == GroupSums(YearOf, ys, f, rows)
    decreases |ys|
  {
    if ys != [] {
      var init, y := ys[..|ys| - 1], ys[|ys| - 1];
      PerYearIsGroupSums(rows, f, init);
      SumOfSnoc(TotalOf, Project(YearEntry(rows, f), init), YearEntry(rows, f)(y));
    }
  }

  /** The per-year sums add up to the column total of the whole table. */
  lemma PerYearAddsUp(rows: seq<Incident>, f: Incident -> int)
    ensures SumOf(TotalOf, PerYear(rows, f)) == SumOf(f, rows)
  {
    var ys := Years(rows);
    YearsSpec(rows);
    PerYearIsGroupSums(rows, f, ys);
    forall i | 0 <= i < |rows|
      ensures YearOf(rows[i]) in ys
    {
    }
    GroupSumsTotal(YearOf, ys, f, rows);
  }

  /** Deaths per year add up to the Fatalities column of the whole table,
      which, with no negative counts, is at least the headline fatality total. */
  lemma DeathsPerYearAddUp(rows: seq<Incident>)
    ensures SumOf(TotalOf, DeathsPerYear(rows)) == SumOf(FatalitiesOf, rows)
    ensures (forall i :: 0 <= i < |rows| ==> rows[i].fatalities >= 0) ==>
      HumanCost.TotalFatalities(rows) <= SumOf(TotalOf, DeathsPerYear(rows))
  {
    PerYearAddsUp(rows, FatalitiesOf);
    if forall i :: 0 <= i < |rows| ==> rows[i].fatalities >= 0 {
      HumanCost.FatalityTotalAtMostColumn(rows);
    }
  }

  /** Acres burned per year add up to the AcresBurned column of the whole table. */
  lemma AcresPerYearAddUp(rows: seq<Incident>)
    ensures SumOf(TotalOf, AcresPerYear(rows)) == SumOf(AcresOf, rows)
  {
    PerYearAddsUp(rows, AcresOf);
  }

  /** A year's fire count is the number of rows of that year, and at least one. */
  lemma FiresPerYearEntry(rows: seq<Incident>, i: nat)
    requires i < |FiresPerYear(rows)|
    ensures FiresPerYear(rows)[i].total == |OfYear(rows, FiresPerYear(rows)[i].year)| >= 1
  {
    var ys := Years(rows);
    var y := ys[i];
    assert FiresPerYear(rows)[i] == YearTotal(y, SumOf(One, OfYear(rows, y)));
    SumOfOne(OfYear(rows, y));
    YearsSpec(rows);
    assert y in ys;
    var k :| 0 <= k < |rows| && rows[k].year == y;
    FilterMembers(KeyIs(YearOf, y), rows);
    assert KeyIs(YearOf, y)(rows[k]);
    assert rows[k] in OfYear(rows, y);
  }

  /** The fire counts add up to the number of rows. */
  lemma FiresPerYearAddUp(rows: seq<Incident>)
    ensures SumOf(TotalOf, FiresPerYear(rows)) == |rows|
  {
    PerYearAddsUp(rows, One);
    SumOfOne(rows);
  }
}
