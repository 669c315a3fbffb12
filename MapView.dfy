/** The overview map and table (FinalProject.py, `MapAndFrame`): the range of
    years the slider offers, and the rows shown for a chosen county (or all
    counties) and a chosen range of years. */
module MapView {
  import opened Rows
  import opened Incidents

  /** The county control: the "all counties" checkbox, or one county picked
      from the drop-down list. */
  datatype CountySelection = AllCounties | OneCounty(county: string)

  /** The columns kept for the map and the table. */
  datatype MapRow = MapRow(
    year: int,
    county: string,
    name: string,
    major: bool,
    acres: int,
    location: string,
    lat: real,
    lon: real)

  function ToMapRow(r: Incident): MapRow
  {
    MapRow(r.year, r.county, r.name, r.major, r.acres, r.location, r.lat, r.lon)
  }

  /** The lowest and highest archive year of the table, the ends of the year
      slider; `None` for an empty table, where taking the minimum fails. */
  function YearRange(rows: seq<Incident>): (range: Option<(int, int)>)
    ensures range.None? <==> rows == []
    ensures range.Some? ==>
      forall i :: 0 <= i < |rows| ==> range.value.0 <= rows[i].year <= range.value.1
    ensures range.Some? ==>
      (exists i :: 0 <= i < |rows| && rows[i].year == range.value.0) &&
      (exists j :: 0 <= j < |rows| && rows[j].year == range.value.1)
    decreases |rows|
  {
    if rows == [] then None
    else
      var init, y := rows[..|rows| - 1], rows[|rows| - 1].year;
      match YearRange(init)
      case None => Some((y, y))
      case Some((lo, hi)) =>
        assert forall i :: 0 <= i < |init| ==> init[i] == rows[i];
        Some((if y < lo then y else lo, if y > hi then y else hi))
  }

  /** The county mask. With the checkbox ticked the source compares each row's
      county with the county column itself, which holds for every row. */
  function CountyMask(sel: CountySelection): Incident -> bool
  {
    match sel
    case AllCounties => (r: Incident) => r.county == r.county
    case OneCounty(c) => (r: Incident) => r.county == c
  }

  function FromYear(lo: int): Incident -> bool
  {
    (r: Incident) => r.year >= lo
  }

  function UpToYear(hi: int): Incident -> bool
  {
    (r: Incident) => r.year <= hi
  }

  /** The rows shown: the county mask, then the two ends of the year range. */
  function SelectRows(rows: seq<Incident>, sel: CountySelection, lo: int, hi: int): seq<Incident>
  {
    Filter(UpToYear(hi), Filter(FromYear(lo), Filter(CountyMask(sel), rows)))
  }

  /** What the map and the table display: the kept columns of the selected
      rows, row by row in their order. Every displayed row is of the selected year range and, when one county is
      selected, of that county. */
  function MapView(rows: seq<Incident>, sel: CountySelection, lo: int, hi: int): (view: seq<MapRow>)
    ensures |view| == |SelectRows(rows, sel, lo, hi)|
    ensures forall i :: 0 <= i < |view| ==> view[i] == ToMapRow(SelectRows(rows, sel, lo, hi)[i])
    ensures forall i :: 0 <= i < |view| ==>
      lo <= view[i].year <= hi && (sel.OneCounty? ==> view[i].county == sel.county)
  {
    var selected := SelectRows(rows, sel, lo, hi);
    SelectRowsMembers(rows, sel, lo, hi);
    assert forall i :: 0 <= i < |selected| ==> selected[i] in selected;
    Project(ToMapRow, selected)
  }

  /** A row is shown exactly when it is in the table, matches the county
      selection and has lo <= year <= hi. */
  lemma SelectRowsMembers(rows: seq<Incident>, sel: CountySelection, lo: int, hi: int)
    ensures forall r :: r in SelectRows(rows, sel, lo, hi) <==>
      r in rows && (sel.OneCounty? ==> r.county == sel.county) && lo <= r.year <= hi
  {
    var a := Filter(CountyMask(sel), rows);
    var b := Filter(FromYear(lo), a);
    FilterMembers(CountyMask(sel), rows);
    FilterMembers(FromYear(lo), a);
    FilterMembers(UpToYear(hi), b);
  }

  /** The selection only removes rows and keeps the order of the rest. */
  lemma SelectRowsSubseq(rows: seq<Incident>, sel: CountySelection, lo: int, hi: int)
    ensures SubseqOf(SelectRows(rows, sel, lo, hi), rows)
  {
    var a := Filter(CountyMask(sel), rows);
    var b := Filter(FromYear(lo), a);
    FilterSubseq(CountyMask(sel), rows);
    FilterSubseq(FromYear(lo), a);
    FilterSubseq(UpToYear(hi), b);
    SubseqTrans(b, a, rows);
    SubseqTrans(SelectRows(rows, sel, lo, hi), b, rows);
  }

  /** A range whose low end is above its high end shows nothing. */
  lemma EmptyRangeShowsNothing(rows: seq<Incident>, sel: CountySelection, lo: int, hi: int)
    requires lo > hi
    ensures SelectRows(rows, sel, lo, hi) == []
  {
    var b := Filter(FromYear(lo), Filter(CountyMask(sel), rows));
    FilterAllPass(FromYear(lo), Filter(CountyMask(sel), rows));
    FilterDropsAll(UpToYear(hi), b);
  }

  /** With every county selected, the county mask removes no row: only the
      year range selects. */
  lemma AllCountiesKeepsEveryCounty(rows: seq<Incident>, lo: int, hi: int)
    ensures SelectRows(rows, AllCounties, lo, hi) == Filter(UpToYear(hi), Filter(FromYear(lo), rows))
  {
    FilterKeepsAll(CountyMask(AllCounties), rows);
  }

  /** The view as first shown (every county, the slider at the table's lowest
      and highest year) shows every row of the table, in order. */
  lemma DefaultViewShowsAll(rows: seq<Incident>, lo: int, hi: int)
    requires YearRange(rows) == Some((lo, hi))
    ensures SelectRows(rows, AllCounties, lo, hi) == rows
  {
    AllCountiesKeepsEveryCounty(rows, lo, hi);
    FilterKeepsAll(FromYear(lo), rows);
    FilterKeepsAll(UpToYear(hi), rows);
  }
}
