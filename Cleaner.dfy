/** The cleaning step run once when the dashboard loads its table: drop the
    rows whose coordinates fall outside a box around California, drop the rows
    that describe fires outside the state, then drop exact duplicate rows,
    keeping the first copy (FinalProject.py, `dfClean`, lines 7-24).

    The source drops rows from the table in place, one mask at a time; here
    each step is a method with a loop that builds the table of surviving
    rows, proved equal to a specification function, and the properties the
    cleaning promises are proved about that function. */
module Cleaner {
  import opened Rows
  import opened Text
  import opened Incidents

  const NorthLimit: real := 44.0
  const SouthLimit: real := 30.0
  const EastLimit: real := -115.0

  /** The one record that is excluded by its canonical URL. */
  const TramFireUrl: string := "/incidents/2013/8/6/tram-fire/"

  /** The county values that mark a record as outside California. */
  const ExcludedCounties: seq<string> := ["Nevada", "State of Oregon", "Mexico"]

  /** The text whose presence in the location marks a record as outside California. */
  const ExcludedLocationText: string := "Nevada"

  /** The mask of rows with invalid coordinates. */
  predicate BadLocation(r: Incident)
  {
    r.lat > NorthLimit || r.lat < SouthLimit || r.lon > EastLimit
  }

  /** The mask of rows describing fires outside the state. */
  predicate OutOfState(r: Incident)
  {
    r.county in ExcludedCounties ||
    r.url == TramFireUrl ||
    Contains(r.location, ExcludedLocationText)
  }

  predicate InBox(r: Incident) { !BadLocation(r) }

  predicate InState(r: Incident) { !OutOfState(r) }

  /** A row that belongs in the cleaned table. */
  predicate Canonical(r: Incident) { InBox(r) && InState(r) }

  /** The cleaned table: the three steps in the order the source applies them. */
  function Cleaned(raw: seq<Incident>): seq<Incident>
  {
    Dedup(Filter(InState, Filter(InBox, raw)))
  }

  // ---------------------------------------------------------------------
  // The cleaning steps
  // ---------------------------------------------------------------------

  /** Drops the rows with latitude above 44, latitude below 30 or longitude above -115. */
  method DropBadLocations(rows: seq<Incident>) returns (kept: seq<Incident>)
    ensures kept == Filter(InBox, rows)
  {
    kept := [];
    for i := 0 to |rows|
      invariant kept == Filter(InBox, rows[..i])
    {
      assert rows[..i + 1] == rows[..i] + [rows[i]];
      FilterSnoc(InBox, rows[..i], rows[i]);
      if !BadLocation(rows[i]) {
        kept := kept + [rows[i]];
      }
    }
    assert rows[..|rows|] == rows;
  }

  /** Drops the rows of an excluded county, of the excluded URL, or whose
      location mentions Nevada. */
  method DropOutOfState(rows: seq<Incident>) returns (kept: seq<Incident>)
    ensures kept == Filter(InState, rows)
  {
    kept := [];
    for i := 0 to |rows|
      invariant kept == Filter(InState, rows[..i])
    {
      assert rows[..i + 1] == rows[..i] + [rows[i]];
      FilterSnoc(InState, rows[..i], rows[i]);
      if !OutOfState(rows[i]) {
        kept := kept + [rows[i]];
      }
    }
    assert rows[..|rows|] == rows;
  }

  /** Drops every row equal to an earlier row. */
  method DropDuplicates(rows: seq<Incident>) returns (kept: seq<Incident>)
    ensures kept == Dedup(rows)
  {
    kept := [];
    for i := 0 to |rows|
      invariant kept == Dedup(rows[..i])
    {
      assert rows[..i + 1] == rows[..i] + [rows[i]];
      DedupSnoc(rows[..i], rows[i]);
      DedupMembers(rows[..i]);
      if rows[i] !in kept {
        kept := kept + [rows[i]];
      }
    }
    assert rows[..|rows|] == rows;
  }

  /** The cleaning step as a whole: every surviving row lies in the box and in
      the state, no two surviving rows are equal, the surviving rows appear in
      the input in the same order, and a row of the input survives exactly
      when it lies in the box and in the state. */
  method Clean(raw: seq<Incident>) returns (table: seq<Incident>)
    ensures table == Cleaned(raw)
    ensures forall i :: 0 <= i < |table| ==> Canonical(table[i])
    ensures Distinct(table)
    ensures SubseqOf(table, raw)
    ensures forall r :: r in table <==> r in raw && Canonical(r)
  {
    var located := DropBadLocations(raw);
    var inState := DropOutOfState(located);
    table := DropDuplicates(inState);
    CleanedCanonical(raw);
    CleanedDistinct(raw);
    CleanedSubseq(raw);
    CleanedMembers(raw);
  }

  // ---------------------------------------------------------------------
  // Properties of the cleaned table
  // ---------------------------------------------------------------------

  /** Every cleaned row has 30 <= lat <= 44 and lon <= -115, is not of an
      excluded county or the excluded URL, and its location does not mention Nevada. */
  lemma CleanedCanonical(raw: seq<Incident>)
    ensures forall i :: 0 <= i < |Cleaned(raw)| ==>
      var r := Cleaned(raw)[i];
      SouthLimit <= r.lat <= NorthLimit && r.lon <= EastLimit &&
      r.county !in ExcludedCounties && r.url != TramFireUrl &&
      !(exists k :: OccursAt(r.location, ExcludedLocationText, k))
    ensures forall i :: 0 <= i < |Cleaned(raw)| ==> Canonical(Cleaned(raw)[i])
  {
    var located := Filter(InBox, raw);
    var inState := Filter(InState, located);
    FilterMembers(InBox, raw);
    FilterMembers(InState, located);
    DedupMembers(inState);
    forall i | 0 <= i < |Cleaned(raw)|
      ensures Canonical(Cleaned(raw)[i])
      ensures !(exists k :: OccursAt(Cleaned(raw)[i].location, ExcludedLocationText, k))
    {
      var r := Cleaned(raw)[i];
      assert r in Cleaned(raw);
      ContainsIff(r.location, ExcludedLocationText);
    }
  }

  /** No two rows of the cleaned table are equal. */
  lemma CleanedDistinct(raw: seq<Incident>)
    ensures Distinct(Cleaned(raw))
  {
    DedupDistinct(Filter(InState, Filter(InBox, raw)));
  }

  /** Cleaning only removes rows: its result is an order-preserving subsequence of its input. */
  lemma CleanedSubseq(raw: seq<Incident>)
    ensures SubseqOf(Cleaned(raw), raw)
  {
    var located := Filter(InBox, raw);
    var inState := Filter(InState, located);
    FilterSubseq(InBox, raw);
    FilterSubseq(InState, located);
    DedupSubseq(inState);
    SubseqTrans(inState, located, raw);
    SubseqTrans(Cleaned(raw), inState, raw);
  }

  /** A row is in the cleaned table exactly when it is in the input and passes
      both masks: no row that passes them is lost, whatever copies it has. */
  lemma CleanedMembers(raw: seq<Incident>)
    ensures forall r :: r in Cleaned(raw) <==> r in raw && Canonical(r)
  {
    var located := Filter(InBox, raw);
    FilterMembers(InBox, raw);
    FilterMembers(InState, located);
    DedupMembers(Filter(InState, located));
  }

  /** The first copy of a row that passes both masks is kept, and it comes
      right after the rows kept from the part of the input before it. */
  lemma CleanedKeepsFirst(raw: seq<Incident>, i: nat)
    requires i < |raw| && Canonical(raw[i]) && raw[i] !in raw[..i]
    ensures |Cleaned(raw[..i])| < |Cleaned(raw)|
    ensures Cleaned(raw)[|Cleaned(raw[..i])|] == raw[i]
  {
    var pre, x := raw[..i], raw[i];
    assert raw[..i + 1] == pre + [x];
    FilterSnoc(InBox, pre, x);
    FilterSnoc(InState, Filter(InBox, pre), x);
    var f := Filter(InState, Filter(InBox, pre));
    CleanedMembers(pre);
    DedupMembers(f);
    DedupSnoc(f, x);
    assert Cleaned(raw[..i + 1]) == Cleaned(pre) + [x];
    CleanedPrefix(raw, i + 1);
  }

  /** Cleaning a prefix of the input gives a prefix of the cleaned table. */
  lemma CleanedPrefix(raw: seq<Incident>, i: nat)
    requires i <= |raw|
    ensures Cleaned(raw[..i]) <= Cleaned(raw)
  {
    var a := Filter(InBox, raw);
    FilterPrefix(InBox, raw, i);
    var j := |Filter(InBox, raw[..i])|;
    assert a[..j] == Filter(InBox, raw[..i]);
    FilterPrefix(InState, a, j);
    var b := Filter(InState, a);
    var k := |Filter(InState, a[..j])|;
    assert b[..k] == Filter(InState, a[..j]);
    DedupPrefix(b, k);
  }

  /** Cleaning is idempotent: cleaning a cleaned table removes nothing. */
  lemma CleanedIdempotent(raw: seq<Incident>)
    ensures Cleaned(Cleaned(raw)) == Cleaned(raw)
  {
    var c := Cleaned(raw);
    CleanedCanonical(raw);
    CleanedDistinct(raw);
    FilterKeepsAll(InBox, c);
    FilterKeepsAll(InState, c);
    DedupOfDistinct(c);
  }

  /** The order of the three steps does not matter: removing duplicates first,
      or applying the two masks the other way round, gives the same table. */
  lemma CleanedOrderIrrelevant(raw: seq<Incident>)
    ensures Cleaned(raw) == Filter(InBox, Filter(InState, Dedup(raw)))
  {
    FilterCommute(InState, InBox, raw);
    DedupFilterCommute(InBox, Filter(InState, raw));
    DedupFilterCommute(InState, raw);
  }

  /** A row with latitude outside [30, 44] is removed whatever its other fields hold. */
  lemma BadLatitudeRemoved(raw: seq<Incident>, r: Incident)
    requires r.lat > NorthLimit || r.lat < SouthLimit
    ensures r !in Cleaned(raw)
  {
    CleanedMembers(raw);
  }
}
