/** The human cost view (FinalProject.py, `HumanCost`): the deduplicated list
    of fatal incidents with one sentence each, the three headline totals, and
    the deaths-per-year series (in module PerYear). */
module HumanCost {
  import opened Rows
  import opened Text
  import opened Incidents

  /** The four columns the fatality list keeps. */
  datatype FatalRow = FatalRow(name: string, year: int, fatalities: int, injuries: int)

  function ToFatalRow(r: Incident): FatalRow
  {
    FatalRow(r.name, r.year, r.fatalities, r.injuries)
  }

  predicate IsFatal(f: FatalRow) { f.fatalities > 0 }

  function FatalCount(f: FatalRow): int { f.fatalities }

  /** The four kept columns of the rows with at least one fatality, before duplicates are dropped. */
  function FatalRows(rows: seq<Incident>): seq<FatalRow>
  {
    Filter(IsFatal, Project(ToFatalRow, rows))
  }

  /** The fatality list: the four kept columns of the rows with a fatality,
      with rows that agree on all four kept once. */
  function FatalitySubset(rows: seq<Incident>): seq<FatalRow>
  {
    Dedup(FatalRows(rows))
  }

  /** The fatality list holds only rows with Fatalities > 0, holds no two
      equal rows, and lists them in table order. */
  lemma FatalitySubsetSpec(rows: seq<Incident>)
    ensures forall i :: 0 <= i < |FatalitySubset(rows)| ==> FatalitySubset(rows)[i].fatalities > 0
    ensures Distinct(FatalitySubset(rows))
    ensures SubseqOf(FatalitySubset(rows), Project(ToFatalRow, rows))
  {
    var projected := Project(ToFatalRow, rows);
    var fatal := FatalRows(rows);
    var subset := FatalitySubset(rows);
    FilterMembers(IsFatal, projected);
    DedupMembers(fatal);
    DedupDistinct(fatal);
    forall i | 0 <= i < |subset|
      ensures subset[i].fatalities > 0
    {
      assert subset[i] in fatal;
    }
    FilterSubseq(IsFatal, projected);
    DedupSubseq(fatal);
    SubseqTrans(subset, fatal, projected);
  }

  /** The fatal rows of a prefix that ends with a fatal row: those of the
      shorter prefix followed by that row, and a prefix of the table's own. */
  lemma FatalRowsSnoc(rows: seq<Incident>, i: nat)
    requires i < |rows| && rows[i].fatalities > 0
    ensures FatalRows(rows[..i + 1]) == FatalRows(rows[..i]) + [ToFatalRow(rows[i])]
    ensures FatalRows(rows[..i + 1]) <= FatalRows(rows)
  {
    assert rows[..i + 1] == rows[..i] + [rows[i]];
    ProjectSnoc(ToFatalRow, rows[..i], rows[i]);
    FilterSnoc(IsFatal, Project(ToFatalRow, rows[..i]), ToFatalRow(rows[i]));
    FilterPrefix(IsFatal, Project(ToFatalRow, rows), i + 1);
    assert Project(ToFatalRow, rows)[..i + 1] == Project(ToFatalRow, rows[..i + 1]);
  }

  /** Dropping duplicates keeps the first copy: a fatal row whose kept columns
      appear in no earlier fatal row is listed right after the rows listed
      from the table before it. This fixes the order of the sentences. */
  lemma FatalitySubsetKeepsFirst(rows: seq<Incident>, i: nat)
    requires i < |rows| && rows[i].fatalities > 0
    requires ToFatalRow(rows[i]) !in FatalRows(rows[..i])
    ensures |FatalitySubset(rows[..i])| < |FatalitySubset(rows[..i + 1])|
    ensures FatalitySubset(rows[..i + 1]) <= FatalitySubset(rows)
    ensures FatalitySubset(rows)[|FatalitySubset(rows[..i])|] == ToFatalRow(rows[i])
  {
    var f := ToFatalRow(rows[i]);
    var before := FatalRows(rows[..i]);
    var fatal := FatalRows(rows);
    var j := |before|;
    FatalRowsSnoc(rows, i);
    assert fatal[..j + 1] == before + [f];
    assert fatal[..j] == before && fatal[j] == f;
    DedupSnoc(before, f);
    DedupPrefix(fatal, j + 1);
  }

  /** A row is in the fatality list exactly when it is the four kept columns
      of some table row with a fatality. */
  lemma FatalitySubsetMembers(rows: seq<Incident>)
    ensures forall f :: f in FatalitySubset(rows) <==>
      exists i :: 0 <= i < |rows| && rows[i].fatalities > 0 && ToFatalRow(rows[i]) == f
  {
    var projected := Project(ToFatalRow, rows);
    var fatal := FatalRows(rows);
    FilterMembers(IsFatal, projected);
    DedupMembers(fatal);
    forall f
      ensures f in FatalitySubset(rows) <==>
        exists i :: 0 <= i < |rows| && rows[i].fatalities > 0 && ToFatalRow(rows[i]) == f
    {
      if f in FatalitySubset(rows) {
        var i :| 0 <= i < |projected| && projected[i] == f;
        assert rows[i].fatalities > 0 && ToFatalRow(rows[i]) == f;
      }
      if exists i :: 0 <= i < |rows| && rows[i].fatalities > 0 && ToFatalRow(rows[i]) == f {
        var i :| 0 <= i < |rows| && rows[i].fatalities > 0 && ToFatalRow(rows[i]) == f;
        assert projected[i] == f;
      }
    }
  }

  // ---------------------------------------------------------------------
  // The sentences
  // ---------------------------------------------------------------------

  const SingularEnding: string := " person lost their life."
  const PluralEnding: string := " people lost their lives."

  /** The sentence written for one fatal incident. */
  function Narrative(f: FatalRow): string
  {
    "During the " + f.name + " of " + IntText(f.year) + ", " + IntText(f.fatalities) +
    (if f.fatalities == 1 then SingularEnding else PluralEnding)
  }

  /** The sentence uses the singular wording exactly when one person died. */
  lemma NarrativeWording(f: FatalRow)
    ensures EndsWith(Narrative(f), SingularEnding) <==> f.fatalities == 1
    ensures EndsWith(Narrative(f), PluralEnding) <==> f.fatalities != 1
  {
    var s := Narrative(f);
    var head := "During the " + f.name + " of " + IntText(f.year) + ", " + IntText(f.fatalities);
    if f.fatalities == 1 {
      assert s == head + SingularEnding;
      assert s[|s| - |SingularEnding|..] == SingularEnding;
      assert s[|s| - 2] == 'e';
      assert PluralEnding[|PluralEnding| - 2] == 's';
    } else {
      assert s == head + PluralEnding;
      assert s[|s| - |PluralEnding|..] == PluralEnding;
      assert s[|s| - 2] == 's';
      assert SingularEnding[|SingularEnding| - 2] == 'e';
    }
  }

  /** The sentence reports the incident's year and death toll as decimal
      numbers that read back as exactly those values. */
  lemma NarrativeNumbers(f: FatalRow)
    ensures exists yearText, tollText ::
      IsIntText(yearText) && IntValue(yearText) == f.year &&
      IsIntText(tollText) && IntValue(tollText) == f.fatalities &&
      Narrative(f) == "During the " + f.name + " of " + yearText + ", " + tollText +
        (if f.fatalities == 1 then SingularEnding else PluralEnding)
  {
    IntTextRoundTrip(f.year);
    IntTextRoundTrip(f.fatalities);
    var yearText, tollText := IntText(f.year), IntText(f.fatalities);
    assert IsIntText(yearText) && IntValue(yearText) == f.year;
    assert IsIntText(tollText) && IntValue(tollText) == f.fatalities;
  }

  /** The sentences written while walking the fatality list: one per row, in
      its order. Applied to `FatalitySubset(rows)` this is the left column of
      the view. */
  method Narratives(subset: seq<FatalRow>) returns (lines: seq<string>)
    ensures |lines| == |subset|
    ensures forall i :: 0 <= i < |subset| ==> lines[i] == Narrative(subset[i])
  {
    lines := [];
    for i := 0 to |subset|
      invariant |lines| == i
      invariant forall k :: 0 <= k < i ==> lines[k] == Narrative(subset[k])
    {
      var line := Narrative(subset[i]);
      lines := lines + [line];
    }
  }

  // ---------------------------------------------------------------------
  // The headline totals
  // ---------------------------------------------------------------------

  /** People injured: the Injuries column summed over the whole table. */
  function TotalInjuries(rows: seq<Incident>): int
  {
    SumOf(InjuriesOf, rows)
  }

  /** People killed: the Fatalities column summed over the fatality list, so
      equal fatal rows are counted once. It is the sum of the death tolls the
      sentences report, and at least one per listed incident. */
  function TotalFatalities(rows: seq<Incident>): (total: int)
    ensures total >= |FatalitySubset(rows)|
  {
    FatalitySubsetSpec(rows);
    SumOfPositive(FatalCount, FatalitySubset(rows));
    SumOf(FatalCount, FatalitySubset(rows))
  }

  /** Personnel involved: the PersonnelInvolved column summed over the whole table. */
  function TotalPersonnel(rows: seq<Incident>): int
  {
    SumOf(PersonnelOf, rows)
  }

  /** Adding a row to the table adds its injuries and personnel to those totals,
      even when the row is a copy of an earlier one. */
  lemma WholeTableTotalsCountEveryRow(rows: seq<Incident>, r: Incident)
    ensures TotalInjuries(rows + [r]) == TotalInjuries(rows) + r.injuries
    ensures TotalPersonnel(rows + [r]) == TotalPersonnel(rows) + r.personnel
  {
    SumOfSnoc(InjuriesOf, rows, r);
    SumOfSnoc(PersonnelOf, rows, r);
  }

  /** Adding a row to the table adds its fatalities to the fatality total only
      when it has some and no listed row agrees with it on name, year,
      fatalities and injuries. */
  lemma FatalityTotalCountsOnce(rows: seq<Incident>, r: Incident)
    ensures TotalFatalities(rows + [r]) ==
      TotalFatalities(rows) +
      (if r.fatalities > 0 && ToFatalRow(r) !in FatalitySubset(rows) then r.fatalities else 0)
  {
    var f := ToFatalRow(r);
    ProjectSnoc(ToFatalRow, rows, r);
    FilterSnoc(IsFatal, Project(ToFatalRow, rows), f);
    var fatal := FatalRows(rows);
    DedupMembers(fatal);
    if r.fatalities > 0 {
      assert FatalRows(rows + [r]) == fatal + [f];
      DedupSnoc(fatal, f);
      if f !in fatal {
        assert FatalitySubset(rows + [r]) == Dedup(fatal) + [f];
        SumOfSnoc(FatalCount, Dedup(fatal), f);
      } else {
        assert FatalitySubset(rows + [r]) == Dedup(fatal);
      }
    } else {
      assert FatalRows(rows + [r]) == fatal;
      assert FatalitySubset(rows + [r]) == FatalitySubset(rows);
    }
  }

  /** With no negative fatality counts, the fatality total never exceeds the
      Fatalities column summed over the whole table. */
  lemma FatalityTotalAtMostColumn(rows: seq<Incident>)
    requires forall i :: 0 <= i < |rows| ==> rows[i].fatalities >= 0
    ensures TotalFatalities(rows) <= SumOf(FatalitiesOf, rows)
  {
    var projected := Project(ToFatalRow, rows);
    FatalitySubsetSpec(rows);
    SumOfSubseq(FatalCount, FatalitySubset(rows), projected);
    SumOfProject(FatalCount, ToFatalRow, FatalitiesOf, rows);
  }

  /** With no negative fatality counts and no two fatal rows agreeing on name,
      year, fatalities and injuries, the fatality total is the Fatalities
      column summed over the whole table. */
  lemma FatalityTotalIsColumnWithoutCopies(rows: seq<Incident>)
    requires forall i :: 0 <= i < |rows| ==> rows[i].fatalities >= 0
    requires Distinct(FatalRows(rows))
    ensures TotalFatalities(rows) == SumOf(FatalitiesOf, rows)
  {
    var projected := Project(ToFatalRow, rows);
    DedupOfDistinct(FatalRows(rows));
    SumOfFilterZeros(IsFatal, FatalCount, projected);
    SumOfProject(FatalCount, ToFatalRow, FatalitiesOf, rows);
  }
}
