/**
 * The join of the source list against the two indices: each source row's
 * print ISSN candidates are probed against the print index, then its E-ISSN
 * candidates against the electronic index, and the first hit of each pass
 * supplies the SNIP and lower bound. Unmatched rows keep zero.
 */
module Join {
  import opened Results
  import opened Issn
  import opened Tables
  import opened Index

  /** The values a row starts with before any pass finds a match. */
  const Zero: Entry := Entry(0.0, 0.0)

  /** The position of the first candidate present in the index, if any. */
  function FirstHit(ids: seq<string>, idx: map<string, Entry>): (r: Option<nat>)
    ensures r.None? <==> forall i :: 0 <= i < |ids| ==> ids[i] !in idx
    ensures r.Some? ==>
              && r.value < |ids|
              && ids[r.value] in idx
              && forall j :: 0 <= j < r.value ==> ids[j] !in idx
  {
    if |ids| == 0 then None
    else if ids[0] in idx then Some(0)
    else
      match FirstHit(ids[1..], idx)
      case None => None
      case Some(k) => Some(k + 1)
  }

  /** The entry of the first candidate present in the index (the loop with `break`). */
  function Lookup(ids: seq<string>, idx: map<string, Entry>): (r: Option<Entry>)
    ensures r.None? <==> forall i :: 0 <= i < |ids| ==> ids[i] !in idx
    ensures r.Some? ==> exists i :: 0 <= i < |ids| && ids[i] in idx && r.value == idx[ids[i]] &&
                                    forall j :: 0 <= j < i ==> ids[j] !in idx
  {
    match FirstHit(ids, idx)
    case None => None
    case Some(i) => Some(idx[ids[i]])
  }

  // ---------------------------------------------------------------------
  // Python's `~` applied to a bool.

  /** A Python bool used as an integer. */
  function BoolToInt(b: bool): int {
    if b then 1 else 0
  }

  /**
   * Python's `~` on a bool: bitwise complement of the integer 0 or 1, which
   * is -1 or -2, never 0, so the result is always truthy.
   */
  function BitNot(b: bool): (r: int)
    ensures r == -BoolToInt(b) - 1
    ensures r != 0
  {
    if b then -2 else -1
  }

  /** Python truthiness of an integer. */
  predicate Truthy(x: int) {
    x != 0
  }

  // ---------------------------------------------------------------------
  // The join, as written and as evidently intended.

  function PrintIds(row: SourceRow): seq<string> {
    Candidates(row.printIssn)
  }

  function ElectronicIds(row: SourceRow): seq<string> {
    Candidates(row.eIssn)
  }

  /**
   * The values the join loop leaves on a source row, following the code as
   * written: the print pass runs first, and since `~found_in_issn` is always
   * truthy the electronic pass always runs after it, so an electronic hit
   * overwrites a print hit. A print hit survives only when no E-ISSN matches.
   */
  function JoinRow(row: SourceRow, idx: Indices): (r: Entry)
    ensures Lookup(ElectronicIds(row), idx.eissn).Some? ==>
              r == Lookup(ElectronicIds(row), idx.eissn).value
    ensures Lookup(ElectronicIds(row), idx.eissn).None? && Lookup(PrintIds(row), idx.issn).Some? ==>
              r == Lookup(PrintIds(row), idx.issn).value
    ensures Lookup(ElectronicIds(row), idx.eissn).None? && Lookup(PrintIds(row), idx.issn).None? ==>
              r == Zero
  {
    var printHit := Lookup(PrintIds(row), idx.issn);
    var foundInIssn := printHit.Some?;
    var afterPrint := if foundInIssn then printHit.value else Zero;
    if Truthy(BitNot(foundInIssn)) then
      match Lookup(ElectronicIds(row), idx.eissn)
      case Some(e) => e
      case None => afterPrint
    else
      afterPrint
  }

  /**
   * The join with the evident intent of the `found_in_issn` flag: the
   * electronic pass runs only when no print ISSN matched.
   */
  function JoinRowPrintFirst(row: SourceRow, idx: Indices): (r: Entry)
    ensures Lookup(PrintIds(row), idx.issn).Some? ==>
              r == Lookup(PrintIds(row), idx.issn).value
    ensures Lookup(PrintIds(row), idx.issn).None? && Lookup(ElectronicIds(row), idx.eissn).Some? ==>
              r == Lookup(ElectronicIds(row), idx.eissn).value
    ensures Lookup(PrintIds(row), idx.issn).None? && Lookup(ElectronicIds(row), idx.eissn).None? ==>
              r == Zero
  {
    var printHit := Lookup(PrintIds(row), idx.issn);
    if printHit.Some? then printHit.value
    else
      match Lookup(ElectronicIds(row), idx.eissn)
      case Some(e) => e
      case None => Zero
  }

  /**
   * The two joins disagree exactly when both passes hit and the two hits
   * carry different values.
   */
  lemma JoinVariantsDiffer(row: SourceRow, idx: Indices)
    ensures JoinRow(row, idx) != JoinRowPrintFirst(row, idx) <==>
              && Lookup(PrintIds(row), idx.issn).Some?
              && Lookup(ElectronicIds(row), idx.eissn).Some?
              && Lookup(PrintIds(row), idx.issn).value != Lookup(ElectronicIds(row), idx.eissn).value
  {
  }

  /** A source row with both fields absent is never matched and keeps zero. */
  lemma AbsentFieldsJoinToZero(row: SourceRow, idx: Indices)
    requires row.printIssn == Absent && row.eIssn == Absent
    ensures JoinRow(row, idx) == Zero
  {
  }

  /**
   * A candidate that still carries a hyphen, or an empty candidate left by
   * two adjacent spaces, never matches an index built from reference rows,
   * because the source identifiers are not hyphen-stripped.
   */
  lemma UnstrippedCandidateNeverMatches(rows: seq<RefRow>, kind: IdKind, id: string)
    requires id == "" || Hyphen in id
    ensures id !in BuildIndex(rows, kind)
  {
    if id in BuildIndex(rows, kind) {
      IndexKeysAreClean(rows, kind, id);
    }
  }

  /** A concrete row on which the code as written and the intended join differ. */
  lemma ElectronicOverridesPrintExample()
    ensures var idx := Indices(map["11111111" := Entry(1.0, 0.5)], map["22222222" := Entry(3.0, 2.5)]);
            var row := SourceRow(7, "Journal of Examples", 1.2, "11111111", "22222222");
            && JoinRow(row, idx) == Entry(3.0, 2.5)
            && JoinRowPrintFirst(row, idx) == Entry(1.0, 0.5)
  {
    var idx := Indices(map["11111111" := Entry(1.0, 0.5)], map["22222222" := Entry(3.0, 2.5)]);
    var row := SourceRow(7, "Journal of Examples", 1.2, "11111111", "22222222");
    SplitNoSpace("11111111");
    SplitNoSpace("22222222");
  }
}
