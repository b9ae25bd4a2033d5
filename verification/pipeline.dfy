/**
 * The whole batch run: deduplicate and pad the source list, filter the
 * reference table, build both indices, join, look up the target year's
 * thresholds and label every source row.
 */
module Pipeline {
  import opened Results
  import opened Issn
  import opened Tables
  import opened Index
  import opened Join
  import opened Quartile

  /** A source row with the joined metrics and its label. */
  datatype Annotated = Annotated(source: SourceRow, cwtsSnip: real, cwtsLowerBound: real, quartile: Label)

  /** Why a run aborts: the threshold table has no row for the year. */
  datatype Error = MissingThresholds(year: int)

  /** Both ISSN fields of a source row padded. */
  function PadRow(row: SourceRow): SourceRow {
    row.(printIssn := Pad(row.printIssn), eIssn := Pad(row.eIssn))
  }

  /**
   * The source list as the join sees it: one row per source id, the row
   * where that id first appears, in the original order, with both ISSN
   * fields padded.
   */
  function PrepareSources(raw: seq<SourceRow>): (r: seq<SourceRow>)
    ensures |r| == |Ids(raw)|
    ensures forall j, k :: 0 <= j < k < |r| ==> r[j].id != r[k].id
    ensures forall j :: 0 <= j < |r| ==>
              r[j].id in Ids(raw) && r[j] == PadRow(raw[FirstIndex(raw, r[j].id)])
    ensures forall j, k :: 0 <= j < k < |r| ==>
              r[j].id in Ids(raw) && r[k].id in Ids(raw) &&
              FirstIndex(raw, r[j].id) < FirstIndex(raw, r[k].id)
    ensures forall j :: 0 <= j < |r| ==> IsPadded(r[j].printIssn) && IsPadded(r[j].eIssn)
  {
    var d := Dedup(raw);
    var r := seq(|d|, i requires 0 <= i < |d| => PadRow(d[i]));
    PaddedFirstOccurrences(raw, d, r);
    r
  }

  /** Padding each deduplicated row keeps the ids, their order and their first rows. */
  lemma PaddedFirstOccurrences(raw: seq<SourceRow>, d: seq<SourceRow>, r: seq<SourceRow>)
    requires KeepsFirstOccurrences(d, raw)
    requires |r| == |d| && forall i :: 0 <= i < |d| ==> r[i] == PadRow(d[i])
    ensures forall j, k :: 0 <= j < k < |r| ==> r[j].id != r[k].id
    ensures forall j :: 0 <= j < |r| ==>
              r[j].id in Ids(raw) && r[j] == PadRow(raw[FirstIndex(raw, r[j].id)])
    ensures forall j, k :: 0 <= j < k < |r| ==>
              r[j].id in Ids(raw) && r[k].id in Ids(raw) &&
              FirstIndex(raw, r[j].id) < FirstIndex(raw, r[k].id)
    ensures forall j :: 0 <= j < |r| ==> IsPadded(r[j].printIssn) && IsPadded(r[j].eIssn)
  {
    forall j | 0 <= j < |r|
      ensures r[j].id == d[j].id
      ensures r[j].id in Ids(raw) && r[j] == PadRow(raw[FirstIndex(raw, r[j].id)])
      ensures IsPadded(r[j].printIssn) && IsPadded(r[j].eIssn)
    {
      PadIsPadded(d[j].printIssn);
      PadIsPadded(d[j].eIssn);
    }
  }

  /** Joins and labels each row, keeping the rows and their order. */
  function Annotate(rows: seq<SourceRow>, idx: Indices, t: Thresholds): (r: seq<Annotated>)
    ensures |r| == |rows|
    ensures forall i :: 0 <= i < |r| ==>
              && r[i].source == rows[i]
              && Entry(r[i].cwtsSnip, r[i].cwtsLowerBound) == JoinRow(rows[i], idx)
              && r[i].quartile == Classify(r[i].cwtsSnip, r[i].cwtsLowerBound, t)
  {
    seq(|rows|, i requires 0 <= i < |rows| =>
      var e := JoinRow(rows[i], idx);
      Annotated(rows[i], e.snip, e.lowerBound, Classify(e.snip, e.lowerBound, t)))
  }

  /** The label column of the output. */
  function Quartiles(rows: seq<Annotated>): (r: seq<Label>)
    ensures |r| == |rows|
    ensures forall i :: 0 <= i < |r| ==> r[i] == rows[i].quartile
  {
    seq(|rows|, i requires 0 <= i < |rows| => rows[i].quartile)
  }

  /**
   * The run. It aborts exactly when the threshold table lacks the target
   * year; otherwise it yields one output row per distinct source id.
   */
  function Run(scopus: seq<SourceRow>, cwts: seq<RefRow>, thresholds: seq<ThresholdRow>)
    : (r: Result<seq<Annotated>, Error>)
    ensures r.Err? <==> forall i :: 0 <= i < |thresholds| ==> thresholds[i].year != TargetYear
    ensures r.Err? ==> r.error == MissingThresholds(TargetYear)
    ensures r.Ok? ==> |r.value| == |Ids(scopus)|
  {
    var sources := PrepareSources(scopus);
    var idx := BuildIndices(FilterEligible(cwts));
    match LookupThresholds(thresholds, TargetYear)
    case None => Err(MissingThresholds(TargetYear))
    case Some(t) => Ok(Annotate(sources, idx, t))
  }

  /**
   * What a successful run yields: each output row is the padded first
   * occurrence of a distinct source id, in order of first appearance,
   * carrying the joined metrics and the label the rule assigns them under
   * the first threshold row of the target year.
   */
  lemma RunRows(scopus: seq<SourceRow>, cwts: seq<RefRow>, thresholds: seq<ThresholdRow>)
    requires Run(scopus, cwts, thresholds).Ok?
    ensures var out := Run(scopus, cwts, thresholds).value;
            && LookupThresholds(thresholds, TargetYear).Some?
            && (forall j, k :: 0 <= j < k < |out| ==> out[j].source.id != out[k].source.id)
            && (forall j :: 0 <= j < |out| ==>
                  out[j].source.id in Ids(scopus) &&
                  out[j].source == PadRow(scopus[FirstIndex(scopus, out[j].source.id)]))
            && (forall j, k :: 0 <= j < k < |out| ==>
                  out[j].source.id in Ids(scopus) && out[k].source.id in Ids(scopus) &&
                  FirstIndex(scopus, out[j].source.id) < FirstIndex(scopus, out[k].source.id))
            && (forall j :: 0 <= j < |out| ==>
                  Entry(out[j].cwtsSnip, out[j].cwtsLowerBound) ==
                  JoinRow(out[j].source, BuildIndices(FilterEligible(cwts))))
            && (forall j :: 0 <= j < |out| ==>
                  out[j].quartile ==
                  Classify(out[j].cwtsSnip, out[j].cwtsLowerBound, LookupThresholds(thresholds, TargetYear).value))
  {
  }

  /** The counts of the summary add up to the number of output rows. */
  lemma RunSummaryIsComplete(scopus: seq<SourceRow>, cwts: seq<RefRow>, thresholds: seq<ThresholdRow>)
    requires Run(scopus, cwts, thresholds).Ok?
    ensures SumCounts(Summary(Quartiles(Run(scopus, cwts, thresholds).value))) == |Ids(scopus)|
  {
  }

  // ---------------------------------------------------------------------
  // A one-journal run: a hyphenated reference ISSN meets the same digits
  // without the hyphen in the source list.

  /** A one-row source list is that row, padded. */
  lemma OneSourcePrepared(s: SourceRow)
    ensures PrepareSources([s]) == [PadRow(s)]
  {
    assert [s][..0] == [];
    assert Dedup([s]) == [s];
  }

  /** A one-row table of an eligible row writes that row's keys, if any. */
  lemma OneRowIndices(x: RefRow)
    requires Eligible(x)
    ensures BuildIndices(FilterEligible([x])) ==
              Indices(Insert(map[], Key(x, Print), EntryOf(x)), Insert(map[], Key(x, Electronic), EntryOf(x)))
  {
    assert [x][..0] == [];
    assert FilterEligible([x]) == [x];
  }

  /** The absent marker offers the empty key, which the index skips. */
  lemma AbsentKeyIsEmpty()
    ensures StripHyphens(Absent) == ""
  {
    StripHyphensFixes("");
    assert Absent == [Hyphen] + "";
  }

  /** An eligible journal with a hyphenated print ISSN and no E-ISSN indexes under the bare digits. */
  lemma HyphenatedIndex(x: RefRow, a: string, b: string)
    requires Hyphen !in a && Hyphen !in b && a + b != ""
    requires Eligible(x) && x.printIssn == a + [Hyphen] + b && x.electronicIssn == Absent
    ensures BuildIndices(FilterEligible([x])) == Indices(map[a + b := EntryOf(x)], map[])
  {
    StripSeparator(a, b);
    AbsentKeyIsEmpty();
    OneRowIndices(x);
  }

  /** A source row with one print ISSN and no E-ISSN finds the entry under that ISSN. */
  lemma SinglePrintIssnJoin(s: SourceRow, e: Entry)
    requires Space !in s.printIssn && s.printIssn != Absent && s.eIssn == Absent
    ensures JoinRow(s, Indices(map[s.printIssn := e], map[])) == e
  {
    SplitNoSpace(s.printIssn);
    assert PrintIds(s) == [s.printIssn];
  }

  /**
   * A source whose print ISSN is a journal's print ISSN with the hyphen
   * removed, both without an E-ISSN, receives the journal's SNIP and lower
   * bound and the label the rule gives them.
   */
  lemma HyphenatedIssnMatches(s: SourceRow, x: RefRow, a: string, b: string,
                              thresholds: seq<ThresholdRow>, t: Thresholds)
    requires Hyphen !in a && Hyphen !in b && Space !in a && Space !in b
    requires |a + b| >= Width
    requires Eligible(x) && x.printIssn == a + [Hyphen] + b && x.electronicIssn == Absent
    requires s.printIssn == a + b && s.eIssn == Absent
    requires LookupThresholds(thresholds, TargetYear) == Some(t)
    ensures Run([s], [x], thresholds) ==
              Ok([Annotated(s, x.snip, x.lowerBound, Classify(x.snip, x.lowerBound, t))])
  {
    PaddedSourceUnchanged(s);
    OneSourcePrepared(s);
    HyphenatedIndex(x, a, b);
    SinglePrintIssnJoin(s, EntryOf(x));
    OneRowAnnotated(s, Indices(map[a + b := EntryOf(x)], map[]), t);
    RunOfParts([s], [x], thresholds, [s], Indices(map[a + b := EntryOf(x)], map[]), t);
  }

  /** Padding leaves a row alone when both its ISSN fields are already padded. */
  lemma PaddedSourceUnchanged(s: SourceRow)
    requires IsPadded(s.printIssn) && IsPadded(s.eIssn)
    ensures PadRow(s) == s
  {
  }

  /** Annotating a single row joins it and labels the joined values. */
  lemma OneRowAnnotated(s: SourceRow, idx: Indices, t: Thresholds)
    ensures var e := JoinRow(s, idx);
            Annotate([s], idx, t) == [Annotated(s, e.snip, e.lowerBound, Classify(e.snip, e.lowerBound, t))]
  {
  }

  const ExampleSource: SourceRow := SourceRow(1, "Example Journal", 2.0, "12345678", "-")
  const ExampleJournal: RefRow := RefRow("Example Journal", "1234-5678", "-", 4.0, 3.5, "Journal", 2020)
  const ExampleThresholds: seq<ThresholdRow> := [ThresholdRow(2020, 3.0, 1.5)]

  /** The one-journal run on concrete values: SNIP 4.0 against boundaries 3.0 and 1.5 is Q1. */
  lemma EndToEndExample()
    ensures Run([ExampleSource], [ExampleJournal], ExampleThresholds) ==
              Ok([Annotated(ExampleSource, 4.0, 3.5, Q1)])
  {
    var a, b := "1234", "5678";
    assert a + [Hyphen] + b == ExampleJournal.printIssn;
    assert a + b == ExampleSource.printIssn;
    HyphenatedIssnMatches(ExampleSource, ExampleJournal, a, b, ExampleThresholds, Thresholds(3.0, 1.5));
  }

  /** A successful run is the annotation of the prepared sources against the built indices. */
  lemma RunOfParts(scopus: seq<SourceRow>, cwts: seq<RefRow>, thresholds: seq<ThresholdRow>,
                   sources: seq<SourceRow>, idx: Indices, t: Thresholds)
    requires PrepareSources(scopus) == sources
    requires BuildIndices(FilterEligible(cwts)) == idx
    requires LookupThresholds(thresholds, TargetYear) == Some(t)
    ensures Run(scopus, cwts, thresholds) == Ok(Annotate(sources, idx, t))
  {
  }
}
