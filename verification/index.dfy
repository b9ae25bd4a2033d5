/**
 * The two lookup tables built from the eligible reference rows: one keyed by
 * the hyphen-stripped print ISSN, one by the hyphen-stripped electronic ISSN,
 * each mapping to the row's SNIP and SNIP lower bound. The first row to
 * claim a key keeps it.
 */
module Index {
  import opened Issn
  import opened Tables

  datatype IdKind = Print | Electronic

  /** What an index holds for a key: the SNIP and its lower bound. */
  datatype Entry = Entry(snip: real, lowerBound: real)

  /** Both lookup tables, as the script holds them side by side. */
  datatype Indices = Indices(issn: map<string, Entry>, eissn: map<string, Entry>)

  function RawIssn(row: RefRow, kind: IdKind): string {
    match kind
    case Print => row.printIssn
    case Electronic => row.electronicIssn
  }

  /** The key a reference row offers to the index of the given kind. */
  function Key(row: RefRow, kind: IdKind): string {
    StripHyphens(RawIssn(row, kind))
  }

  function EntryOf(row: RefRow): Entry {
    Entry(row.snip, row.lowerBound)
  }

  /** Every key the rows offer for one kind, the empty one included. */
  function Keys(rows: seq<RefRow>, kind: IdKind): set<string> {
    set i | 0 <= i < |rows| :: Key(rows[i], kind)
  }

  /** Row `i` is the first row offering its key. */
  predicate FirstWithKey(rows: seq<RefRow>, kind: IdKind, i: nat)
    requires i < |rows|
  {
    forall j :: 0 <= j < i ==> Key(rows[j], kind) != Key(rows[i], kind)
  }

  /**
   * One write of the loop: `e` goes under `key` unless the key is empty or
   * already taken. Entries already present never change.
   */
  function Insert(m: map<string, Entry>, key: string, e: Entry): (r: map<string, Entry>)
    ensures r.Keys == if key == "" then m.Keys else m.Keys + {key}
    ensures forall k :: k in m ==> r[k] == m[k]
    ensures key != "" && key !in m ==> r[key] == e
  {
    if key != "" && key !in m then m[key := e] else m
  }

  /** The index of one kind: the loop's writes for that kind, row by row. */
  function BuildIndex(rows: seq<RefRow>, kind: IdKind): (idx: map<string, Entry>)
    ensures forall k :: k in idx <==> k != "" && k in Keys(rows, kind)
    ensures forall i :: 0 <= i < |rows| && FirstWithKey(rows, kind, i) && Key(rows[i], kind) != "" ==>
              Key(rows[i], kind) in idx && idx[Key(rows[i], kind)] == EntryOf(rows[i])
  {
    if |rows| == 0 then map[]
    else
      var pre := rows[..|rows| - 1];
      var last := rows[|rows| - 1];
      var m := BuildIndex(pre, kind);
      BuildIndexStep(pre, last, kind, m);
      assert rows == pre + [last];
      Insert(m, Key(last, kind), EntryOf(last))
  }

  /** The keys a table offers grow by the appended row's key. */
  lemma KeysAppend(pre: seq<RefRow>, last: RefRow, kind: IdKind)
    ensures Keys(pre + [last], kind) == Keys(pre, kind) + {Key(last, kind)}
  {
    var rows := pre + [last];
    assert forall i :: 0 <= i < |pre| ==> rows[i] == pre[i];
    assert rows[|pre|] == last;
  }

  /** The step of `BuildIndex`, proved apart to keep each proof small. */
  lemma BuildIndexStep(pre: seq<RefRow>, last: RefRow, kind: IdKind, m: map<string, Entry>)
    requires forall k :: k in m <==> k != "" && k in Keys(pre, kind)
    requires forall i :: 0 <= i < |pre| && FirstWithKey(pre, kind, i) && Key(pre[i], kind) != "" ==>
               Key(pre[i], kind) in m && m[Key(pre[i], kind)] == EntryOf(pre[i])
    ensures var rows := pre + [last];
            var r := Insert(m, Key(last, kind), EntryOf(last));
            && (forall k :: k in r <==> k != "" && k in Keys(rows, kind))
            && (forall i :: 0 <= i < |rows| && FirstWithKey(rows, kind, i) && Key(rows[i], kind) != "" ==>
                  Key(rows[i], kind) in r && r[Key(rows[i], kind)] == EntryOf(rows[i]))
  {
    KeysAppend(pre, last, kind);
    var rows := pre + [last];
    var r := Insert(m, Key(last, kind), EntryOf(last));
    forall i | 0 <= i < |rows| && FirstWithKey(rows, kind, i) && Key(rows[i], kind) != ""
      ensures Key(rows[i], kind) in r && r[Key(rows[i], kind)] == EntryOf(rows[i])
    {
      if i < |pre| {
        EarlierFirstRow(pre, last, kind, m, i);
      } else {
        LastFirstRow(pre, last, kind, m);
      }
    }
  }

  /** A row that was first with its key before the append keeps its entry. */
  lemma EarlierFirstRow(pre: seq<RefRow>, last: RefRow, kind: IdKind, m: map<string, Entry>, i: nat)
    requires forall i :: 0 <= i < |pre| && FirstWithKey(pre, kind, i) && Key(pre[i], kind) != "" ==>
               Key(pre[i], kind) in m && m[Key(pre[i], kind)] == EntryOf(pre[i])
    requires i < |pre| && FirstWithKey(pre + [last], kind, i) && Key(pre[i], kind) != ""
    ensures var r := Insert(m, Key(last, kind), EntryOf(last));
            Key(pre[i], kind) in r && r[Key(pre[i], kind)] == EntryOf(pre[i])
  {
    var rows := pre + [last];
    assert forall j :: 0 <= j < i ==> rows[j] == pre[j];
    assert rows[i] == pre[i];
    assert FirstWithKey(pre, kind, i);
  }

  /** The appended row, when first with its non-empty key, writes its entry. */
  lemma LastFirstRow(pre: seq<RefRow>, last: RefRow, kind: IdKind, m: map<string, Entry>)
    requires forall k :: k in m <==> k != "" && k in Keys(pre, kind)
    requires FirstWithKey(pre + [last], kind, |pre|) && Key(last, kind) != ""
    ensures var r := Insert(m, Key(last, kind), EntryOf(last));
            Key(last, kind) in r && r[Key(last, kind)] == EntryOf(last)
  {
    var rows := pre + [last];
    var k := Key(last, kind);
    assert rows[|pre|] == last;
    forall j | 0 <= j < |pre|
      ensures Key(pre[j], kind) != k
    {
      assert rows[j] == pre[j];
      assert Key(rows[j], kind) != Key(rows[|pre|], kind);
    }
    assert k !in Keys(pre, kind);
  }

  /** Index keys are never empty and never contain a hyphen. */
  lemma IndexKeysAreClean(rows: seq<RefRow>, kind: IdKind, k: string)
    requires k in BuildIndex(rows, kind)
    ensures k != "" && Hyphen !in k
  {
    var i :| 0 <= i < |rows| && Key(rows[i], kind) == k;
  }

  /**
   * The script's single loop, which writes both indices for each row in
   * turn. Each index comes out as if built on its own: the two never
   * influence each other.
   */
  function BuildIndices(rows: seq<RefRow>): (r: Indices)
    ensures r.issn == BuildIndex(rows, Print)
    ensures r.eissn == BuildIndex(rows, Electronic)
  {
    if |rows| == 0 then Indices(map[], map[])
    else
      var pre := rows[..|rows| - 1];
      var last := rows[|rows| - 1];
      var p := BuildIndices(pre);
      Indices(Insert(p.issn, Key(last, Print), EntryOf(last)),
              Insert(p.eissn, Key(last, Electronic), EntryOf(last)))
  }

  /**
   * An index reads only its own ISSN column and the two metrics: two tables
   * that agree on those build the same index, whatever their other columns
   * (the other kind's ISSN included) hold.
   */
  lemma {:induction false} IndexIgnoresOtherColumns(a: seq<RefRow>, b: seq<RefRow>, kind: IdKind)
    requires |a| == |b|
    requires forall i :: 0 <= i < |a| ==> Key(a[i], kind) == Key(b[i], kind) && EntryOf(a[i]) == EntryOf(b[i])
    ensures BuildIndex(a, kind) == BuildIndex(b, kind)
  {
    if |a| > 0 {
      IndexIgnoresOtherColumns(a[..|a| - 1], b[..|b| - 1], kind);
    }
  }

  // ---------------------------------------------------------------------
  // The indices of the unfiltered reference table.

  /** Row `i` is eligible and no earlier eligible row offers its key. */
  predicate FirstEligibleWithKey(raw: seq<RefRow>, kind: IdKind, i: nat)
    requires i < |raw|
  {
    && Eligible(raw[i])
    && forall j :: 0 <= j < i && Eligible(raw[j]) ==> Key(raw[j], kind) != Key(raw[i], kind)
  }

  /** Every key of an index built from the filtered table comes from an eligible row. */
  lemma EligibleKeysOnly(raw: seq<RefRow>, kind: IdKind, k: string)
    requires k in BuildIndex(FilterEligible(raw), kind)
    ensures exists i :: 0 <= i < |raw| && Eligible(raw[i]) && Key(raw[i], kind) == k
  {
    var f := FilterEligible(raw);
    var m :| 0 <= m < |f| && Key(f[m], kind) == k;
    assert f[m] in f;
    var i :| 0 <= i < |raw| && raw[i] == f[m];
  }

  /** A key no eligible row offers is not in the index. */
  lemma UnofferedKeyAbsent(raw: seq<RefRow>, kind: IdKind, k: string)
    requires forall j :: 0 <= j < |raw| && Eligible(raw[j]) ==> Key(raw[j], kind) != k
    ensures k !in BuildIndex(FilterEligible(raw), kind)
  {
    var f := FilterEligible(raw);
    forall m | 0 <= m < |f|
      ensures Key(f[m], kind) != k
    {
      assert f[m] in f;
      var j :| 0 <= j < |raw| && raw[j] == f[m];
    }
  }

  /** Adding a row to the unfiltered table either writes it into the index or changes nothing. */
  lemma FilteredIndexStep(pre: seq<RefRow>, x: RefRow, kind: IdKind)
    ensures BuildIndex(FilterEligible(pre + [x]), kind) ==
              if Eligible(x) then Insert(BuildIndex(FilterEligible(pre), kind), Key(x, kind), EntryOf(x))
              else BuildIndex(FilterEligible(pre), kind)
  {
    var raw := pre + [x];
    assert raw[..|raw| - 1] == pre;
    var fp := FilterEligible(pre);
    var f := FilterEligible(raw);
    if Eligible(x) {
      assert f == fp + [x];
      BuildIndexAppend(fp, x, kind);
    } else {
      assert f == fp;
    }
  }

  /** Appending a row to a table adds that row's write to the index. */
  lemma BuildIndexAppend(rows: seq<RefRow>, x: RefRow, kind: IdKind)
    ensures BuildIndex(rows + [x], kind) == Insert(BuildIndex(rows, kind), Key(x, kind), EntryOf(x))
  {
    var f := rows + [x];
    assert f[..|f| - 1] == rows;
    assert f[|f| - 1] == x;
  }

  /**
   * For a key shared by several journal rows of the target year, the index
   * built from the filtered table holds the first such row's metrics.
   */
  lemma {:induction false} FirstEligibleWins(raw: seq<RefRow>, kind: IdKind, i: nat)
    requires i < |raw|
    requires FirstEligibleWithKey(raw, kind, i)
    requires Key(raw[i], kind) != ""
    ensures Key(raw[i], kind) in BuildIndex(FilterEligible(raw), kind)
    ensures BuildIndex(FilterEligible(raw), kind)[Key(raw[i], kind)] == EntryOf(raw[i])
    decreases |raw|
  {
    var pre := raw[..|raw| - 1];
    var x := raw[|raw| - 1];
    assert raw == pre + [x];
    if i < |pre| {
      assert pre[i] == raw[i];
      assert FirstEligibleWithKey(pre, kind, i) by {
        assert forall j :: 0 <= j < i ==> pre[j] == raw[j];
      }
      FirstEligibleWins(pre, kind, i);
      EarlierEntryKept(pre, x, kind, Key(raw[i], kind));
    } else {
      forall j | 0 <= j < |pre| && Eligible(pre[j])
        ensures Key(pre[j], kind) != Key(x, kind)
      {
        assert raw[j] == pre[j];
      }
      UnofferedKeyAbsent(pre, kind, Key(x, kind));
      NewKeyWritten(pre, x, kind);
    }
  }

  /** An entry already in the index survives one more row of the unfiltered table. */
  lemma EarlierEntryKept(pre: seq<RefRow>, x: RefRow, kind: IdKind, k: string)
    requires k in BuildIndex(FilterEligible(pre), kind)
    ensures k in BuildIndex(FilterEligible(pre + [x]), kind)
    ensures BuildIndex(FilterEligible(pre + [x]), kind)[k] == BuildIndex(FilterEligible(pre), kind)[k]
  {
    FilteredIndexStep(pre, x, kind);
  }

  /** An eligible row with a fresh non-empty key writes its own metrics. */
  lemma NewKeyWritten(pre: seq<RefRow>, x: RefRow, kind: IdKind)
    requires Eligible(x) && Key(x, kind) != ""
    requires Key(x, kind) !in BuildIndex(FilterEligible(pre), kind)
    ensures Key(x, kind) in BuildIndex(FilterEligible(pre + [x]), kind)
    ensures BuildIndex(FilterEligible(pre + [x]), kind)[Key(x, kind)] == EntryOf(x)
  {
    FilteredIndexStep(pre, x, kind);
  }
}
