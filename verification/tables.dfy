/**
 * The two input tables after loading: the source list (deduplicated by its
 * source id) and the reference indicators (restricted to journals of the
 * target year).
 */
module Tables {

  /** One row of the source list, reduced to the columns the script keeps. */
  datatype SourceRow = SourceRow(
    id: int,
    title: string,
    snip: real,
    printIssn: string,
    eIssn: string)

  /** One row of the reference indicator table. */
  datatype RefRow = RefRow(
    title: string,
    printIssn: string,
    electronicIssn: string,
    snip: real,
    lowerBound: real,
    sourceType: string,
    year: int)

  const Journal: string := "Journal"
  /** The only year whose reference rows are used, and whose thresholds are looked up. */
  const TargetYear: int := 2020

  // ---------------------------------------------------------------------
  // Deduplication of the source list by source id, first occurrence kept.

  /** The distinct source ids of a table. */
  function Ids(rows: seq<SourceRow>): set<int> {
    set i | 0 <= i < |rows| :: rows[i].id
  }

  /** The position of the first row carrying `id`. */
  function FirstIndex(rows: seq<SourceRow>, id: int): (k: nat)
    requires id in Ids(rows)
    ensures k < |rows| && rows[k].id == id
    ensures forall j :: 0 <= j < k ==> rows[j].id != id
  {
    if rows[0].id == id then 0
    else
      var i :| 0 <= i < |rows| && rows[i].id == id;
      assert rows[1..][i - 1].id == id;
      1 + FirstIndex(rows[1..], id)
  }

  /** The first row with a given id is the only row that can be called first. */
  lemma FirstIndexUnique(rows: seq<SourceRow>, k: nat)
    requires k < |rows|
    requires forall j :: 0 <= j < k ==> rows[j].id != rows[k].id
    ensures rows[k].id in Ids(rows)
    ensures FirstIndex(rows, rows[k].id) == k
  {
  }

  /**
   * `r` is what `drop_duplicates` on the source id keeps of `rows`: pairwise
   * distinct ids, no id lost, for each id exactly the row where that id first
   * appears, and those rows in their original order.
   */
  ghost predicate KeepsFirstOccurrences(r: seq<SourceRow>, rows: seq<SourceRow>) {
    && (forall j, k :: 0 <= j < k < |r| ==> r[j].id != r[k].id)
    && Ids(r) == Ids(rows)
    && (forall j :: 0 <= j < |r| ==>
          r[j].id in Ids(rows) && r[j] == rows[FirstIndex(rows, r[j].id)])
    && (forall j, k :: 0 <= j < k < |r| ==>
          r[j].id in Ids(rows) && r[k].id in Ids(rows) &&
          FirstIndex(rows, r[j].id) < FirstIndex(rows, r[k].id))
  }

  /** Extending the table keeps the first occurrence of every id already seen. */
  lemma FirstIndexOfPrefix(rows: seq<SourceRow>, n: nat, id: int)
    requires n <= |rows|
    requires id in Ids(rows[..n])
    ensures id in Ids(rows)
    ensures FirstIndex(rows, id) == FirstIndex(rows[..n], id)
  {
    var k := FirstIndex(rows[..n], id);
    FirstIndexUnique(rows, k);
  }

  lemma IdsAppend(rows: seq<SourceRow>, x: SourceRow)
    ensures Ids(rows + [x]) == Ids(rows) + {x.id}
  {
    var r := rows + [x];
    assert forall i :: 0 <= i < |rows| ==> r[i] == rows[i];
    assert r[|rows|] == x;
  }

  /** A row whose id is already present adds nothing. */
  lemma DedupSkip(pre: seq<SourceRow>, last: SourceRow, d: seq<SourceRow>)
    requires KeepsFirstOccurrences(d, pre)
    requires last.id in Ids(pre)
    ensures KeepsFirstOccurrences(d, pre + [last])
  {
    var rows := pre + [last];
    assert rows[..|pre|] == pre;
    IdsAppend(pre, last);
    forall id | id in Ids(pre)
      ensures FirstIndex(rows, id) == FirstIndex(pre, id)
    {
      FirstIndexOfPrefix(rows, |pre|, id);
    }
  }

  /** A row with a new id is kept, after all rows kept so far. */
  lemma DedupAdd(pre: seq<SourceRow>, last: SourceRow, d: seq<SourceRow>)
    requires KeepsFirstOccurrences(d, pre)
    requires last.id !in Ids(pre)
    ensures KeepsFirstOccurrences(d + [last], pre + [last])
  {
    var rows := pre + [last];
    var r := d + [last];
    assert rows[..|pre|] == pre;
    IdsAppend(pre, last);
    IdsAppend(d, last);
    FirstIndexUnique(rows, |pre|);
    forall j | 0 <= j < |r|
      ensures r[j].id in Ids(rows) && r[j] == rows[FirstIndex(rows, r[j].id)]
    {
      if j < |d| {
        FirstIndexOfPrefix(rows, |pre|, d[j].id);
      }
    }
    forall j, k | 0 <= j < k < |r|
      ensures r[j].id in Ids(rows) && r[k].id in Ids(rows) &&
              FirstIndex(rows, r[j].id) < FirstIndex(rows, r[k].id)
    {
      FirstIndexOfPrefix(rows, |pre|, d[j].id);
      if k < |d| {
        FirstIndexOfPrefix(rows, |pre|, d[k].id);
      }
    }
  }

  /** Distinct ids make the table exactly as long as its id set is large. */
  lemma {:induction false} DistinctIdsCount(r: seq<SourceRow>)
    requires forall j, k :: 0 <= j < k < |r| ==> r[j].id != r[k].id
    ensures |Ids(r)| == |r|
  {
    if |r| > 0 {
      var pre := r[..|r| - 1];
      DistinctIdsCount(pre);
      assert r == pre + [r[|r| - 1]];
      IdsAppend(pre, r[|r| - 1]);
      assert r[|r| - 1].id !in Ids(pre);
    }
  }

  /**
   * `drop_duplicates` on the source id, first occurrence kept. The result
   * has one row per distinct id.
   */
  function Dedup(rows: seq<SourceRow>): (r: seq<SourceRow>)
    ensures KeepsFirstOccurrences(r, rows)
    ensures |r| == |Ids(rows)|
  {
    if |rows| == 0 then []
    else
      var pre := rows[..|rows| - 1];
      var last := rows[|rows| - 1];
      var d := Dedup(pre);
      assert rows == pre + [last];
      if last.id in Ids(pre) then
        DedupSkip(pre, last, d);
        DistinctIdsCount(d);
        d
      else
        DedupAdd(pre, last, d);
        DistinctIdsCount(d + [last]);
        d + [last]
  }

  // ---------------------------------------------------------------------
  // Restriction of the reference table to journals of the target year.

  predicate Eligible(r: RefRow) {
    r.sourceType == Journal && r.year == TargetYear
  }

  /** The eligible reference rows, in their original order. */
  function FilterEligible(rows: seq<RefRow>): (r: seq<RefRow>)
    ensures forall x :: x in r <==> x in rows && Eligible(x)
    ensures |r| <= |rows|
  {
    if |rows| == 0 then []
    else
      var pre := rows[..|rows| - 1];
      var last := rows[|rows| - 1];
      assert rows == pre + [last];
      FilterEligible(pre) + (if Eligible(last) then [last] else [])
  }

  /** Filtering works piecewise, so it keeps the relative order of rows. */
  lemma {:induction false} FilterEligibleAppend(a: seq<RefRow>, b: seq<RefRow>)
    ensures FilterEligible(a + b) == FilterEligible(a) + FilterEligible(b)
    decreases |b|
  {
    if |b| == 0 {
      assert a + b == a;
    } else {
      var b' := b[..|b| - 1];
      assert (a + b)[..|a + b| - 1] == a + b';
      assert (a + b)[|a + b| - 1] == b[|b| - 1];
      FilterEligibleAppend(a, b');
    }
  }
}
