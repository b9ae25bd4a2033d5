/**
 * Year thresholds and the quartile rule: a row's joined SNIP and lower bound
 * are compared with the quartile-1 and quartile-2 boundaries of the target
 * year, first matching test wins. Also the per-label row count.
 */
module Quartile {
  import opened Results

  datatype Label = Q1 | Q1Star | Q2 | Q2Star | Other

  /** The label as it is written into the output table. */
  function Name(l: Label): string {
    match l
    case Q1 => "Q1"
    case Q1Star => "Q1*"
    case Q2 => "Q2"
    case Q2Star => "Q2*"
    case Other => "Other"
  }

  /** One row of the threshold table. */
  datatype ThresholdRow = ThresholdRow(year: int, value25: real, value50: real)

  /** The two boundaries of one year: `value25` bounds Q1, `value50` bounds Q2. */
  datatype Thresholds = Thresholds(q1: real, q2: real)

  /**
   * The boundaries of `year`, taken from the first row of that year, or
   * `None` when the table has no row for it.
   */
  function LookupThresholds(table: seq<ThresholdRow>, year: int): (r: Option<Thresholds>)
    ensures r.None? <==> forall i :: 0 <= i < |table| ==> table[i].year != year
    ensures r.Some? ==>
              exists i :: 0 <= i < |table| && table[i].year == year &&
                          r.value == Thresholds(table[i].value25, table[i].value50) &&
                          forall j :: 0 <= j < i ==> table[j].year != year
  {
    if |table| == 0 then None
    else if table[0].year == year then Some(Thresholds(table[0].value25, table[0].value50))
    else
      var r := LookupThresholds(table[1..], year);
      assert forall j :: 1 <= j < |table| ==> table[j] == table[1..][j - 1];
      r
  }

  /**
   * `get_quartile`. Each label holds exactly when its own test passes and
   * every earlier test fails; all boundaries are inclusive.
   */
  function Classify(snip: real, lowerBound: real, t: Thresholds): (r: Label)
    ensures r == Q1 <==> lowerBound >= t.q1
    ensures r == Q1Star <==> lowerBound < t.q1 && snip >= t.q1
    ensures r == Q2 <==> lowerBound < t.q1 && snip < t.q1 && lowerBound >= t.q2
    ensures r == Q2Star <==> lowerBound < t.q1 && snip < t.q1 && lowerBound < t.q2 && snip >= t.q2
    ensures r == Other <==> lowerBound < t.q1 && snip < t.q1 && lowerBound < t.q2 && snip < t.q2
  {
    if lowerBound >= t.q1 then Q1
    else if snip >= t.q1 then Q1Star
    else if lowerBound >= t.q2 then Q2
    else if snip >= t.q2 then Q2Star
    else Other
  }

  /** Labels from best to worst: Q1 above Q1* above Q2 above Q2* above Other. */
  function Rank(l: Label): nat {
    match l
    case Q1 => 4
    case Q1Star => 3
    case Q2 => 2
    case Q2Star => 1
    case Other => 0
  }

  /** A row with a higher SNIP and a higher lower bound never gets a worse label. */
  lemma ClassifyMonotone(snip: real, lowerBound: real, snip': real, lowerBound': real, t: Thresholds)
    requires snip <= snip' && lowerBound <= lowerBound'
    ensures Rank(Classify(snip, lowerBound, t)) <= Rank(Classify(snip', lowerBound', t))
  {
  }

  /**
   * A starred label means the point estimate reached a boundary its lower
   * bound did not, so the SNIP is strictly above its lower bound.
   */
  lemma StarMeansPointEstimate(snip: real, lowerBound: real, t: Thresholds)
    requires Classify(snip, lowerBound, t) in {Q1Star, Q2Star}
    ensures lowerBound < snip
  {
  }

  /** A row left at zero is `Other` whenever both boundaries are positive. */
  lemma UnmatchedIsOther(t: Thresholds)
    requires t.q1 > 0.0 && t.q2 > 0.0
    ensures Classify(0.0, 0.0, t) == Other
  {
  }

  /** The boundary cases of the rule with q1 = 3.0 and q2 = 1.5. */
  lemma ClassifyBoundaryExamples()
    ensures var t := Thresholds(3.0, 1.5);
            && Classify(3.0, 3.0, t) == Q1
            && Classify(3.0, 2.9, t) == Q1Star
            && Classify(1.4, 1.5, t) == Q2
            && Classify(1.5, 1.0, t) == Q2Star
            && Classify(0.5, 0.5, t) == Other
  {
  }

  // ---------------------------------------------------------------------
  // The per-label count.

  /** How many rows carry label `l`. */
  function Count(labels: seq<Label>, l: Label): (n: nat)
    ensures n <= |labels|
    ensures n > 0 <==> l in labels
    ensures n == multiset(labels)[l]
  {
    if |labels| == 0 then 0
    else
      assert labels == [labels[0]] + labels[1..];
      (if labels[0] == l then 1 else 0) + Count(labels[1..], l)
  }

  /** Every row is counted under exactly one label. */
  lemma {:induction false} CountsSumToTotal(labels: seq<Label>)
    ensures Count(labels, Q1) + Count(labels, Q1Star) + Count(labels, Q2) +
            Count(labels, Q2Star) + Count(labels, Other) == |labels|
  {
    if |labels| > 0 {
      CountsSumToTotal(labels[1..]);
    }
  }

  /** How many labels there are. */
  const LabelCount: nat := 5

  /** The `n`-th label in the order `groupby` sorts their names. */
  function LabelAt(n: nat): Label
    requires n < LabelCount
  {
    if n == 0 then Other
    else if n == 1 then Q1
    else if n == 2 then Q1Star
    else if n == 3 then Q2
    else Q2Star
  }

  /** The position of a label in that order. */
  function Order(l: Label): (n: nat)
    ensures n < LabelCount && LabelAt(n) == l
  {
    match l
    case Other => 0
    case Q1 => 1
    case Q1Star => 2
    case Q2 => 3
    case Q2Star => 4
  }

  /** Strict lexicographic order on strings, by character code. */
  predicate StrLess(a: string, b: string) {
    if |a| == 0 then |b| > 0
    else |b| > 0 && (a[0] < b[0] || (a[0] == b[0] && StrLess(a[1..], b[1..])))
  }

  /** `Order` lists the label names in increasing string order. */
  lemma OrderFollowsNames(l: Label, m: Label)
    requires Order(l) < Order(m)
    ensures StrLess(Name(l), Name(m))
  {
    assert StrLess("Q1", "Q1*") by {
      assert StrLess("", "*");
    }
    assert StrLess("Q1*", "Q2");
    assert StrLess("Q2", "Q2*") by {
      assert StrLess("", "*");
    }
  }

  /** The (label, count) pairs of the labels from position `n` on whose count is positive, in order. */
  function Groups(labels: seq<Label>, n: nat): (r: seq<(Label, nat)>)
    requires n <= LabelCount
    ensures forall i :: 0 <= i < |r| ==> n <= Order(r[i].0) && r[i].1 == Count(labels, r[i].0) && r[i].1 > 0
    ensures forall i, j :: 0 <= i < j < |r| ==> Order(r[i].0) < Order(r[j].0)
    decreases LabelCount - n
  {
    if n == LabelCount then []
    else
      var c := Count(labels, LabelAt(n));
      var rest := Groups(labels, n + 1);
      if c == 0 then rest
      else
        GroupsCons(labels, n, (LabelAt(n), c), rest);
        [(LabelAt(n), c)] + rest
  }

  /** A positive group for position `n` in front of the later groups keeps both properties of `Groups`. */
  lemma GroupsCons(labels: seq<Label>, n: nat, h: (Label, nat), rest: seq<(Label, nat)>)
    requires Order(h.0) == n && h.1 == Count(labels, h.0) && h.1 > 0
    requires forall i :: 0 <= i < |rest| ==>
               n + 1 <= Order(rest[i].0) && rest[i].1 == Count(labels, rest[i].0) && rest[i].1 > 0
    requires forall i, j :: 0 <= i < j < |rest| ==> Order(rest[i].0) < Order(rest[j].0)
    ensures var r := [h] + rest;
            && (forall i :: 0 <= i < |r| ==> n <= Order(r[i].0) && r[i].1 == Count(labels, r[i].0) && r[i].1 > 0)
            && (forall i, j :: 0 <= i < j < |r| ==> Order(r[i].0) < Order(r[j].0))
  {
    var r := [h] + rest;
    assert forall i :: 1 <= i < |r| ==> r[i] == rest[i - 1];
  }

  /** The labels of a summary, in order. */
  function LabelsOf(groups: seq<(Label, nat)>): (r: seq<Label>)
    ensures |r| == |groups|
    ensures forall i :: 0 <= i < |r| ==> r[i] == groups[i].0
  {
    seq(|groups|, i requires 0 <= i < |groups| => groups[i].0)
  }

  lemma LabelsOfCons(h: (Label, nat), rest: seq<(Label, nat)>)
    ensures LabelsOf([h] + rest) == [h.0] + LabelsOf(rest)
  {
  }

  /** Every label from position `n` on that occurs among the rows gets a group. */
  lemma {:induction false} GroupsCover(labels: seq<Label>, n: nat, l: Label)
    requires n <= Order(l) && l in labels
    ensures l in LabelsOf(Groups(labels, n))
    decreases LabelCount - n
  {
    assert n < LabelCount;
    var c := Count(labels, LabelAt(n));
    var rest := Groups(labels, n + 1);
    if l == LabelAt(n) {
      assert c > 0;
      LabelsOfCons((l, c), rest);
    } else {
      assert Order(l) != n;
      GroupsCover(labels, n + 1, l);
      if c > 0 {
        LabelsOfCons((LabelAt(n), c), rest);
      }
    }
  }

  function SumCounts(groups: seq<(Label, nat)>): nat {
    if |groups| == 0 then 0 else groups[0].1 + SumCounts(groups[1..])
  }

  /** The total count of the labels from position `n` on. */
  function SumFrom(labels: seq<Label>, n: nat): nat
    requires n <= LabelCount
    decreases LabelCount - n
  {
    if n == LabelCount then 0 else Count(labels, LabelAt(n)) + SumFrom(labels, n + 1)
  }

  lemma {:induction false} GroupsSum(labels: seq<Label>, n: nat)
    requires n <= LabelCount
    ensures SumCounts(Groups(labels, n)) == SumFrom(labels, n)
    decreases LabelCount - n
  {
    var g := Groups(labels, n);
    if n == LabelCount {
      assert g == [];
    } else {
      GroupsSum(labels, n + 1);
      var c := Count(labels, LabelAt(n));
      var rest := Groups(labels, n + 1);
      assert SumFrom(labels, n) == c + SumFrom(labels, n + 1);
      if c > 0 {
        assert g == [(LabelAt(n), c)] + rest;
        assert g[1..] == rest;
        assert SumCounts(g) == c + SumCounts(rest);
      } else {
        assert g == rest;
      }
    }
  }

  lemma SumFromAll(labels: seq<Label>)
    ensures SumFrom(labels, 0) == |labels|
  {
    assert SumFrom(labels, 4) == Count(labels, Q2Star);
    assert SumFrom(labels, 2) == Count(labels, Q1Star) + Count(labels, Q2) + Count(labels, Q2Star);
    CountsSumToTotal(labels);
  }

  /**
   * The summary table of `groupby(['quartile']).count()`: one (label, count)
   * row per label that occurs and none for a label that does not, sorted by
   * label name, and the counts add up to the number of rows.
   */
  function Summary(labels: seq<Label>): (r: seq<(Label, nat)>)
    ensures forall i :: 0 <= i < |r| ==> r[i].1 == Count(labels, r[i].0) && r[i].1 > 0
    ensures forall l :: l in labels <==> l in LabelsOf(r)
    ensures forall i, j :: 0 <= i < j < |r| ==> StrLess(Name(r[i].0), Name(r[j].0))
    ensures SumCounts(r) == |labels|
  {
    var r := Groups(labels, 0);
    forall l | l in labels
      ensures l in LabelsOf(r)
    {
      GroupsCover(labels, 0, l);
    }
    forall l | l in LabelsOf(r)
      ensures l in labels
    {
      var i :| 0 <= i < |r| && LabelsOf(r)[i] == l;
      assert Count(labels, l) > 0;
    }
    forall i, j | 0 <= i < j < |r|
      ensures StrLess(Name(r[i].0), Name(r[j].0))
    {
      OrderFollowsNames(r[i].0, r[j].0);
    }
    GroupsSum(labels, 0);
    SumFromAll(labels);
    r
  }
}
