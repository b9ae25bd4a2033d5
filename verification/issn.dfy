/**
 * Identifier normalisation: the zero-padding applied to the source table's
 * ISSN fields, the hyphen stripping applied to the reference table's ISSNs,
 * and the splitting of a multi-valued ISSN field into candidates.
 */
module Issn {

  /** The marker written into an empty ISSN cell of the source table. */
  const Absent: string := "-"
  /** The width a short identifier is left-padded to. */
  const Width: nat := 8
  const Hyphen: char := '-'
  const Space: char := ' '

  /** `n` copies of the character '0'. */
  function Zeros(n: nat): (r: string)
    ensures |r| == n
    ensures forall i :: 0 <= i < n ==> r[i] == '0'
  {
    seq(n, _ => '0')
  }

  /**
   * The padding lambda of the source table: the absent marker and anything
   * already `Width` characters long stay as they are; a shorter value gets
   * zeros on the left until it is exactly `Width` characters long.
   */
  function Pad(x: string): (r: string)
    ensures x == Absent || |x| >= Width ==> r == x
    ensures x != Absent && |x| < Width ==>
              && |r| == Width
              && r[Width - |x|..] == x
              && forall i :: 0 <= i < Width - |x| ==> r[i] == '0'
  {
    if x == Absent || |x| >= Width then x else Zeros(Width - |x|) + x
  }

  /** Every padded value is a fixed point of the padding rule. */
  predicate IsPadded(x: string) {
    x == Absent || |x| >= Width
  }

  lemma PadIsPadded(x: string)
    ensures IsPadded(Pad(x))
    ensures Pad(Pad(x)) == Pad(x)
  {
  }

  /** A three-digit value gains five zeros; the absent marker stays. */
  lemma PadExamples()
    ensures Pad("123") == "00000123"
    ensures Pad(Absent) == Absent
  {
    var r := Pad("123");
    assert |r| == 8 && r[5..] == "123";
    assert r == r[..5] + r[5..];
  }

  // ---------------------------------------------------------------------
  // Padding does not change the number an all-digit identifier denotes.

  predicate IsDigits(s: string) {
    forall i :: 0 <= i < |s| ==> '0' <= s[i] <= '9'
  }

  /** The decimal number written by a string of digits. */
  function Value(s: string): nat
    requires IsDigits(s)
  {
    if |s| == 0 then 0
    else Value(s[..|s| - 1]) * 10 + (s[|s| - 1] as int - '0' as int)
  }

  lemma {:induction false} ZerosValue(n: nat)
    ensures IsDigits(Zeros(n)) && Value(Zeros(n)) == 0
  {
    if n > 0 {
      assert Zeros(n)[..n - 1] == Zeros(n - 1);
      ZerosValue(n - 1);
    }
  }

  lemma {:induction false} LeadingZerosValue(n: nat, s: string)
    requires IsDigits(s)
    ensures IsDigits(Zeros(n) + s)
    ensures Value(Zeros(n) + s) == Value(s)
    decreases |s|
  {
    if |s| == 0 {
      assert Zeros(n) + s == Zeros(n);
      ZerosValue(n);
    } else {
      var t := Zeros(n) + s;
      var init := s[..|s| - 1];
      assert t[..|t| - 1] == Zeros(n) + init;
      LeadingZerosValue(n, init);
    }
  }

  /** Padding an all-digit identifier keeps it all-digit and keeps its number. */
  lemma PadPreservesValue(x: string)
    requires IsDigits(x)
    ensures IsDigits(Pad(x))
    ensures Value(Pad(x)) == Value(x)
  {
    if x != Absent && |x| < Width {
      LeadingZerosValue(Width - |x|, x);
    }
  }

  // ---------------------------------------------------------------------
  // Hyphen stripping of the reference table's ISSNs.

  /** Removes every hyphen, keeping the other characters in order. */
  function StripHyphens(s: string): (r: string)
    ensures Hyphen !in r
    ensures |r| <= |s|
  {
    if |s| == 0 then []
    else (if s[0] == Hyphen then [] else [s[0]]) + StripHyphens(s[1..])
  }

  /** A string without hyphens is left alone. */
  lemma {:induction false} StripHyphensFixes(s: string)
    requires Hyphen !in s
    ensures StripHyphens(s) == s
  {
    if |s| > 0 {
      assert Hyphen !in s[1..];
      StripHyphensFixes(s[1..]);
    }
  }

  /** Stripping works piecewise: it distributes over concatenation. */
  lemma {:induction false} StripHyphensAppend(a: string, b: string)
    ensures StripHyphens(a + b) == StripHyphens(a) + StripHyphens(b)
  {
    if |a| > 0 {
      assert (a + b)[1..] == a[1..] + b;
      StripHyphensAppend(a[1..], b);
    } else {
      assert a + b == b;
    }
  }

  lemma StripHyphensIdempotent(s: string)
    ensures StripHyphens(StripHyphens(s)) == StripHyphens(s)
  {
    StripHyphensFixes(StripHyphens(s));
  }

  /** The reference table's hyphenated form `XXXX-XXXX` loses its hyphen. */
  lemma StripSeparator(a: string, b: string)
    requires Hyphen !in a && Hyphen !in b
    ensures StripHyphens(a + [Hyphen] + b) == a + b
  {
    var h: string := [Hyphen];
    assert StripHyphens(h) == [] by {
      assert h[1..] == [];
    }
    calc {
      StripHyphens(a + h + b);
      == { StripHyphensAppend(a + h, b); }
      StripHyphens(a + h) + StripHyphens(b);
      == { StripHyphensAppend(a, h); }
      StripHyphens(a) + StripHyphens(h) + StripHyphens(b);
      == { StripHyphensFixes(a); StripHyphensFixes(b); }
      a + [] + b;
      == { assert a + [] == a; }
      a + b;
    }
  }

  // ---------------------------------------------------------------------
  // Splitting a field on single spaces, the way Python's `str.split(' ')` does.

  /**
   * Cuts `s` at every space. Two adjacent spaces give an empty piece, and the
   * empty string gives one empty piece.
   */
  function Split(s: string): (r: seq<string>)
    ensures |r| >= 1
    ensures forall i :: 0 <= i < |r| ==> Space !in r[i]
  {
    if |s| == 0 then [""]
    else
      var rest := Split(s[1..]);
      if s[0] == Space then [""] + rest
      else [[s[0]] + rest[0]] + rest[1..]
  }

  /** Puts pieces back together with one space between neighbours. */
  function JoinWords(parts: seq<string>): string
    requires |parts| >= 1
  {
    if |parts| == 1 then parts[0] else parts[0] + [Space] + JoinWords(parts[1..])
  }

  /** Joining the pieces gives back the original field. */
  lemma {:induction false} JoinSplit(s: string)
    ensures JoinWords(Split(s)) == s
  {
    if |s| > 0 {
      var rest := Split(s[1..]);
      JoinSplit(s[1..]);
      if s[0] == Space {
        assert Split(s) == [""] + rest;
        assert Split(s)[1..] == rest;
      } else {
        var r := Split(s);
        assert r == [[s[0]] + rest[0]] + rest[1..];
        if |rest| == 1 {
          assert s == [s[0]] + s[1..];
        } else {
          assert r[1..] == rest[1..];
          assert JoinWords(rest) == rest[0] + [Space] + JoinWords(rest[1..]);
          assert s == [s[0]] + s[1..];
        }
      }
    }
  }

  /** Splitting a space-free prefix off a field glues it onto the first piece. */
  lemma {:induction false} SplitPrefix(p: string, s: string)
    requires Space !in p
    ensures Split(p + s) == [p + Split(s)[0]] + Split(s)[1..]
  {
    if |p| > 0 {
      assert (p + s)[1..] == p[1..] + s;
      assert Space !in p[1..];
      SplitPrefix(p[1..], s);
      assert [p[0]] + (p[1..] + Split(s)[0]) == p + Split(s)[0];
    } else {
      var r := Split(s);
      assert p + s == s;
      assert p + r[0] == r[0];
      assert r == [r[0]] + r[1..];
    }
  }

  /** A field without spaces is a single piece. */
  lemma SplitNoSpace(s: string)
    requires Space !in s
    ensures Split(s) == [s]
  {
    SplitPrefix(s, "");
    assert s + "" == s;
  }

  /** Space-free pieces survive a join followed by a split. */
  lemma {:induction false} SplitJoin(parts: seq<string>)
    requires |parts| >= 1
    requires forall i :: 0 <= i < |parts| ==> Space !in parts[i]
    ensures Split(JoinWords(parts)) == parts
  {
    if |parts| == 1 {
      SplitPrefix(parts[0], "");
      assert parts[0] + "" == parts[0];
    } else {
      var tail := JoinWords(parts[1..]);
      SplitJoin(parts[1..]);
      assert ([Space] + tail)[1..] == tail;
      assert Split([Space] + tail) == [""] + parts[1..];
      assert parts[0] + [Space] + tail == parts[0] + ([Space] + tail);
      SplitPrefix(parts[0], [Space] + tail);
      assert parts[0] + "" == parts[0];
    }
  }

  /**
   * The identifiers a source ISSN field offers for the join: none for the
   * absent marker, otherwise the space-separated pieces.
   */
  function Candidates(field: string): (r: seq<string>)
    ensures field == Absent ==> r == []
    ensures field != Absent ==> |r| >= 1 && JoinWords(r) == field
    ensures forall i :: 0 <= i < |r| ==> Space !in r[i]
  {
    if field == Absent then [] else
      JoinSplit(field);
      Split(field)
  }

  /**
   * Padding measures the whole field: a short field's zeros all go in front
   * of its first candidate, and every later candidate is left as it was.
   */
  lemma PadFrontCandidateOnly(x: string)
    requires x != Absent && |x| < Width
    ensures |Candidates(Pad(x))| == |Candidates(x)|
    ensures Candidates(Pad(x))[0] == Zeros(Width - |x|) + Candidates(x)[0]
    ensures Candidates(Pad(x))[1..] == Candidates(x)[1..]
  {
    var z := Zeros(Width - |x|);
    assert Space !in z;
    assert Pad(x) == z + x;
    assert Pad(x) != Absent;
    SplitPrefix(z, x);
  }

  /** A field of `Width` or more characters keeps its candidates, however short each one is. */
  lemma PadKeepsLongFieldCandidates(x: string)
    requires |x| >= Width
    ensures Candidates(Pad(x)) == Candidates(x)
  {
  }
}
