/**
 * Thousands grouping of the integer part of a fixed-point string:
 * `s.replace(/\B(?=(\d{3})+(?!\d))/g, ',')`, and the reference grouping it is
 * meant to compute (digits in chunks of three counted from the right).
 */
module Thousands {
  import opened Text

  /** A `\w` character: an ASCII letter, digit or underscore. */
  predicate IsWordChar(c: char) {
    'a' <= c <= 'z' || 'A' <= c <= 'Z' || IsDigit(c) || c == '_'
  }

  /** `\b` at index `p`: exactly one of the characters around `p` is a word character. */
  predicate IsBoundary(s: string, p: nat)
    requires p <= |s|
  {
    var before := p > 0 && IsWordChar(s[p - 1]);
    var after := p < |s| && IsWordChar(s[p]);
    before != after
  }

  /**
   * `(?=(\d{3})+(?!\d))` at index `p`: some positive number of whole
   * three-digit groups starts at `p` and is not followed by a digit.
   */
  predicate GroupLookahead(s: string, p: nat)
    requires p <= |s|
  {
    exists k: nat | 1 <= k <= |s| ::
      && p + 3 * k <= |s|
      && AllDigits(s[p..p + 3 * k])
      && (p + 3 * k == |s| || !IsDigit(s[p + 3 * k]))
  }

  /** The length of the run of digits starting at `p`. */
  function DigitRun(s: string, p: nat): (r: nat)
    requires p <= |s|
    ensures p + r <= |s|
    ensures forall i | p <= i < p + r :: IsDigit(s[i])
    ensures p + r == |s| || !IsDigit(s[p + r])
    decreases |s| - p
  {
    if p < |s| && IsDigit(s[p]) then 1 + DigitRun(s, p + 1) else 0
  }

  /** A run of `m` digits followed by a non-digit or the end is the digit run. */
  lemma {:induction false} DigitRunUnique(s: string, p: nat, m: nat)
    requires p + m <= |s|
    requires forall i | p <= i < p + m :: IsDigit(s[i])
    requires p + m == |s| || !IsDigit(s[p + m])
    ensures DigitRun(s, p) == m
    decreases m
  {
    if m > 0 {
      DigitRunUnique(s, p + 1, m - 1);
    }
  }

  /** The lookahead holds exactly when the digit run at `p` is a positive multiple of three. */
  lemma GroupLookaheadIsRun(s: string, p: nat)
    requires p <= |s|
    ensures GroupLookahead(s, p) <==> DigitRun(s, p) > 0 && DigitRun(s, p) % 3 == 0
  {
    if GroupLookahead(s, p) {
      LookaheadGivesRun(s, p);
    }
    if DigitRun(s, p) > 0 && DigitRun(s, p) % 3 == 0 {
      RunGivesLookahead(s, p);
    }
  }

  lemma LookaheadGivesRun(s: string, p: nat)
    requires p <= |s| && GroupLookahead(s, p)
    ensures DigitRun(s, p) > 0 && DigitRun(s, p) % 3 == 0
  {
    var k: nat :| 1 <= k <= |s| && p + 3 * k <= |s| && AllDigits(s[p..p + 3 * k])
                  && (p + 3 * k == |s| || !IsDigit(s[p + 3 * k]));
    forall i | p <= i < p + 3 * k ensures IsDigit(s[i]) {
      assert s[i] == s[p..p + 3 * k][i - p];
    }
    DigitRunUnique(s, p, 3 * k);
  }

  lemma RunGivesLookahead(s: string, p: nat)
    requires p <= |s| && DigitRun(s, p) > 0 && DigitRun(s, p) % 3 == 0
    ensures GroupLookahead(s, p)
  {
    var k := DigitRun(s, p) / 3;
    var t := s[p..p + 3 * k];
    forall i | 0 <= i < |t| ensures IsDigit(t[i]) {
      assert t[i] == s[p + i];
    }
    assert 1 <= k <= |s|;
  }

  /**
   * The zero-width pattern matches at `p` (a comma is inserted before
   * `s[p]`): no word boundary, and the digits from `p` on form whole groups
   * of three.
   */
  predicate CommaAt(s: string, p: nat)
    requires p <= |s|
  {
    !IsBoundary(s, p) && DigitRun(s, p) > 0 && DigitRun(s, p) % 3 == 0
  }

  /** `CommaAt` is the regex `\B(?=(\d{3})+(?!\d))` matching at `p`. */
  lemma CommaAtIsRegexMatch(s: string, p: nat)
    requires p <= |s|
    ensures CommaAt(s, p) <==> !IsBoundary(s, p) && GroupLookahead(s, p)
  {
    GroupLookaheadIsRun(s, p);
  }

  function Marked(s: string, p: nat): string
    requires p <= |s|
  {
    if CommaAt(s, p) then "," else ""
  }

  /** The characters `s[p..q]`, each preceded by a comma where the regex matches. */
  function InsertCommasIn(s: string, p: nat, q: nat): string
    requires p <= q <= |s|
    decreases q - p
  {
    if p == q then "" else InsertCommasIn(s, p, q - 1) + Marked(s, q - 1) + [s[q - 1]]
  }

  /**
   * `s.replace(/\B(?=(\d{3})+(?!\d))/g, ',')`: every index where the
   * zero-width pattern matches, the end included, gets a comma.
   */
  function GroupIntegerPart(s: string): string {
    InsertCommasIn(s, 0, |s|) + Marked(s, |s|)
  }

  /** Deleting the commas from a comma-free text's grouping gives the text back. */
  lemma {:induction false} UngroupInsertCommas(s: string, q: nat)
    requires q <= |s| && ',' !in s
    ensures RemoveAll(InsertCommasIn(s, 0, q), ',') == s[..q]
    decreases q
  {
    if q > 0 {
      var a, m, ch := InsertCommasIn(s, 0, q - 1), Marked(s, q - 1), s[q - 1];
      assert s[..q] == s[..q - 1] + [ch];
      assert InsertCommasIn(s, 0, q) == a + m + [ch];
      assert RemoveAll(a, ',') == s[..q - 1] by {
        UngroupInsertCommas(s, q - 1);
      }
      assert ch != ',' by {
        assert ch in s;
      }
      RemoveAllCommaStep(a, m, ch);
    }
  }

  /** Deleting commas from a text, an optional comma and one other character. */
  lemma RemoveAllCommaStep(a: string, m: string, ch: char)
    requires (m == "" || m == ",") && ch != ','
    ensures RemoveAll(a + m + [ch], ',') == RemoveAll(a, ',') + [ch]
  {
    assert RemoveAll(m, ',') == "" by {
      if m == "," {
        assert RemoveAll(",", ',') == RemoveAll(""[..], ',');
      }
    }
    RemoveAllAppend(a + m, [ch], ',');
    RemoveAllAppend(a, m, ',');
  }

  /** Grouping only inserts commas: deleting them restores a comma-free input. */
  lemma UngroupIntegerPart(s: string)
    requires ',' !in s
    ensures RemoveAll(GroupIntegerPart(s), ',') == s
  {
    UngroupInsertCommas(s, |s|);
    RemoveAllAppend(InsertCommasIn(s, 0, |s|), Marked(s, |s|), ',');
    assert s[..|s|] == s;
  }

  // ---------------------------------------------------------------------------
  // The reference grouping
  // ---------------------------------------------------------------------------

  /** The digits cut into chunks of three from the right; the first chunk holds the rest. */
  function Chunks(d: string): (r: seq<string>)
    ensures |r| >= 1
    ensures |r[0]| <= 3 && (|d| >= 1 ==> |r[0]| >= 1)
    ensures forall i | 1 <= i < |r| :: |r[i]| == 3
    ensures Join(r, "") == d
    ensures AllDigits(d) ==> forall i | 0 <= i < |r| :: AllDigits(r[i])
    decreases |d|
  {
    if |d| <= 3 then [d]
    else
      var head := Chunks(d[..|d| - 3]);
      var r := head + [d[|d| - 3..]];
      JoinAppend(head, d[|d| - 3..], "");
      assert d == d[..|d| - 3] + "" + d[|d| - 3..];
      assert AllDigits(d) ==> AllDigits(d[..|d| - 3]) && AllDigits(d[|d| - 3..]) by {
        if AllDigits(d) {
          AllDigitsSlice(d, 0, |d| - 3);
          AllDigitsSlice(d, |d| - 3, |d|);
          assert d[0..|d| - 3] == d[..|d| - 3];
        }
      }
      r
  }

  /** The reference grouping: the chunks joined by commas. */
  function GroupDigits(d: string): string {
    Join(Chunks(d), ",")
  }

  /** One grouping step: the last three digits are split off by a comma. */
  lemma GroupDigitsStep(d: string)
    requires |d| > 3
    ensures GroupDigits(d) == GroupDigits(d[..|d| - 3]) + "," + d[|d| - 3..]
  {
    JoinAppend(Chunks(d[..|d| - 3]), d[|d| - 3..], ",");
  }

  /**
   * The grouped digits split on the comma into the chunks: a first group of
   * one to three digits, then groups of exactly three, together the digits.
   */
  lemma GroupDigitsShape(d: string)
    requires AllDigits(d)
    ensures SplitOn(GroupDigits(d), ",") == Chunks(d)
  {
    var r := Chunks(d);
    forall i | 0 <= i < |r| ensures ',' !in r[i] {
      assert AllDigits(r[i]);
      forall k | 0 <= k < |r[i]| ensures r[i][k] != ',' {
        assert IsDigit(r[i][k]);
      }
    }
    SplitJoinChar(r, ',');
  }

  // ---------------------------------------------------------------------------
  // The regex computes the reference grouping
  // ---------------------------------------------------------------------------

  /** On a digit string the regex matches strictly inside, where a multiple of three digits follows. */
  lemma DigitsCommaAt(d: string, k: nat)
    requires AllDigits(d) && k <= |d|
    ensures CommaAt(d, k) <==> 0 < k < |d| && (|d| - k) % 3 == 0
  {
    DigitRunUnique(d, k, |d| - k);
  }

  /** The comma before index `k` of a digit string, in closed form. */
  lemma MarkedDigits(d: string, k: nat)
    requires AllDigits(d) && k <= |d|
    ensures Marked(d, k) == if 0 < k < |d| && (|d| - k) % 3 == 0 then "," else ""
  {
    DigitsCommaAt(d, k);
  }

  /** With no match before `q`, the characters are copied. */
  lemma {:induction false} InsertCommasNone(d: string, q: nat)
    requires q <= |d|
    requires forall k | 0 <= k < q :: !CommaAt(d, k)
    ensures InsertCommasIn(d, 0, q) == d[..q]
    decreases q
  {
    if q > 0 {
      InsertCommasNone(d, q - 1);
      assert d[..q] == d[..q - 1] + [d[q - 1]];
    }
  }

  lemma PrefixMarked(d: string, m: nat, k: nat)
    requires AllDigits(d) && k < m <= |d| && (|d| - m) % 3 == 0
    ensures Marked(d[..m], k) == Marked(d, k)
  {
    var e := d[..m];
    AllDigitsSlice(d, 0, m);
    assert d[0..m] == e;
    MarkedDigits(d, k);
    MarkedDigits(e, k);
    assert (|d| - k) % 3 == (|e| - k) % 3;
  }

  /**
   * Cutting a multiple of three digits off the right keeps every match in
   * the part that is left.
   */
  lemma {:induction false} InsertCommasPrefix(d: string, m: nat, q: nat)
    requires AllDigits(d) && q <= m <= |d| && (|d| - m) % 3 == 0
    ensures InsertCommasIn(d[..m], 0, q) == InsertCommasIn(d, 0, q)
    decreases q
  {
    if q > 0 {
      InsertCommasPrefix(d, m, q - 1);
      var e := d[..m];
      PrefixMarked(d, m, q - 1);
      assert e[q - 1] == d[q - 1];
      assert InsertCommasIn(e, 0, q) == InsertCommasIn(e, 0, q - 1) + Marked(e, q - 1) + [e[q - 1]];
    }
  }

  lemma LastGroupMarks(d: string)
    requires AllDigits(d) && |d| > 3
    ensures Marked(d, |d| - 3) == "," && Marked(d, |d| - 2) == "" && Marked(d, |d| - 1) == ""
  {
    MarkedDigits(d, |d| - 3);
    MarkedDigits(d, |d| - 2);
    MarkedDigits(d, |d| - 1);
  }

  /** The last three digits of a long digit string: one comma before them. */
  lemma InsertCommasLastGroup(d: string)
    requires AllDigits(d) && |d| > 3
    ensures InsertCommasIn(d, 0, |d|) == InsertCommasIn(d, 0, |d| - 3) + "," + d[|d| - 3..]
  {
    var n := |d|;
    LastGroupMarks(d);
    var a := InsertCommasIn(d, 0, n - 3);
    var x, y, z := d[n - 3], d[n - 2], d[n - 1];
    var b := InsertCommasIn(d, 0, n - 2);
    var c := InsertCommasIn(d, 0, n - 1);
    assert b == a + Marked(d, n - 3) + [x];
    assert c == b + Marked(d, n - 2) + [y];
    assert InsertCommasIn(d, 0, n) == c + Marked(d, n - 1) + [z];
    assert c == a + "," + [x, y];
    assert d[n - 3..] == [x, y, z];
  }

  /** On a string of digits the regex replacement is the reference grouping. */
  lemma {:induction false} GroupIntegerPartDigits(d: string)
    requires AllDigits(d)
    ensures GroupIntegerPart(d) == GroupDigits(d)
    decreases |d|
  {
    if |d| <= 3 {
      GroupShortDigits(d);
    } else {
      AllDigitsSlice(d, 0, |d| - 3);
      assert d[0..|d| - 3] == d[..|d| - 3];
      GroupIntegerPartDigits(d[..|d| - 3]);
      GroupDigitsExtend(d);
    }
  }

  /** Up to three digits get no comma. */
  lemma GroupShortDigits(d: string)
    requires AllDigits(d) && |d| <= 3
    ensures GroupIntegerPart(d) == GroupDigits(d)
  {
    var n := |d|;
    DigitsCommaAt(d, n);
    assert Marked(d, n) == "";
    forall k | 0 <= k < n ensures !CommaAt(d, k) {
      DigitsCommaAt(d, k);
    }
    InsertCommasNone(d, n);
    assert d[..n] == d;
  }

  /** Three more digits on the right add one group to both groupings. */
  lemma GroupDigitsExtend(d: string)
    requires AllDigits(d) && |d| > 3
    requires GroupIntegerPart(d[..|d| - 3]) == GroupDigits(d[..|d| - 3])
    ensures GroupIntegerPart(d) == GroupDigits(d)
  {
    var n := |d|;
    var e := d[..n - 3];
    DigitsCommaAt(d, n);
    assert Marked(d, n) == "";
    AllDigitsSlice(d, 0, n - 3);
    assert d[0..n - 3] == e;
    DigitsCommaAt(e, |e|);
    assert GroupIntegerPart(e) == InsertCommasIn(e, 0, n - 3);
    InsertCommasPrefix(d, n - 3, n - 3);
    InsertCommasLastGroup(d);
    GroupDigitsStep(d);
  }

  /** Behind a minus sign the regex sees the same matches, one index later. */
  lemma ShiftMarked(d: string, k: nat)
    requires AllDigits(d) && 1 <= k <= |d| + 1
    ensures Marked("-" + d, k) == Marked(d, k - 1)
    ensures Marked("-" + d, 0) == ""
  {
    var s := "-" + d;
    assert DigitRun(s, 0) == 0;
    DigitRunUnique(s, k, |s| - k);
    DigitRunUnique(d, k - 1, |d| - (k - 1));
    if k <= |d| {
      assert s[k] == d[k - 1];
    }
    if k >= 2 {
      assert s[k - 1] == d[k - 2];
    }
  }

  /** No comma goes between the sign and the first digit. */
  lemma {:induction false} InsertCommasShift(d: string, q: nat)
    requires AllDigits(d) && q <= |d|
    ensures InsertCommasIn("-" + d, 0, q + 1) == "-" + InsertCommasIn(d, 0, q)
    decreases q
  {
    if q == 0 {
      ShiftMarked(d, 1);
      assert InsertCommasIn("-" + d, 0, 1) == "" + Marked("-" + d, 0) + ['-'];
    } else {
      InsertCommasShift(d, q - 1);
      InsertCommasShiftStep(d, q);
    }
  }

  lemma InsertCommasShiftStep(d: string, q: nat)
    requires AllDigits(d) && 1 <= q <= |d|
    requires InsertCommasIn("-" + d, 0, q) == "-" + InsertCommasIn(d, 0, q - 1)
    ensures InsertCommasIn("-" + d, 0, q + 1) == "-" + InsertCommasIn(d, 0, q)
  {
    var s := "-" + d;
    ShiftMarked(d, q);
    var a := InsertCommasIn(d, 0, q - 1);
    assert InsertCommasIn(s, 0, q + 1) == InsertCommasIn(s, 0, q) + Marked(s, q) + [s[q]];
    assert InsertCommasIn(d, 0, q) == a + Marked(d, q - 1) + [d[q - 1]];
    assert s[q] == d[q - 1];
  }

  /** A negative integer part keeps its sign in front of the grouped digits. */
  lemma GroupIntegerPartSigned(d: string)
    requires AllDigits(d)
    ensures GroupIntegerPart("-" + d) == "-" + GroupDigits(d)
  {
    var s := "-" + d;
    InsertCommasShift(d, |d|);
    ShiftMarked(d, |s|);
    GroupIntegerPartDigits(d);
    DigitsCommaAt(d, |d|);
    assert Marked(d, |d|) == "";
  }
}
