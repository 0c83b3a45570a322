/**
 * String utilities with the meaning of the JavaScript built-ins the
 * modelled code calls: `indexOf`, `split` on a literal separator,
 * `join`, and removal of every occurrence of one character.
 */
module Text {
  import opened Options

  predicate IsDigit(c: char) {
    '0' <= c <= '9'
  }

  predicate AllDigits(s: string) {
    forall k :: 0 <= k < |s| ==> IsDigit(s[k])
  }

  /** Every slice of a digit string is a digit string. */
  lemma AllDigitsSlice(s: string, i: nat, j: nat)
    requires AllDigits(s) && i <= j <= |s|
    ensures AllDigits(s[i..j])
  {
    var t := s[i..j];
    forall k | 0 <= k < |t| ensures IsDigit(t[k]) {
      assert t[k] == s[i + k];
    }
  }

  /** `pat` occurs in `s` starting at index `i`. */
  predicate OccursAt(s: string, pat: string, i: nat) {
    i + |pat| <= |s| && s[i..i + |pat|] == pat
  }

  predicate Contains(s: string, pat: string) {
    exists i: nat | i <= |s| :: OccursAt(s, pat, i)
  }

  /** The first index at or after `from` where `pat` occurs. */
  function IndexFrom(s: string, pat: string, from: nat): (r: Option<nat>)
    ensures r.Some? ==> from <= r.value && OccursAt(s, pat, r.value)
    ensures forall j: nat :: from <= j && (r.None? || j < r.value) ==> !OccursAt(s, pat, j)
    decreases |s| - from
  {
    if from + |pat| > |s| then None
    else if OccursAt(s, pat, from) then Some(from)
    else IndexFrom(s, pat, from + 1)
  }

  /** The first index where `pat` occurs, if any. */
  function IndexOf(s: string, pat: string): (r: Option<nat>)
    ensures r.None? <==> !Contains(s, pat)
    ensures r.Some? ==> OccursAt(s, pat, r.value) && forall j: nat :: j < r.value ==> !OccursAt(s, pat, j)
  {
    IndexFrom(s, pat, 0)
  }

  /** `s.indexOf(pat)`: the first index, or -1 when `pat` does not occur. */
  function JsIndexOf(s: string, pat: string): int {
    match IndexOf(s, pat)
    case None => -1
    case Some(i) => i
  }

  /** `pieces.join(sep)`. */
  function Join(pieces: seq<string>, sep: string): string {
    if |pieces| == 0 then ""
    else if |pieces| == 1 then pieces[0]
    else pieces[0] + sep + Join(pieces[1..], sep)
  }

  /** Appending one more piece adds the separator and the piece at the end. */
  lemma {:induction false} JoinAppend(pieces: seq<string>, last: string, sep: string)
    requires |pieces| >= 1
    ensures Join(pieces + [last], sep) == Join(pieces, sep) + sep + last
    decreases |pieces|
  {
    if |pieces| == 1 {
      assert (pieces + [last])[1..] == [last];
    } else {
      assert (pieces + [last])[1..] == pieces[1..] + [last];
      JoinAppend(pieces[1..], last, sep);
    }
  }

  /** Splitting on a one-character separator undoes joining pieces that lack it. */
  lemma {:induction false} SplitJoinChar(pieces: seq<string>, c: char)
    requires |pieces| >= 1
    requires forall i | 0 <= i < |pieces| :: c !in pieces[i]
    ensures SplitOn(Join(pieces, [c]), [c]) == pieces
    decreases |pieces|
  {
    if |pieces| == 1 {
      SplitOnCharAbsent(pieces[0], c);
    } else {
      var rest := pieces[1..];
      assert forall i | 0 <= i < |rest| :: c !in rest[i] by {
        forall i | 0 <= i < |rest| ensures c !in rest[i] {
          assert rest[i] == pieces[i + 1];
        }
      }
      SplitJoinChar(rest, c);
      SplitOnCharFirst(pieces[0], c, Join(rest, [c]));
      assert pieces == [pieces[0]] + rest;
    }
  }

  /** An occurrence of `pat` that ends before index `i` is an occurrence in `s[..i]`. */
  lemma OccursInPrefix(s: string, pat: string, i: nat, j: nat)
    requires i <= |s| && j + |pat| <= i
    ensures OccursAt(s[..i], pat, j) <==> OccursAt(s, pat, j)
  {
    assert s[..i][j..j + |pat|] == s[j..j + |pat|];
  }

  /** An occurrence in a suffix is an occurrence in the whole string, shifted. */
  lemma OccursInSuffix(s: string, pat: string, i: nat, j: nat)
    requires i <= |s|
    ensures OccursAt(s[i..], pat, j) <==> OccursAt(s, pat, i + j)
  {
    if i + j + |pat| <= |s| {
      assert s[i..][j..j + |pat|] == s[i + j..i + j + |pat|];
    }
  }

  /**
   * `s.split(sep)`: the pieces between the non-overlapping occurrences of
   * `sep`, found from the left. Joining them with `sep` gives `s` back and
   * no piece contains `sep`.
   */
  function SplitOn(s: string, sep: string): (pieces: seq<string>)
    requires |sep| > 0
    ensures |pieces| >= 1
    ensures Join(pieces, sep) == s
    ensures forall k :: 0 <= k < |pieces| ==> !Contains(pieces[k], sep)
    ensures |pieces| == 1 <==> !Contains(s, sep)
    decreases |s|
  {
    match IndexOf(s, sep)
    case None => [s]
    case Some(i) =>
      var rest := SplitOn(s[i + |sep|..], sep);
      var pieces := [s[..i]] + rest;
      FirstOccurrenceSplits(s, sep, i);
      assert pieces[1..] == rest;
      pieces
  }

  /** Around its first occurrence, `s` is a prefix without `sep`, `sep`, and the rest. */
  lemma FirstOccurrenceSplits(s: string, sep: string, i: nat)
    requires |sep| > 0 && IndexOf(s, sep) == Some(i)
    ensures !Contains(s[..i], sep)
    ensures s == s[..i] + sep + s[i + |sep|..]
  {
    forall j: nat | OccursAt(s[..i], sep, j) ensures false {
      OccursInPrefix(s, sep, i, j);
    }
    assert s[i..i + |sep|] == sep;
    assert s == s[..i] + s[i..i + |sep|] + s[i + |sep|..];
  }

  /** A character that does not occur is not found. */
  lemma IndexOfCharAbsent(s: string, c: char)
    requires c !in s
    ensures IndexOf(s, [c]) == None
  {
    forall i: nat | i <= |s| ensures !OccursAt(s, [c], i) {
      if i + 1 <= |s| {
        assert s[i..i + 1] == [s[i]];
      }
    }
  }

  /** The first occurrence of a character is found after a stretch without it. */
  lemma IndexOfCharFirst(a: string, c: char, b: string)
    requires c !in a
    ensures IndexOf(a + [c] + b, [c]) == Some(|a|)
  {
    var s := a + [c] + b;
    assert OccursAt(s, [c], |a|) by {
      assert s[|a|..|a| + 1] == [c];
    }
    forall j: nat | j < |a| ensures !OccursAt(s, [c], j) {
      assert s[j] == a[j];
      assert s[j..j + 1] == [s[j]];
    }
  }

  /** With a one-character separator, a string without that character is a single piece. */
  lemma SplitOnCharAbsent(s: string, c: char)
    requires c !in s
    ensures SplitOn(s, [c]) == [s]
  {
    IndexOfCharAbsent(s, c);
  }

  /** With a one-character separator, the first piece runs up to the first occurrence of it. */
  lemma SplitOnCharFirst(a: string, c: char, b: string)
    requires c !in a
    ensures SplitOn(a + [c] + b, [c]) == [a] + SplitOn(b, [c])
  {
    var s := a + [c] + b;
    IndexOfCharFirst(a, c, b);
    assert s[..|a|] == a;
    assert s[|a| + 1..] == b;
  }

  /** A digit string holds no character other than digits. */
  lemma DigitsLack(s: string, c: char)
    requires AllDigits(s) && !IsDigit(c)
    ensures c !in s
  {
  }

  /** `a` is obtained from `b` by deleting some of its characters. */
  predicate IsSubsequence(a: string, b: string)
    decreases |b|
  {
    || |a| == 0
    || (|b| > 0 && (if a[0] == b[0] then IsSubsequence(a[1..], b[1..]) else IsSubsequence(a, b[1..])))
  }

  /** How many times `c` occurs in `s`. */
  function Count(s: string, c: char): nat {
    if |s| == 0 then 0 else (if s[0] == c then 1 else 0) + Count(s[1..], c)
  }

  /**
   * `s` with every occurrence of `c` removed (`s.replace(/c/g, '')`): a
   * subsequence of `s` without `c` that is shorter by exactly the number of
   * occurrences of `c`, so every other character is kept, in order.
   */
  function RemoveAll(s: string, c: char): (r: string)
    ensures c !in r
    ensures c !in s ==> r == s
    ensures IsSubsequence(r, s)
    ensures |r| + Count(s, c) == |s|
  {
    if |s| == 0 then ""
    else
      assert s == [s[0]] + s[1..];
      if s[0] == c then RemoveAll(s[1..], c)
      else
        var r := [s[0]] + RemoveAll(s[1..], c);
        assert r[1..] == RemoveAll(s[1..], c);
        r
  }

  lemma {:induction false} RemoveAllAppend(a: string, b: string, c: char)
    ensures RemoveAll(a + b, c) == RemoveAll(a, c) + RemoveAll(b, c)
    decreases |a|
  {
    if |a| == 0 {
      assert a + b == b;
    } else {
      assert (a + b)[1..] == a[1..] + b;
      RemoveAllAppend(a[1..], b, c);
    }
  }

  /** A text that lacks one of the pattern's characters does not contain the pattern. */
  lemma AbsentByChar(s: string, pat: string, m: nat)
    requires m < |pat| && pat[m] !in s
    ensures !Contains(s, pat)
  {
    forall j: nat | j <= |s| ensures !OccursAt(s, pat, j) {
      if j + |pat| <= |s| {
        assert s[j..j + |pat|][m] == s[j + m];
      }
    }
  }

  /** No character of `s` occurs in `pat`. */
  predicate Disjoint(s: string, pat: string) {
    forall k :: 0 <= k < |s| ==> s[k] !in pat
  }

  /**
   * Gluing two strings free of `pat` with a non-empty separator that shares
   * no character with `pat` cannot create an occurrence of `pat`.
   */
  lemma NoOccurrenceAcross(a: string, sep: string, b: string, pat: string)
    requires |pat| > 0 && |sep| > 0 && Disjoint(sep, pat)
    requires !Contains(a, pat) && !Contains(b, pat)
    ensures !Contains(a + sep + b, pat)
  {
    var s := a + sep + b;
    forall j: nat | j <= |s| ensures !OccursAt(s, pat, j) {
      if j + |pat| <= |a| {
        assert s[..|a|] == a;
        OccursInPrefix(s, pat, |a|, j);
      } else if j >= |a| + |sep| {
        assert s[|a| + |sep|..] == b;
        OccursInSuffix(s, pat, |a| + |sep|, j - |a| - |sep|);
      } else if j + |pat| <= |s| {
        var k := if j < |a| then |a| else j;
        assert s[k] == sep[k - |a|];
        assert s[j..j + |pat|][k - j] == s[k];
        assert pat[k - j] in pat;
      }
    }
  }

  /** Joining pieces free of `pat` with such a separator leaves no occurrence of `pat`. */
  lemma {:induction false} JoinAvoids(pieces: seq<string>, sep: string, pat: string)
    requires |pat| > 0 && |sep| > 0 && Disjoint(sep, pat)
    requires forall k :: 0 <= k < |pieces| ==> !Contains(pieces[k], pat)
    ensures !Contains(Join(pieces, sep), pat)
    decreases |pieces|
  {
    if |pieces| == 0 {
      assert !OccursAt("", pat, 0);
    } else if |pieces| > 1 {
      JoinAvoids(pieces[1..], sep, pat);
      NoOccurrenceAcross(pieces[0], sep, Join(pieces[1..], sep), pat);
    }
  }
}
