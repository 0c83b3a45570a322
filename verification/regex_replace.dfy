/**
 * `String.prototype.replace` with a regular expression that matches one
 * fixed text and has no capture groups, as in `url.replace(/organizationId/g, id)`
 * and `url.replace(/\/organizationId/, '')`. The replacement is a string, so
 * its `$` patterns are expanded (the GetSubstitution step of the language
 * standard, ECMA-262).
 */
module RegexReplace {
  import opened Options
  import opened Text

  /**
   * GetSubstitution for a match without capture groups: `$$` stands for `$`,
   * `$&` for the matched text, `` $` `` for the text before the match and
   * `$'` for the text after it. Any other `$` (`$1`, `$<`, a final `$`) is
   * kept as it is, because the pattern has no groups to refer to.
   */
  function Expand(template: string, matched: string, before: string, after: string): string
    decreases |template|
  {
    if |template| == 0 then ""
    else if template[0] == '$' && |template| >= 2 && template[1] in "$&`'" then
      var piece :=
        if template[1] == '$' then "$"
        else if template[1] == '&' then matched
        else if template[1] == '`' then before
        else after;
      piece + Expand(template[2..], matched, before, after)
    else
      [template[0]] + Expand(template[1..], matched, before, after)
  }

  /** A replacement text without `$` is inserted literally. */
  lemma {:induction false} ExpandLiteral(template: string, matched: string, before: string, after: string)
    requires '$' !in template
    ensures Expand(template, matched, before, after) == template
    decreases |template|
  {
    if |template| > 0 {
      assert template[1..] == template[1..];
      assert '$' !in template[1..] by {
        forall k | 0 <= k < |template[1..]| ensures template[1..][k] != '$' {
          assert template[1..][k] == template[k + 1];
        }
      }
      ExpandLiteral(template[1..], matched, before, after);
    }
  }

  /**
   * The global replacement, scanning from index `i`: at each index where
   * `pat` occurs the expanded replacement is emitted and the scan resumes
   * after the match; elsewhere the character is kept.
   */
  function ReplaceAllFrom(s: string, pat: string, rep: string, i: nat): string
    requires |pat| > 0 && i <= |s|
    decreases |s| - i
  {
    if i + |pat| > |s| then s[i..]
    else if OccursAt(s, pat, i) then
      Expand(rep, pat, s[..i], s[i + |pat|..]) + ReplaceAllFrom(s, pat, rep, i + |pat|)
    else
      [s[i]] + ReplaceAllFrom(s, pat, rep, i + 1)
  }

  /** `s.replace(/pat/g, rep)`. */
  function ReplaceAll(s: string, pat: string, rep: string): string
    requires |pat| > 0
  {
    ReplaceAllFrom(s, pat, rep, 0)
  }

  /** `s.replace(/pat/, rep)`: only the first occurrence is replaced. */
  function ReplaceFirst(s: string, pat: string, rep: string): string {
    match IndexOf(s, pat)
    case None => s
    case Some(i) => s[..i] + Expand(rep, pat, s[..i], s[i + |pat|..]) + s[i + |pat|..]
  }

  /** The scan copies the stretch before the next occurrence unchanged. */
  lemma {:induction false} ReplaceAllSkips(s: string, pat: string, rep: string, j: nat, k: nat)
    requires |pat| > 0 && j <= k <= |s|
    requires forall m: nat :: j <= m < k ==> !OccursAt(s, pat, m)
    ensures ReplaceAllFrom(s, pat, rep, j) == s[j..k] + ReplaceAllFrom(s, pat, rep, k)
    decreases k - j
  {
    if j == k {
      assert s[j..k] == "";
    } else if j + |pat| > |s| {
      assert s[j..] == s[j..k] + s[k..];
    } else {
      ReplaceAllSkips(s, pat, rep, j + 1, k);
      assert s[j..k] == [s[j]] + s[j + 1..k];
    }
  }

  /** Splitting at the first occurrence and joining with `rep`. */
  lemma JoinSplitAtFirst(t: string, pat: string, rep: string, k: nat, before: string, after: string)
    requires |pat| > 0 && IndexOf(t, pat) == Some(k)
    requires before == t[..k] && after == t[k + |pat|..]
    ensures Join(SplitOn(t, pat), rep) == before + rep + Join(SplitOn(after, pat), rep)
  {
    var rest := SplitOn(after, pat);
    assert SplitOn(t, pat) == [t[..k]] + rest;
    assert ([t[..k]] + rest)[1..] == rest;
  }

  /** At an occurrence the scan emits the replacement and resumes after the match. */
  lemma ReplaceAllAtOccurrence(s: string, pat: string, rep: string, i: nat)
    requires |pat| > 0 && OccursAt(s, pat, i) && '$' !in rep
    ensures ReplaceAllFrom(s, pat, rep, i) == rep + ReplaceAllFrom(s, pat, rep, i + |pat|)
  {
    ExpandLiteral(rep, pat, s[..i], s[i + |pat|..]);
  }

  /** Away from an occurrence the scan keeps one character and moves on. */
  lemma ReplaceAllAtOther(s: string, pat: string, rep: string, i: nat)
    requires |pat| > 0 && i + |pat| <= |s| && !OccursAt(s, pat, i)
    ensures ReplaceAllFrom(s, pat, rep, i) == [s[i]] + ReplaceAllFrom(s, pat, rep, i + 1)
  {
  }

  /** With a `$`-free replacement the scan of `s` from `j` only depends on `s[j..]`. */
  lemma {:induction false} ReplaceAllSuffix(s: string, pat: string, rep: string, j: nat)
    requires |pat| > 0 && j <= |s| && '$' !in rep
    ensures ReplaceAllFrom(s, pat, rep, j) == ReplaceAllFrom(s[j..], pat, rep, 0)
    decreases |s| - j
  {
    var t := s[j..];
    if j + |pat| > |s| {
      assert t[0..] == t;
    } else if OccursAt(s, pat, j) {
      OccursInSuffix(s, pat, j, 0);
      ReplaceAllSuffixMatch(s, pat, rep, j);
    } else {
      OccursInSuffix(s, pat, j, 0);
      ReplaceAllSuffixOther(s, pat, rep, j);
    }
  }

  lemma {:induction false} ReplaceAllSuffixMatch(s: string, pat: string, rep: string, j: nat)
    requires |pat| > 0 && j <= |s| && '$' !in rep
    requires OccursAt(s, pat, j) && OccursAt(s[j..], pat, 0)
    ensures ReplaceAllFrom(s, pat, rep, j) == ReplaceAllFrom(s[j..], pat, rep, 0)
    decreases |s| - j, 0
  {
    var t := s[j..];
    var u := s[j + |pat|..];
    ReplaceAllAtOccurrence(s, pat, rep, j);
    ReplaceAllSuffix(s, pat, rep, j + |pat|);
    assert ReplaceAllFrom(s, pat, rep, j) == rep + ReplaceAllFrom(u, pat, rep, 0);
    ReplaceAllAtOccurrence(t, pat, rep, 0);
    ReplaceAllSuffix(t, pat, rep, |pat|);
    assert t[|pat|..] == u;
    assert ReplaceAllFrom(t, pat, rep, 0) == rep + ReplaceAllFrom(u, pat, rep, 0);
  }

  lemma {:induction false} ReplaceAllSuffixOther(s: string, pat: string, rep: string, j: nat)
    requires |pat| > 0 && j + |pat| <= |s| && '$' !in rep
    requires !OccursAt(s, pat, j) && !OccursAt(s[j..], pat, 0)
    ensures ReplaceAllFrom(s, pat, rep, j) == ReplaceAllFrom(s[j..], pat, rep, 0)
    decreases |s| - j, 0
  {
    var t := s[j..];
    ReplaceAllAtOther(s, pat, rep, j);
    ReplaceAllAtOther(t, pat, rep, 0);
    ReplaceAllSuffix(s, pat, rep, j + 1);
    ReplaceAllSuffix(t, pat, rep, 1);
    assert t[1..] == s[j + 1..];
  }

  /** The scan from the start, up to and past the first occurrence of `pat`. */
  lemma ReplaceAllAtFirst(t: string, pat: string, rep: string, k: nat)
    requires |pat| > 0 && '$' !in rep
    requires OccursAt(t, pat, k) && forall j: nat :: j < k ==> !OccursAt(t, pat, j)
    ensures ReplaceAll(t, pat, rep) == t[..k] + rep + ReplaceAll(t[k + |pat|..], pat, rep)
  {
    var tail := ReplaceAllFrom(t, pat, rep, k + |pat|);
    assert tail == ReplaceAll(t[k + |pat|..], pat, rep) by {
      ReplaceAllSuffix(t, pat, rep, k + |pat|);
    }
    assert ReplaceAllFrom(t, pat, rep, k) == rep + tail by {
      ReplaceAllAtOccurrence(t, pat, rep, k);
    }
    assert ReplaceAllFrom(t, pat, rep, 0) == t[..k] + ReplaceAllFrom(t, pat, rep, k) by {
      ReplaceAllSkips(t, pat, rep, 0, k);
      assert t[0..k] == t[..k];
    }
  }

  /** The scan of a text without `pat` copies it. */
  lemma ReplaceAllAbsent(t: string, pat: string, rep: string)
    requires |pat| > 0 && !Contains(t, pat)
    ensures ReplaceAll(t, pat, rep) == t
  {
    ReplaceAllSkips(t, pat, rep, 0, |t|);
    assert t[0..|t|] == t;
  }

  /**
   * With a `$`-free replacement, the global replacement is the split of the
   * text on `pat` joined with the replacement: every occurrence is replaced
   * and nothing else changes.
   */
  lemma {:induction false} ReplaceAllIsSplitJoin(t: string, pat: string, rep: string)
    requires |pat| > 0 && '$' !in rep
    ensures ReplaceAll(t, pat, rep) == Join(SplitOn(t, pat), rep)
    decreases |t|
  {
    var r := IndexOf(t, pat);
    if r.None? {
      ReplaceAllAbsent(t, pat, rep);
    } else {
      var k := r.value;
      var after := t[k + |pat|..];
      ReplaceAllAtFirst(t, pat, rep, k);
      ReplaceAllIsSplitJoin(after, pat, rep);
      JoinSplitAtFirst(t, pat, rep, k, t[..k], after);
    }
  }

  /** `$&` expands to the matched text. */
  lemma ExpandMatch(matched: string, before: string, after: string)
    ensures Expand("$&", matched, before, after) == matched
  {
    assert "$&"[2..] == "";
  }

  /** A replacement of `$&` puts every match back: the text is unchanged. */
  lemma {:induction false} ReplaceAllWithMatchIsIdentity(s: string, pat: string, j: nat)
    requires |pat| > 0 && j <= |s|
    ensures ReplaceAllFrom(s, pat, "$&", j) == s[j..]
    decreases |s| - j
  {
    if j + |pat| <= |s| {
      if OccursAt(s, pat, j) {
        assert ReplaceAllFrom(s, pat, "$&", j) == pat + ReplaceAllFrom(s, pat, "$&", j + |pat|) by {
          ExpandMatch(pat, s[..j], s[j + |pat|..]);
        }
        ReplaceAllWithMatchIsIdentity(s, pat, j + |pat|);
        assert s[j..] == pat + s[j + |pat|..] by {
          assert s[j..] == s[j..j + |pat|] + s[j + |pat|..];
        }
      } else {
        assert ReplaceAllFrom(s, pat, "$&", j) == [s[j]] + ReplaceAllFrom(s, pat, "$&", j + 1);
        ReplaceAllWithMatchIsIdentity(s, pat, j + 1);
        assert s[j..] == [s[j]] + s[j + 1..];
      }
    }
  }
}
