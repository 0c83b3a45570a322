/**
 * `numberRender(value, precision, allowThousandth, allowEndZero)`: the
 * validity gate, the removal of thousands separators, fixed-point
 * formatting, thousands grouping of the integer part and the stripping of
 * trailing zeros.
 *
 * Two inputs come from code outside this model and are parameters here:
 * the class of `+value` (finite, an infinity or NaN), and Big.js
 * `toFixed`, a function from the separator-free text and the precision to
 * the fixed-point string.
 */
module NumberRender {
  import opened Options
  import opened Text
  import opened JsValues
  import opened Thousands

  /** What the unary plus makes of the value, as far as the gate can tell. */
  datatype NumberClass = Finite | PositiveInfinity | NegativeInfinity | NotANumber

  /** The empty-value check: null, undefined or the empty string. */
  predicate IsBlank(v: Value) {
    v == Null || v == Undefined || v == Str("")
  }

  /** The early return: an empty value, or `+value` is an infinity or NaN. */
  predicate Rejected(value: Value, plus: NumberClass) {
    IsBlank(value) || plus != Finite
  }

  /**
   * The language's rule for `+value` on the values modelled here: a value
   * whose string form holds a comma converts to NaN, since no numeric
   * literal contains one (strings, arrays of two or more elements and arrays
   * whose element strings hold commas alike).
   */
  predicate CoercionRejectsCommas(value: Value, plus: NumberClass) {
    ',' in ToString(value) ==> plus == NotANumber
  }

  /** A fixed-point string as `toFixed` produces it: an optional sign, digits, and a fraction. */
  datatype Fixed = Fixed(negative: bool, intDigits: string, fracDigits: string)

  predicate ValidFixed(f: Fixed) {
    |f.intDigits| >= 1 && AllDigits(f.intDigits) && AllDigits(f.fracDigits)
  }

  function Sign(f: Fixed): string {
    if f.negative then "-" else ""
  }

  /** The fraction with its dot, or nothing when there are no fraction digits. */
  function FracPart(frac: string): string {
    if |frac| == 0 then "" else "." + frac
  }

  function FixedString(f: Fixed): string {
    Sign(f) + f.intDigits + FracPart(f.fracDigits)
  }

  /** The intended rendering with thousands separators. */
  function GroupedString(f: Fixed): string {
    Sign(f) + GroupDigits(f.intDigits) + FracPart(f.fracDigits)
  }

  // ---------------------------------------------------------------------------
  // The thousands stage
  // ---------------------------------------------------------------------------

  /**
   * `ret.split('.')`; the first piece is grouped and joined back to the
   * second with a dot (any further piece is dropped).
   */
  function AddThousandth(ret: string): string {
    var retList := SplitOn(ret, ".");
    var commaValue := GroupIntegerPart(retList[0]);
    if |retList| > 1 then Join([commaValue, retList[1]], ".") else commaValue
  }

  /** The signed integer part of a fixed string holds no dot. */
  lemma SignedDigitsLackDot(f: Fixed)
    requires ValidFixed(f)
    ensures '.' !in Sign(f) + f.intDigits
    ensures '.' !in f.fracDigits
  {
    DigitsLack(f.intDigits, '.');
    DigitsLack(f.fracDigits, '.');
  }

  /** The grouping stage on a fixed string groups the integer digits and keeps sign and fraction. */
  lemma AddThousandthFixed(f: Fixed)
    requires ValidFixed(f)
    ensures AddThousandth(FixedString(f)) == GroupedString(f)
  {
    var head := Sign(f) + f.intDigits;
    var grouped := Sign(f) + GroupDigits(f.intDigits);
    assert GroupIntegerPart(head) == grouped by {
      GroupSignedHead(f);
    }
    SplitFixedAtDot(f);
    if |f.fracDigits| == 0 {
      AddThousandthWhole(FixedString(f), head);
      assert GroupedString(f) == grouped;
    } else {
      AddThousandthWithFraction(FixedString(f), head, f.fracDigits);
      assert GroupedString(f) == grouped + "." + f.fracDigits;
    }
  }

  /** A text without a dot is grouped as a whole. */
  lemma AddThousandthWhole(ret: string, head: string)
    requires SplitOn(ret, ".") == [head]
    ensures AddThousandth(ret) == GroupIntegerPart(head)
  {
  }

  /** A text with one dot has its part before the dot grouped and the fraction joined back. */
  lemma AddThousandthWithFraction(ret: string, head: string, frac: string)
    requires SplitOn(ret, ".") == [head, frac]
    ensures AddThousandth(ret) == GroupIntegerPart(head) + "." + frac
  {
    assert Join([GroupIntegerPart(head), frac], ".") == GroupIntegerPart(head) + "." + frac by {
      assert [GroupIntegerPart(head), frac][1..] == [frac];
    }
  }

  /** A fixed string splits at its dot into the signed integer part and the fraction, if any. */
  lemma SplitFixedAtDot(f: Fixed)
    requires ValidFixed(f)
    ensures |f.fracDigits| == 0 ==> SplitOn(FixedString(f), ".") == [Sign(f) + f.intDigits]
    ensures |f.fracDigits| > 0 ==> SplitOn(FixedString(f), ".") == [Sign(f) + f.intDigits, f.fracDigits]
  {
    var head := Sign(f) + f.intDigits;
    SignedDigitsLackDot(f);
    if |f.fracDigits| == 0 {
      assert FixedString(f) == head;
      SplitOnCharAbsent(head, '.');
    } else {
      assert FixedString(f) == head + "." + f.fracDigits;
      SplitOnCharFirst(head, '.', f.fracDigits);
      SplitOnCharAbsent(f.fracDigits, '.');
    }
  }

  /** The regex grouping of the signed integer part keeps the sign and groups the digits. */
  lemma GroupSignedHead(f: Fixed)
    requires ValidFixed(f)
    ensures GroupIntegerPart(Sign(f) + f.intDigits) == Sign(f) + GroupDigits(f.intDigits)
  {
    if f.negative {
      GroupIntegerPartSigned(f.intDigits);
    } else {
      assert Sign(f) + f.intDigits == f.intDigits;
      GroupIntegerPartDigits(f.intDigits);
    }
  }

  /** Deleting the commas of the grouped string gives back the fixed string. */
  lemma UngroupFixed(f: Fixed)
    requires ValidFixed(f)
    ensures RemoveAll(GroupedString(f), ',') == FixedString(f)
  {
    GroupIntegerPartDigits(f.intDigits);
    DigitsLack(f.intDigits, ',');
    UngroupIntegerPart(f.intDigits);
    DigitsLack(f.fracDigits, ',');
    RemoveAllAppend(Sign(f) + GroupDigits(f.intDigits), FracPart(f.fracDigits), ',');
    RemoveAllAppend(Sign(f), GroupDigits(f.intDigits), ',');
    assert ',' !in FracPart(f.fracDigits);
  }

  // ---------------------------------------------------------------------------
  // The end-zero stage, as written
  // ---------------------------------------------------------------------------

  /** `t` is matched entirely by `(0|\.0)*`. */
  predicate ZeroTokens(t: string)
    decreases |t|
  {
    || |t| == 0
    || (t[0] == '0' && ZeroTokens(t[1..]))
    || (|t| >= 2 && t[0] == '.' && t[1] == '0' && ZeroTokens(t[2..]))
  }

  /** The leftmost index from `p` on where `(0|\.0)*$` matches. */
  function FirstZeroTail(s: string, p: nat): (q: nat)
    requires p <= |s|
    ensures p <= q <= |s| && ZeroTokens(s[q..])
    ensures forall j | p <= j < q :: !ZeroTokens(s[j..])
    decreases |s| - p
  {
    if ZeroTokens(s[p..]) then p
    else
      assert p < |s| by {
        assert s[|s|..] == "";
      }
      FirstZeroTail(s, p + 1)
  }

  /**
   * `s.replace(/(0|\.0)*$/, '')`: the first match, found scanning from the
   * left, is the longest tail of zeros and ".0" pieces; it is cut off.
   */
  function StripEndZeros(s: string): string {
    s[..FirstZeroTail(s, 0)]
  }

  /**
   * The stage keeps a prefix, cuts a tail of zeros and ".0" pieces, and the
   * result never ends in '0'; it does not end in '.' either when the input
   * has no ".." and does not end in '.'.
   */
  lemma StripEndZerosShape(s: string)
    ensures var r := StripEndZeros(s);
            && r == s[..|r|]
            && ZeroTokens(s[|r|..])
            && (|r| == 0 || r[|r| - 1] != '0')
            && ((|s| == 0 || s[|s| - 1] != '.') && NoDoubleDot(s) ==> |r| == 0 || r[|r| - 1] != '.')
  {
    var q := FirstZeroTail(s, 0);
    if q > 0 {
      var t := s[q - 1..];
      assert !ZeroTokens(t);
      assert t[1..] == s[q..];
      if |t| >= 2 {
        assert t[2..] == s[q + 1..];
      }
      if (|s| == 0 || s[|s| - 1] != '.') && NoDoubleDot(s) && s[q - 1] == '.' {
        assert q < |s|;
        assert s[q] != '.';
        assert s[q..][1..] == s[q + 1..];
      }
    }
  }

  predicate NoDoubleDot(s: string) {
    forall i | 0 <= i < |s| - 1 :: !(s[i] == '.' && s[i + 1] == '.')
  }

  /** A run of zeros is a tail the pattern matches. */
  lemma {:induction false} ZerosAreTokens(k: nat)
    ensures ZeroTokens(seq(k, _ => '0'))
    decreases k
  {
    if k > 0 {
      ZerosAreTokens(k - 1);
      assert seq(k, _ => '0')[1..] == seq(k - 1, _ => '0');
    }
  }

  /** A tail the pattern matches holds only zeros and dots. */
  lemma {:induction false} ZeroTokensChars(t: string)
    ensures ZeroTokens(t) ==> forall i | 0 <= i < |t| :: t[i] == '0' || t[i] == '.'
    decreases |t|
  {
    if |t| >= 1 {
      ZeroTokensChars(t[1..]);
      if |t| >= 2 {
        ZeroTokensChars(t[2..]);
        assert forall i | 2 <= i < |t| :: t[i] == t[2..][i - 2];
      }
      assert forall i | 1 <= i < |t| :: t[i] == t[1..][i - 1];
    }
  }

  /**
   * The stage cuts exactly the tail `t` when `t` is zeros and ".0" pieces
   * and the character before it is neither '0' nor '.'.
   */
  lemma StripEndZerosCut(a: string, t: string)
    requires ZeroTokens(t)
    requires |a| == 0 || (a[|a| - 1] != '0' && a[|a| - 1] != '.')
    ensures StripEndZeros(a + t) == a
  {
    var s := a + t;
    assert s[|a|..] == t;
    forall j | 0 <= j < |a| ensures !ZeroTokens(s[j..]) {
      ZeroTokensChars(s[j..]);
      assert s[j..][|a| - 1 - j] == a[|a| - 1];
    }
    var q := FirstZeroTail(s, 0);
    assert !(q < |a|);
    assert !(|a| < q);
    assert s[..|a|] == a;
  }

  // ---------------------------------------------------------------------------
  // The end-zero stage, corrected: only the fraction loses its trailing zeros
  // ---------------------------------------------------------------------------

  /** Trailing zeros removed. */
  function DropTrailingZeros(t: string): (r: string)
    ensures |r| <= |t| && r == t[..|r|]
    ensures forall i | |r| <= i < |t| :: t[i] == '0'
    ensures |r| == 0 || r[|r| - 1] != '0'
    decreases |t|
  {
    if |t| > 0 && t[|t| - 1] == '0' then DropTrailingZeros(t[..|t| - 1]) else t
  }

  /**
   * The fraction after the first dot loses its trailing zeros, and the dot
   * goes with them when nothing is left; a text without a dot is kept.
   */
  function TrimFractionZeros(s: string): string {
    match IndexOf(s, ".")
    case None => s
    case Some(i) => s[..i] + FracPart(DropTrailingZeros(s[i + 1..]))
  }

  /** A text without a dot, an integer among them, is left alone. */
  lemma TrimKeepsIntegers(s: string)
    requires '.' !in s
    ensures TrimFractionZeros(s) == s
  {
    IndexOfCharAbsent(s, '.');
  }

  /** The integer part is kept as it is; only the fraction is trimmed. */
  lemma TrimFractionZerosAfter(head: string, frac: string)
    requires '.' !in head && '.' !in frac
    ensures TrimFractionZeros(head + FracPart(frac)) == head + FracPart(DropTrailingZeros(frac))
  {
    if |frac| == 0 {
      assert head + FracPart(frac) == head;
      TrimKeepsIntegers(head);
    } else {
      assert head + FracPart(frac) == head + "." + frac;
      TrimAtFirstDot(head, frac);
    }
  }

  /** The text up to the first dot is kept, the fraction after it is trimmed. */
  lemma TrimAtFirstDot(head: string, frac: string)
    requires '.' !in head
    ensures TrimFractionZeros(head + "." + frac) == head + FracPart(DropTrailingZeros(frac))
  {
    var s := head + "." + frac;
    assert IndexOf(s, ".") == Some(|head|) by {
      IndexOfCharFirst(head, '.', frac);
    }
    assert s[..|head|] == head;
    assert s[|head| + 1..] == frac;
    assert TrimFractionZeros(s) == s[..|head|] + FracPart(DropTrailingZeros(s[|head| + 1..]));
  }

  // ---------------------------------------------------------------------------
  // The pipeline
  // ---------------------------------------------------------------------------

  /** `String(value).replace(/,/g, '')`: the text handed to `toFixed`. */
  function Unseparated(value: Value): string {
    RemoveAll(ToString(value), ',')
  }

  /** The grouping stage, when `allowThousandth` is set. */
  function ThousandthStage(fixed: string, allowThousandth: bool): string {
    if allowThousandth then AddThousandth(fixed) else fixed
  }

  /**
   * The end-zero stage as written. It runs when `ret.indexOf('.')` is
   * truthy, which is every index but 0, and -1 (no dot) included.
   */
  function EndZeroStage(ret: string, allowEndZero: bool): string {
    if !allowEndZero && JsIndexOf(ret, ".") != 0 then StripEndZeros(ret) else ret
  }

  /** The end-zero stage as evidently intended: only fraction zeros go. */
  function EndZeroStageIntended(ret: string, allowEndZero: bool): string {
    if !allowEndZero then TrimFractionZeros(ret) else ret
  }

  /** `numberRender` as written. */
  function NumberRender(value: Value, plus: NumberClass, toFixed: (string, nat) -> string,
                        precision: nat, allowThousandth: bool, allowEndZero: bool): (r: string)
    ensures Rejected(value, plus) ==> r == ""
  {
    if Rejected(value, plus) then ""
    else EndZeroStage(ThousandthStage(toFixed(Unseparated(value), precision), allowThousandth), allowEndZero)
  }

  /**
   * `numberRender` as evidently intended: the gate looks at the value with
   * its separators removed (`plusStripped` is the class of `+` of that
   * text), and only fraction zeros are stripped.
   */
  function NumberRenderIntended(value: Value, plusStripped: NumberClass, toFixed: (string, nat) -> string,
                                precision: nat, allowThousandth: bool, allowEndZero: bool): (r: string)
    ensures Rejected(value, plusStripped) ==> r == ""
  {
    if Rejected(value, plusStripped) then ""
    else EndZeroStageIntended(ThousandthStage(toFixed(Unseparated(value), precision), allowThousandth), allowEndZero)
  }

  /**
   * With trailing zeros allowed, an accepted value renders as its fixed
   * string, grouped when asked; deleting the commas gives the fixed string.
   */
  lemma NumberRenderFixed(value: Value, plus: NumberClass, toFixed: (string, nat) -> string,
                          precision: nat, allowThousandth: bool, f: Fixed)
    requires !Rejected(value, plus) && ValidFixed(f)
    requires toFixed(Unseparated(value), precision) == FixedString(f)
    ensures NumberRender(value, plus, toFixed, precision, allowThousandth, true)
            == if allowThousandth then GroupedString(f) else FixedString(f)
    ensures RemoveAll(NumberRender(value, plus, toFixed, precision, allowThousandth, true), ',')
            == FixedString(f)
  {
    AddThousandthFixed(f);
    UngroupFixed(f);
    DigitsLack(f.intDigits, ',');
    DigitsLack(f.fracDigits, ',');
    assert ',' !in FracPart(f.fracDigits);
  }

  /** Zeros in front of a tail the pattern matches still form such a tail. */
  lemma {:induction false} ZerosBeforeTokens(k: nat, t: string)
    requires ZeroTokens(t)
    ensures ZeroTokens(seq(k, _ => '0') + t)
    decreases k
  {
    if k > 0 {
      var s := seq(k, _ => '0') + t;
      assert s[0] == '0';
      assert s[1..] == seq(k - 1, _ => '0') + t;
      ZerosBeforeTokens(k - 1, t);
    } else {
      assert seq(k, _ => '0') + t == t;
    }
  }

  /** A fraction of zeros, with its dot, is a tail the pattern matches. */
  lemma ZeroFractionIsTokens(m: nat)
    ensures ZeroTokens(FracPart(seq(m, _ => '0')))
  {
    if m > 0 {
      var t := FracPart(seq(m, _ => '0'));
      assert t[0] == '.' && t[1] == '0';
      assert t[2..] == seq(m - 1, _ => '0');
      ZerosAreTokens(m - 1);
    }
  }

  /** A text that does not start with a dot has no dot at index 0, so the stage runs. */
  lemma NoLeadingDot(s: string)
    requires |s| > 0 && s[0] != '.'
    ensures JsIndexOf(s, ".") != 0
  {
    assert !OccursAt(s, ".", 0) by {
      assert s[0..1] == [s[0]];
    }
  }

  /**
   * As written, with trailing zeros disallowed and no grouping, a number
   * whose fraction is all zeros loses the zeros of its integer part as
   * well: `100` and `100.00` render as "1", and `0` renders as "".
   */
  lemma NumberRenderStripsIntegerZeros(value: Value, plus: NumberClass, toFixed: (string, nat) -> string,
                                       precision: nat, negative: bool, d: string, k: nat, m: nat)
    requires !Rejected(value, plus)
    requires AllDigits(d) && (|d| == 0 || d[|d| - 1] != '0') && |d| + k >= 1
    requires toFixed(Unseparated(value), precision)
             == FixedString(Fixed(negative, d + seq(k, _ => '0'), seq(m, _ => '0')))
    ensures NumberRender(value, plus, toFixed, precision, false, false)
            == (if negative then "-" else "") + d
  {
    EndZeroStageStripsZeros(negative, d, k, m);
  }

  /** The end-zero stage on a fixed string whose zeros run to its end keeps only the sign and `d`. */
  lemma EndZeroStageStripsZeros(negative: bool, d: string, k: nat, m: nat)
    requires AllDigits(d) && (|d| == 0 || d[|d| - 1] != '0') && |d| + k >= 1
    ensures EndZeroStage(FixedString(Fixed(negative, d + seq(k, _ => '0'), seq(m, _ => '0'))), false)
            == (if negative then "-" else "") + d
  {
    var zeros := seq(k, _ => '0');
    var f := Fixed(negative, d + zeros, seq(m, _ => '0'));
    var head := Sign(f) + d;
    var frac := FracPart(f.fracDigits);
    var tail := zeros + frac;
    var s := FixedString(f);
    assert s == head + tail;
    assert ZeroTokens(tail) by {
      ZeroFractionIsTokens(m);
      ZerosBeforeTokens(k, frac);
    }
    assert s[0] != '.' by {
      assert (d + zeros)[0] == if |d| > 0 then d[0] else '0';
    }
    NoLeadingDot(s);
    assert |head| == 0 || (head[|head| - 1] != '0' && head[|head| - 1] != '.') by {
      if |d| > 0 {
        assert head[|head| - 1] == d[|d| - 1];
      }
    }
    StripEndZerosCut(head, tail);
  }

  /**
   * As written, with grouping and trailing zeros disallowed, a number whose
   * last integer group is "000" and whose fraction is all zeros keeps a
   * dangling comma: `1000` and `1000.00` render as "1,".
   */
  lemma NumberRenderDanglingComma(value: Value, plus: NumberClass, toFixed: (string, nat) -> string,
                                  precision: nat, negative: bool, d: string, m: nat)
    requires !Rejected(value, plus)
    requires |d| >= 1 && AllDigits(d)
    requires toFixed(Unseparated(value), precision) == FixedString(Fixed(negative, d + "000", seq(m, _ => '0')))
    ensures NumberRender(value, plus, toFixed, precision, true, false)
            == (if negative then "-" else "") + GroupDigits(d) + ","
  {
    var f := Fixed(negative, d + "000", seq(m, _ => '0'));
    var head := Sign(f) + GroupDigits(d);
    GroupedThousands(f, d);
    EndZeroStageAfterComma(head, m);
  }

  /** An integer part ending in "000" groups with ",000" at its end. */
  lemma GroupedThousands(f: Fixed, d: string)
    requires |d| >= 1 && AllDigits(d) && f.intDigits == d + "000" && AllDigits(f.fracDigits)
    ensures ValidFixed(f)
    ensures AddThousandth(FixedString(f)) == Sign(f) + GroupDigits(d) + "," + "000" + FracPart(f.fracDigits)
    ensures '.' !in Sign(f) + GroupDigits(d)
  {
    var e := f.intDigits;
    assert AllDigits(e) by {
      assert forall i | 0 <= i < |e| :: e[i] == (if i < |d| then d[i] else '0');
    }
    assert AddThousandth(FixedString(f)) == GroupedString(f) by {
      AddThousandthFixed(f);
    }
    assert GroupDigits(e) == GroupDigits(d) + "," + "000" by {
      assert e[..|e| - 3] == d && e[|e| - 3..] == "000";
      GroupDigitsStep(e);
    }
    assert GroupedString(f) == Sign(f) + GroupDigits(e) + FracPart(f.fracDigits);
    var g := GroupDigits(d);
    assert Sign(f) + (g + "," + "000") + FracPart(f.fracDigits)
        == Sign(f) + g + "," + "000" + FracPart(f.fracDigits);
    assert '.' !in Sign(f) + GroupDigits(d) by {
      GroupedLacksDot(d);
    }
  }

  /**
   * With trailing zeros disallowed, a final ",000" followed by a fraction of
   * zeros loses its zeros and the fraction, but not its comma.
   */
  lemma EndZeroStageAfterComma(a: string, m: nat)
    requires '.' !in a
    ensures EndZeroStage(a + "," + "000" + FracPart(seq(m, _ => '0')), false) == a + ","
  {
    var frac := FracPart(seq(m, _ => '0'));
    var s := a + "," + "000" + frac;
    assert s[0] != '.' by {
      if |a| > 0 {
        assert s[0] == a[0];
      }
    }
    NoLeadingDot(s);
    assert ZeroTokens("000" + frac) by {
      ZeroFractionIsTokens(m);
      ZerosBeforeTokens(3, frac);
      assert seq(3, _ => '0') == "000";
    }
    assert s == (a + ",") + ("000" + frac);
    StripEndZerosCut(a + ",", "000" + frac);
  }

  /**
   * A signed integer part without a dot, then a fraction without one: the
   * text has its only dot in front of the fraction, so no "..", and it does
   * not end in a dot; a non-empty integer part keeps a dot out of front.
   */
  lemma SingleDot(head: string, frac: string)
    requires '.' !in head && '.' !in frac
    ensures NoDoubleDot(head + FracPart(frac))
    ensures var s := head + FracPart(frac); |s| == 0 || s[|s| - 1] != '.'
    ensures |head| > 0 ==> (head + FracPart(frac))[0] != '.'
  {
    var s := head + FracPart(frac);
    forall i | 0 <= i < |s| - 1 ensures !(s[i] == '.' && s[i + 1] == '.') {
      if i < |head| {
        assert s[i] == head[i];
      } else if i > |head| {
        assert s[i] == frac[i - |head| - 1];
      } else {
        assert s[i + 1] == frac[0];
      }
    }
    if |frac| > 0 {
      assert s[|s| - 1] == frac[|frac| - 1];
    } else if |head| > 0 {
      assert s == head;
    }
    if |head| > 0 {
      assert s[0] == head[0];
    }
  }

  /** The integer part the grouping stage leaves: signed digits, grouped when asked. */
  function StagedHead(f: Fixed, allowThousandth: bool): string {
    Sign(f) + (if allowThousandth then GroupDigits(f.intDigits) else f.intDigits)
  }

  /** The grouping stage keeps the fraction and leaves a non-empty, dot-free integer part. */
  lemma ThousandthStageFixed(f: Fixed, allowThousandth: bool)
    requires ValidFixed(f)
    ensures ThousandthStage(FixedString(f), allowThousandth)
            == StagedHead(f, allowThousandth) + FracPart(f.fracDigits)
    ensures '.' !in StagedHead(f, allowThousandth) && |StagedHead(f, allowThousandth)| > 0
    ensures '.' !in f.fracDigits
  {
    SignedDigitsLackDot(f);
    if allowThousandth {
      AddThousandthFixed(f);
      GroupedLacksDot(f.intDigits);
      DigitsLack(f.intDigits, ',');
      GroupIntegerPartDigits(f.intDigits);
      UngroupIntegerPart(f.intDigits);
    }
  }

  /** With trailing zeros disallowed, a text with at most a dot before a fraction ends clean. */
  lemma EndZeroStageClean(head: string, frac: string)
    requires '.' !in head && '.' !in frac && |head| > 0
    ensures var r := EndZeroStage(head + FracPart(frac), false);
            |r| == 0 || (r[|r| - 1] != '0' && r[|r| - 1] != '.')
  {
    var ret := head + FracPart(frac);
    SingleDot(head, frac);
    NoLeadingDot(ret);
    StripEndZerosShape(ret);
  }

  /**
   * As written, with trailing zeros disallowed, a rendered number never
   * ends in '0' or '.', grouped or not.
   */
  lemma NumberRenderEndsClean(value: Value, plus: NumberClass, toFixed: (string, nat) -> string,
                              precision: nat, allowThousandth: bool, f: Fixed)
    requires ValidFixed(f)
    requires toFixed(Unseparated(value), precision) == FixedString(f)
    ensures var r := NumberRender(value, plus, toFixed, precision, allowThousandth, false);
            |r| == 0 || (r[|r| - 1] != '0' && r[|r| - 1] != '.')
  {
    if !Rejected(value, plus) {
      ThousandthStageFixed(f, allowThousandth);
      EndZeroStageClean(StagedHead(f, allowThousandth), f.fracDigits);
    }
  }

  /**
   * Corrected: with trailing zeros disallowed, the integer digits are kept
   * and only the fraction loses its trailing zeros.
   */
  lemma NumberRenderIntendedTrimsFraction(value: Value, plus: NumberClass, toFixed: (string, nat) -> string,
                                          precision: nat, allowThousandth: bool, f: Fixed)
    requires !Rejected(value, plus) && ValidFixed(f)
    requires toFixed(Unseparated(value), precision) == FixedString(f)
    ensures var g := Fixed(f.negative, f.intDigits, DropTrailingZeros(f.fracDigits));
            NumberRenderIntended(value, plus, toFixed, precision, allowThousandth, false)
            == if allowThousandth then GroupedString(g) else FixedString(g)
  {
    SignedDigitsLackDot(f);
    if allowThousandth {
      AddThousandthFixed(f);
      DigitsLack(f.intDigits, '.');
      GroupIntegerPartDigits(f.intDigits);
      GroupedLacksDot(f.intDigits);
      TrimFractionZerosAfter(Sign(f) + GroupDigits(f.intDigits), f.fracDigits);
    } else {
      TrimFractionZerosAfter(Sign(f) + f.intDigits, f.fracDigits);
    }
  }

  /** The grouped digits hold digits and commas only. */
  lemma GroupedLacksDot(d: string)
    requires AllDigits(d)
    ensures '.' !in GroupDigits(d)
  {
    var r := Chunks(d);
    forall k | 0 <= k < |r| ensures !Contains(r[k], ".") {
      DigitsLack(r[k], '.');
      AbsentByChar(r[k], ".", 0);
    }
    JoinAvoids(r, ",", ".");
    var s := GroupDigits(d);
    forall i | 0 <= i < |s| ensures s[i] != '.' {
      assert !OccursAt(s, ".", i);
      assert s[i..i + 1] == [s[i]];
    }
  }

  /**
   * As written the separator removal never changes anything: a value whose
   * string form holds a comma is NaN under `+` and is rejected first. The
   * first conclusion restates the coercion rule `CoercionRejectsCommas`
   * assumes; the second is what follows from it for accepted values.
   */
  lemma CommaStrippingIsDead(value: Value, plus: NumberClass, toFixed: (string, nat) -> string,
                             precision: nat, allowThousandth: bool, allowEndZero: bool)
    requires CoercionRejectsCommas(value, plus)
    ensures ',' in ToString(value) ==> NumberRender(value, plus, toFixed, precision, allowThousandth, allowEndZero) == ""
    ensures !Rejected(value, plus) ==> Unseparated(value) == ToString(value)
  {
  }

  /**
   * As written a grouped string is rejected, while its ungrouped form is
   * rendered: the two never agree.
   */
  lemma GroupedInputRejected(f: Fixed, toFixed: (string, nat) -> string, precision: nat,
                             allowThousandth: bool, allowEndZero: bool)
    requires ValidFixed(f) && |f.intDigits| > 3
    ensures ',' in GroupedString(f)
    ensures forall plus | CoercionRejectsCommas(Str(GroupedString(f)), plus) ::
              NumberRender(Str(GroupedString(f)), plus, toFixed, precision, allowThousandth, allowEndZero) == ""
  {
    var d := f.intDigits;
    GroupDigitsStep(d);
    assert GroupDigits(d)[|GroupDigits(d[..|d| - 3])|] == ',';
    assert GroupedString(f) == Sign(f) + GroupDigits(d) + FracPart(f.fracDigits);
    assert GroupedString(f)[|Sign(f)| + |GroupDigits(d[..|d| - 3])|] == ',';
  }

  /** Corrected: a grouped string and its ungrouped form render identically. */
  lemma GroupedRendersAsPlain(f: Fixed, plus: NumberClass, toFixed: (string, nat) -> string,
                              precision: nat, allowThousandth: bool, allowEndZero: bool)
    requires ValidFixed(f)
    ensures NumberRenderIntended(Str(GroupedString(f)), plus, toFixed, precision, allowThousandth, allowEndZero)
         == NumberRenderIntended(Str(FixedString(f)), plus, toFixed, precision, allowThousandth, allowEndZero)
  {
    assert Unseparated(Str(GroupedString(f))) == FixedString(f) by {
      UngroupFixed(f);
    }
    assert Unseparated(Str(FixedString(f))) == FixedString(f) by {
      DigitsLack(f.intDigits, ',');
      DigitsLack(f.fracDigits, ',');
      assert ',' !in FracPart(f.fracDigits);
    }
    assert !IsBlank(Str(GroupedString(f))) && !IsBlank(Str(FixedString(f))) by {
      assert |FixedString(f)| >= 1;
      assert |GroupedString(f)| >= |FixedString(f)| by {
        UngroupFixed(f);
      }
    }
  }
}
