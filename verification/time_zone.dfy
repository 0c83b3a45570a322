/**
 * `timeZone2MomentUTC` and the offset choice of `timeRenderWithUTC`: the
 * user's time zone name is looked up in the table and `|| 8` supplies the
 * offset when the lookup is falsy.
 *
 * Parsing and formatting with moment are parameters: whether the time
 * parses, and the formatting of the parsed time at a given offset.
 */
module TimeZone {
  import opened Options
  import opened JsValues

  /** `timeZone2MomentUTC`. */
  const TimeZoneOffsets: map<string, int> := map[
    "GMT-12" := -12,
    "GMT-11" := -11,
    "GMT-10" := -10,
    "GMT-9" := -9,
    "GMT-8" := -8,
    "GMT-7" := -7,
    "GMT-6" := -6,
    "GMT-5" := -5,
    "GMT-4" := -4,
    "GMT-3" := -3,
    "GMT-2" := -2,
    "GMT-1" := -1,
    "GMT" := 0,
    "GMT+1" := 1,
    "GMT+2" := 2,
    "GMT+3" := 3,
    "GMT+4" := 4,
    "GMT+5" := 5,
    "GMT+6" := 6,
    "GMT+7" := 7,
    "GMT+8" := 8,
    "GMT+9" := 9,
    "GMT+10" := 10,
    "GMT+11" := 11,
    "GMT+12" := 12
  ]

  /** The decimal digits of an hour count from 0 to 19. */
  function HourText(h: nat): string
    requires h < 20
  {
    if h < 10 then [DigitChar(h)] else ['1', DigitChar(h - 10)]
  }

  /** The zone name for a whole-hour offset: "GMT", "GMT+n" or "GMT-n". */
  function GmtName(n: int): string
    requires -12 <= n <= 12
  {
    if n == 0 then "GMT"
    else if n > 0 then "GMT+" + HourText(n)
    else "GMT-" + HourText(-n)
  }

  /** The table maps the zone name of every offset from -12 to 12 to that offset. */
  lemma TableInvertsGmtName(n: int)
    requires -12 <= n <= 12
    ensures GmtName(n) in TimeZoneOffsets && TimeZoneOffsets[GmtName(n)] == n
  {
    if n <= -10 {
      TableWestTens(n);
    } else if n <= -5 {
      TableWestFar(n);
    } else if n <= -1 {
      TableWestNear(n);
    } else if n <= 0 {
      TableGreenwich(n);
    } else if n <= 6 {
      TableEastNear(n);
    } else {
      TableEastFar(n);
    }
  }

  lemma TableWestTens(n: int)
    requires -12 <= n <= -10
    ensures GmtName(n) in TimeZoneOffsets && TimeZoneOffsets[GmtName(n)] == n
  {
    if n == -12 {
      assert DigitChar(1) == '1' && DigitChar(2) == '2';
      assert GmtName(-12) == "GMT-12";
    } else if n == -11 {
      assert DigitChar(1) == '1';
      assert GmtName(-11) == "GMT-11";
    } else {
      assert DigitChar(1) == '1' && DigitChar(0) == '0';
      assert GmtName(-10) == "GMT-10";
    }
  }

  lemma TableWestFar(n: int)
    requires -9 <= n <= -5
    ensures GmtName(n) in TimeZoneOffsets && TimeZoneOffsets[GmtName(n)] == n
  {
    if n == -9 {
      assert DigitChar(9) == '9';
      assert GmtName(-9) == "GMT-9";
    } else if n == -8 {
      assert DigitChar(8) == '8';
      assert GmtName(-8) == "GMT-8";
    } else if n == -7 {
      assert DigitChar(7) == '7';
      assert GmtName(-7) == "GMT-7";
    } else if n == -6 {
      assert DigitChar(6) == '6';
      assert GmtName(-6) == "GMT-6";
    } else {
      assert DigitChar(5) == '5';
      assert GmtName(-5) == "GMT-5";
    }
  }

  lemma TableWestNear(n: int)
    requires -4 <= n <= -1
    ensures GmtName(n) in TimeZoneOffsets && TimeZoneOffsets[GmtName(n)] == n
  {
    if n == -4 {
      assert DigitChar(4) == '4';
      assert GmtName(-4) == "GMT-4";
    } else if n == -3 {
      assert DigitChar(3) == '3';
      assert GmtName(-3) == "GMT-3";
    } else if n == -2 {
      assert DigitChar(2) == '2';
      assert GmtName(-2) == "GMT-2";
    } else {
      assert DigitChar(1) == '1';
      assert GmtName(-1) == "GMT-1";
    }
  }

  lemma TableGreenwich(n: int)
    requires n == 0
    ensures GmtName(n) in TimeZoneOffsets && TimeZoneOffsets[GmtName(n)] == n
  {
    assert GmtName(0) == "GMT";
  }

  lemma TableEastNear(n: int)
    requires 1 <= n <= 6
    ensures GmtName(n) in TimeZoneOffsets && TimeZoneOffsets[GmtName(n)] == n
  {
    if n == 1 {
      assert DigitChar(1) == '1';
      assert GmtName(1) == "GMT+1";
    } else if n == 2 {
      assert DigitChar(2) == '2';
      assert GmtName(2) == "GMT+2";
    } else if n == 3 {
      assert DigitChar(3) == '3';
      assert GmtName(3) == "GMT+3";
    } else if n == 4 {
      assert DigitChar(4) == '4';
      assert GmtName(4) == "GMT+4";
    } else if n == 5 {
      assert DigitChar(5) == '5';
      assert GmtName(5) == "GMT+5";
    } else {
      assert DigitChar(6) == '6';
      assert GmtName(6) == "GMT+6";
    }
  }

  lemma TableEastFar(n: int)
    requires 7 <= n <= 12
    ensures GmtName(n) in TimeZoneOffsets && TimeZoneOffsets[GmtName(n)] == n
  {
    if n == 7 {
      assert DigitChar(7) == '7';
      assert GmtName(7) == "GMT+7";
    } else if n == 8 {
      assert DigitChar(8) == '8';
      assert GmtName(8) == "GMT+8";
    } else if n == 9 {
      assert DigitChar(9) == '9';
      assert GmtName(9) == "GMT+9";
    } else if n == 10 {
      assert DigitChar(1) == '1' && DigitChar(0) == '0';
      assert GmtName(10) == "GMT+10";
    } else if n == 11 {
      assert DigitChar(1) == '1';
      assert GmtName(11) == "GMT+11";
    } else {
      assert DigitChar(1) == '1' && DigitChar(2) == '2';
      assert GmtName(12) == "GMT+12";
    }
  }

  /** Every offset in the table lies between -12 and 12. */
  lemma TableRange(k: string)
    requires k in TimeZoneOffsets
    ensures -12 <= TimeZoneOffsets[k] <= 12
  {
  }

  /** `timeZone2MomentUTC[timeZone]`: the property read under the name's string form. */
  function ZoneLookup(timeZone: Value): (r: Value)
    ensures r.Undefined? <==> ToString(timeZone) !in TimeZoneOffsets
    ensures ToString(timeZone) in TimeZoneOffsets ==> r == Num(TimeZoneOffsets[ToString(timeZone)])
    ensures r.Num? ==> -12 <= r.n <= 12
    ensures r.Undefined? || r.Num?
  {
    var key := ToString(timeZone);
    if key in TimeZoneOffsets then (TableRange(key); Num(TimeZoneOffsets[key])) else Undefined
  }

  /** `timeZone2MomentUTC[timeZone] || 8`, as written. */
  function UtcOffset(timeZone: Value): (r: int)
    ensures -12 <= r <= 12
    ensures ToString(timeZone) !in TimeZoneOffsets ==> r == 8
  {
    match Or(ZoneLookup(timeZone), Num(8))
    case Num(n) => n
    case _ => 8
  }

  /**
   * As written: every named zone but "GMT" gets its own offset, while
   * "GMT", whose offset 0 is falsy, gets 8 like an unknown zone.
   */
  lemma UtcOffsetAsWritten(n: int)
    requires -12 <= n <= 12
    ensures n != 0 ==> UtcOffset(Str(GmtName(n))) == n
    ensures n == 0 ==> UtcOffset(Str(GmtName(n))) == 8
  {
    TableInvertsGmtName(n);
  }

  /** The offset the table promises: the entry when the zone is known, 8 otherwise. */
  function UtcOffsetIntended(timeZone: Value): (r: int)
    ensures -12 <= r <= 12
    ensures ToString(timeZone) !in TimeZoneOffsets ==> r == 8
  {
    var key := ToString(timeZone);
    if key in TimeZoneOffsets then (TableRange(key); TimeZoneOffsets[key]) else 8
  }

  /** Corrected: every named zone, "GMT" included, gets its own offset. */
  lemma UtcOffsetIntendedInverts(n: int)
    requires -12 <= n <= 12
    ensures UtcOffsetIntended(Str(GmtName(n))) == n
  {
    TableInvertsGmtName(n);
  }

  /**
   * `timeRenderWithUTC(time)`: nothing for a null or undefined time or one
   * that does not parse; otherwise the parsed time formatted at the offset
   * of the user's zone.
   */
  function TimeRenderWithUtc(time: Value, parses: bool, timeZone: Value, formatAt: int -> string): (r: Option<string>)
    ensures r.Some? <==> !IsNullish(time) && parses
  {
    if IsNullish(time) || !parses then None
    else Some(formatAt(UtcOffset(timeZone)))
  }

  /** A time in a named zone other than "GMT" is formatted at that zone's offset; in "GMT", at +8. */
  lemma TimeRenderWithUtcZones(time: Value, timeZone: Value, formatAt: int -> string, n: int)
    requires !IsNullish(time) && -12 <= n <= 12 && timeZone == Str(GmtName(n))
    ensures TimeRenderWithUtc(time, true, timeZone, formatAt) == Some(formatAt(if n == 0 then 8 else n))
  {
    UtcOffsetAsWritten(n);
  }

  /** A time in a zone the table does not name is formatted at +8. */
  lemma TimeRenderWithUtcUnknownZone(time: Value, timeZone: Value, formatAt: int -> string)
    requires !IsNullish(time) && ToString(timeZone) !in TimeZoneOffsets
    ensures TimeRenderWithUtc(time, true, timeZone, formatAt) == Some(formatAt(8))
  {
  }
}
