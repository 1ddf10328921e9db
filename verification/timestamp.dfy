/** The timestamp codec: `unix_to_iso_string` (epoch seconds to text) and
    `get_strptime` (text back to a date-time), for whole non-negative seconds. */
module Timestamp {
  import opened Wrappers
  import opened Decimal
  import opened Calendar
  import TextOrder

  const SecondsPerDay: nat := 86400

  /** 9999-12-31T23:59:59: Python's `datetime` cannot represent a later second. */
  const MaxSeconds: nat := 253402300799

  datatype TimeError =
    | YearOutOfRange      // `utcfromtimestamp` past year 9999
    | MalformedTimestamp  // neither `strptime` format matches

  /** A naive `datetime.datetime` value. */
  datatype DateTime = DateTime(year: int, month: int, day: int,
                               hour: int, minute: int, second: int, microsecond: int)

  /** The field ranges `datetime` enforces on construction. */
  predicate Valid(dt: DateTime) {
    && 1 <= dt.year <= 9999
    && 1 <= dt.month <= 12
    && 1 <= dt.day <= DaysInMonth(dt.year, dt.month)
    && 0 <= dt.hour < 24
    && 0 <= dt.minute < 60
    && 0 <= dt.second < 60
    && 0 <= dt.microsecond < 1000000
  }

  /** Whole seconds from the epoch to `dt`, read as UTC (microseconds dropped). */
  function EpochSeconds(dt: DateTime): int
    requires Valid(dt)
  {
    var days := DaysBeforeYear(dt.year) + DaysBeforeMonth(dt.year, dt.month) + dt.day - 1;
    days * SecondsPerDay + dt.hour * 3600 + dt.minute * 60 + dt.second
  }

  /** `datetime.utcfromtimestamp(t)` for a whole number of seconds `t`. */
  function FromEpoch(t: nat): (dt: DateTime)
    requires t <= MaxSeconds
    ensures Valid(dt) && dt.microsecond == 0 && dt.year >= 1970
    ensures EpochSeconds(dt) == t
  {
    var days := t / SecondsPerDay;
    var secs := t % SecondsPerDay;
    var y := YearOf(days);
    YearOfBelowLimit(days);
    var doy := days - DaysBeforeYear(y);
    YearStep(y);
    var m := MonthFrom(y, doy, 1);
    MonthStep(y, m);
    var d := doy - DaysBeforeMonth(y, m) + 1;
    TimeOfDay(secs);
    DateTime(y, m, d, secs / 3600, secs % 3600 / 60, secs % 60, 0)
  }

  lemma YearOfBelowLimit(days: nat)
    requires days <= MaxSeconds / SecondsPerDay
    ensures YearOf(days) <= 9999
  {
    assert DaysBeforeYear(10000) == 2932897;
    if YearOf(days) > 9999 {
      DaysBeforeYearMonotone(9999, YearOf(days));
      YearStep(9999);
    }
  }

  lemma TimeOfDay(secs: nat)
    requires secs < SecondsPerDay
    ensures secs / 3600 < 24 && secs % 3600 / 60 < 60
    ensures (secs / 3600) * 3600 + (secs % 3600 / 60) * 60 + secs % 60 == secs
  {
  }

  /** `a` falls in an earlier whole second than `b`: Python's `datetime`
      comparison on every field but the microseconds. */
  predicate SecondBefore(a: DateTime, b: DateTime) {
    if a.year != b.year then a.year < b.year
    else if a.month != b.month then a.month < b.month
    else if a.day != b.day then a.day < b.day
    else if a.hour != b.hour then a.hour < b.hour
    else if a.minute != b.minute then a.minute < b.minute
    else a.second < b.second
  }

  predicate SameSecond(a: DateTime, b: DateTime) {
    a.year == b.year && a.month == b.month && a.day == b.day
    && a.hour == b.hour && a.minute == b.minute && a.second == b.second
  }

  /** Day of the year and second of the day stay inside their unit, so that
      a later field never outweighs an earlier one. */
  lemma OffsetsWithinUnit(dt: DateTime)
    requires Valid(dt)
    ensures DaysBeforeMonth(dt.year, dt.month) + dt.day - 1 < DaysBeforeMonth(dt.year, dt.month + 1)
    ensures DaysBeforeMonth(dt.year, dt.month + 1) <= DaysInYear(dt.year)
    ensures dt.hour * 3600 + dt.minute * 60 + dt.second < SecondsPerDay
  {
    MonthStep(dt.year, dt.month);
    MonthsFillYear(dt.year);
    DaysBeforeMonthMonotone(dt.year, dt.month + 1, 13);
  }

  /** Counting seconds from the epoch preserves the order of date-times. */
  lemma EpochSecondsMonotone(a: DateTime, b: DateTime)
    requires Valid(a) && Valid(b) && SecondBefore(a, b)
    ensures EpochSeconds(a) < EpochSeconds(b)
  {
    OffsetsWithinUnit(a);
    OffsetsWithinUnit(b);
    if a.year < b.year {
      DaysBeforeYearMonotone(a.year, b.year);
    } else if a.year == b.year && a.month < b.month {
      DaysBeforeMonthMonotone(a.year, a.month + 1, b.month);
    }
  }

  /** Distinct whole-second date-times have distinct epoch counts. */
  lemma EpochSecondsInjective(a: DateTime, b: DateTime)
    requires Valid(a) && Valid(b) && EpochSeconds(a) == EpochSeconds(b)
    ensures SameSecond(a, b)
  {
    if SecondBefore(a, b) {
      EpochSecondsMonotone(a, b);
    } else if SecondBefore(b, a) {
      EpochSecondsMonotone(b, a);
    }
  }

  /** `FromEpoch` inverts `EpochSeconds` on every whole-second date-time from 1970 to 9999. */
  lemma FromEpochInvertsEpochSeconds(dt: DateTime)
    requires Valid(dt) && dt.year >= 1970 && dt.microsecond == 0
    ensures 0 <= EpochSeconds(dt) <= MaxSeconds
    ensures FromEpoch(EpochSeconds(dt)) == dt
  {
    var last := DateTime(9999, 12, 31, 23, 59, 59, 0);
    assert EpochSeconds(last) == MaxSeconds;
    if SecondBefore(last, dt) {
      EpochSecondsMonotone(last, dt);
    }
    EpochSecondsNonNegative(dt);
    EpochSecondsInjective(dt, FromEpoch(EpochSeconds(dt)));
  }

  lemma EpochSecondsNonNegative(dt: DateTime)
    requires Valid(dt) && dt.year >= 1970
    ensures EpochSeconds(dt) >= 0
  {
    if dt.year > 1970 {
      DaysBeforeYearMonotone(1970, dt.year);
    }
  }

  // ---------------------------------------------------------------------------
  // Rendering: `isoformat()` followed by a literal "Z"

  /** A fixed-width digit field, its separator, then the rest of the text. */
  function Field(digits: string, sep: char, rest: string): string {
    digits + [sep] + rest
  }

  /** What follows the seconds: `isoformat` adds ".ffffff" only for a non-zero microsecond. */
  function FractionText(microsecond: int): string
    requires 0 <= microsecond < 1000000
  {
    if microsecond == 0 then "Z" else "." + Pad6(microsecond) + "Z"
  }

  /** `f"{dt.isoformat()}Z"`: YYYY-MM-DDTHH:MM:SS[.ffffff]Z. */
  function FormatIso(dt: DateTime): string
    requires Valid(dt)
  {
    Field(Pad4(dt.year), '-',
    Field(Pad2(dt.month), '-',
    Field(Pad2(dt.day), 'T',
    Field(Pad2(dt.hour), ':',
    Field(Pad2(dt.minute), ':',
    Pad2(dt.second) + FractionText(dt.microsecond))))))
  }

  /** The rendering is 20 characters, or 27 with microseconds, with the
      separators of YYYY-MM-DDTHH:MM:SS[.ffffff]Z in place. */
  lemma FormatIsoShape(dt: DateTime)
    requires Valid(dt)
    ensures var s := FormatIso(dt);
      && |s| == (if dt.microsecond == 0 then 20 else 27) && s[|s| - 1] == 'Z'
      && s[4] == '-' && s[7] == '-' && s[10] == 'T' && s[13] == ':' && s[16] == ':'
      && (dt.microsecond != 0 ==> s[19] == '.')
  {
  }

  /** The text `unix_to_iso_string` gives for `t` whole seconds. */
  function IsoText(t: nat): string
    requires t <= MaxSeconds
  {
    FormatIso(FromEpoch(t))
  }

  /** `unix_to_iso_string(t)` for whole non-negative seconds: it fails exactly
      when the instant lies beyond year 9999. */
  function UnixToIso(t: nat): (r: Result<string, TimeError>)
    ensures r.Success? <==> t <= MaxSeconds
    ensures r.Success? ==> |r.value| == 20 && r.value[19] == 'Z'
  {
    if t <= MaxSeconds then Success(IsoText(t)) else Failure(YearOutOfRange)
  }

  // ---------------------------------------------------------------------------
  // Parsing: `datetime.strptime` with "%Y-%m-%dT%H:%M:%SZ", then "%Y-%m-%dT%H:%M:%S.%fZ"

  datatype FieldKind = YearField | MonthField | DayField | HourField | MinuteField | SecondField

  predicate NonZeroDigit(c: char) {
    '1' <= c <= '9'
  }

  /** The regular-expression alternatives `strptime` uses for each directive:
      %Y \d\d\d\d; %m 1[0-2]|0[1-9]|[1-9]; %d 3[01]|[12]\d|0[1-9]|[1-9]| [1-9];
      %H 2[0-3]|[01]\d|\d; %M [0-5]\d|\d; %S 6[01]|[0-5]\d|\d. */
  predicate Accepts(kind: FieldKind, t: string) {
    match kind
    case YearField => |t| == 4 && AllDigits(t)
    case MonthField =>
      || (|t| == 2 && t[0] == '1' && '0' <= t[1] <= '2')
      || (|t| == 2 && t[0] == '0' && NonZeroDigit(t[1]))
      || (|t| == 1 && NonZeroDigit(t[0]))
    case DayField =>
      || (|t| == 2 && t[0] == '3' && '0' <= t[1] <= '1')
      || (|t| == 2 && '1' <= t[0] <= '2' && IsDigit(t[1]))
      || (|t| == 2 && t[0] == '0' && NonZeroDigit(t[1]))
      || (|t| == 1 && NonZeroDigit(t[0]))
      || (|t| == 2 && t[0] == ' ' && NonZeroDigit(t[1]))
    case HourField =>
      || (|t| == 2 && t[0] == '2' && '0' <= t[1] <= '3')
      || (|t| == 2 && '0' <= t[0] <= '1' && IsDigit(t[1]))
      || (|t| == 1 && IsDigit(t[0]))
    case MinuteField =>
      || (|t| == 2 && '0' <= t[0] <= '5' && IsDigit(t[1]))
      || (|t| == 1 && IsDigit(t[0]))
    case SecondField =>
      || (|t| == 2 && t[0] == '6' && '0' <= t[1] <= '1')
      || (|t| == 2 && '0' <= t[0] <= '5' && IsDigit(t[1]))
      || (|t| == 1 && IsDigit(t[0]))
  }

  /** `int(text)` of an accepted field (the day may carry a leading space). */
  function FieldValue(kind: FieldKind, t: string): nat
    requires Accepts(kind, t)
  {
    if t[0] == ' ' then Value(t[1..]) else Value(t)
  }

  /** Literal characters of the format match case-insensitively (`strptime`
      compiles its pattern with IGNORECASE). */
  predicate SepMatches(c: char, sep: char) {
    c == sep || (sep == 'T' && c == 't') || (sep == 'Z' && c == 'z')
  }

  /** A field value and the text after the separator that ends the field. */
  datatype Scan = Scan(value: nat, rest: string)

  /** Matches one directive and the literal after it. A separator is never a
      digit, so at most one field width can be followed by it: trying the
      widths in turn finds the same match as the regular expression's backtracking. */
  function ScanField(s: string, kind: FieldKind, sep: char): Option<Scan> {
    if kind == YearField then
      if |s| > 4 && Accepts(kind, s[..4]) && SepMatches(s[4], sep)
      then Some(Scan(FieldValue(kind, s[..4]), s[5..])) else None
    else if |s| > 2 && Accepts(kind, s[..2]) && SepMatches(s[2], sep)
    then Some(Scan(FieldValue(kind, s[..2]), s[3..]))
    else if |s| > 1 && Accepts(kind, s[..1]) && SepMatches(s[1], sep)
    then Some(Scan(FieldValue(kind, s[..1]), s[2..]))
    else None
  }

  /** `%fZ` up to the end of the text: one to six digits, right-padded with
      zeros to a microsecond count as `strptime` does. */
  function ScanFraction(s: string): Option<nat> {
    if 2 <= |s| <= 7 && AllDigits(s[..|s| - 1]) && SepMatches(s[|s| - 1], 'Z')
    then
      var digits := s[..|s| - 1];
      var padded := digits + seq(6 - |digits|, _ => '0');
      Some(Value(padded))
    else None
  }

  /** The fields up to the minutes and the text after the minutes' colon. */
  datatype Prefix = Prefix(year: nat, month: nat, day: nat, hour: nat, minute: nat, rest: string)

  /** Matches "%Y-%m-%dT%H:%M:", the part both formats share. */
  function ScanThroughMinute(s: string): Option<Prefix> {
    var y :- ScanField(s, YearField, '-');
    var mo :- ScanField(y.rest, MonthField, '-');
    var d :- ScanField(mo.rest, DayField, 'T');
    var h :- ScanField(d.rest, HourField, ':');
    var mi :- ScanField(h.rest, MinuteField, ':');
    Some(Prefix(y.value, mo.value, d.value, h.value, mi.value, mi.rest))
  }

  /** Matches the whole text against one of the two formats; the fields are
      not yet checked against the calendar. */
  function MatchFormat(s: string, fractional: bool): Option<DateTime> {
    var p :- ScanThroughMinute(s);
    if fractional then
      var sec :- ScanField(p.rest, SecondField, '.');
      var micro :- ScanFraction(sec.rest);
      Some(DateTime(p.year, p.month, p.day, p.hour, p.minute, sec.value, micro))
    else
      var sec :- ScanField(p.rest, SecondField, 'Z');
      if sec.rest == [] then Some(DateTime(p.year, p.month, p.day, p.hour, p.minute, sec.value, 0))
      else None
  }

  /** `get_strptime(text)`: the whole-second format first; when it does not
      match or names no real date-time, the fractional format. */
  function ParseIso(s: string): (r: Result<DateTime, TimeError>)
    ensures r.Success? ==> Valid(r.value)
    ensures r.Success? && r.value.microsecond != 0 ==> MatchFormat(s, true) == Some(r.value)
  {
    var whole := MatchFormat(s, false);
    if whole.Some? && Valid(whole.value) then Success(whole.value)
    else
      var fractional := MatchFormat(s, true);
      if fractional.Some? && Valid(fractional.value) then Success(fractional.value)
      else Failure(MalformedTimestamp)
  }

  // ---------------------------------------------------------------------------
  // The codec's round trips

  /** A zero-padded field in range is read back by its directive. */
  lemma ScanPadded2(kind: FieldKind, n: nat, sep: char, rest: string)
    requires kind != YearField && n < 100 && Accepts(kind, Pad2(n)) && !IsDigit(sep)
    ensures ScanField(Field(Pad2(n), sep, rest), kind, sep) == Some(Scan(n, rest))
  {
    var s := Field(Pad2(n), sep, rest);
    assert s[..2] == Pad2(n) && s[2] == sep && s[3..] == rest;
  }

  lemma ScanPadded4(n: nat, rest: string)
    requires 1 <= n < 10000
    ensures ScanField(Field(Pad4(n), '-', rest), YearField, '-') == Some(Scan(n, rest))
  {
    var s := Field(Pad4(n), '-', rest);
    assert s[..4] == Pad4(n) && s[4] == '-' && s[5..] == rest;
  }

  /** Every in-range field value renders as text its directive accepts. */
  lemma PaddedFieldsAccepted(dt: DateTime)
    requires Valid(dt)
    ensures Accepts(MonthField, Pad2(dt.month)) && Accepts(DayField, Pad2(dt.day))
    ensures Accepts(HourField, Pad2(dt.hour)) && Accepts(MinuteField, Pad2(dt.minute))
    ensures Accepts(SecondField, Pad2(dt.second))
  {
    assert DaysInMonth(dt.year, dt.month) <= 31;
  }

  lemma ScanFractionPadded(micro: nat)
    requires micro < 1000000
    ensures ScanFraction(Pad6(micro) + "Z") == Some(micro)
  {
    var s := Pad6(micro) + "Z";
    assert s[..|s| - 1] == Pad6(micro);
    assert Pad6(micro) + seq(0, _ => '0') == Pad6(micro);
  }

  /** The shared prefix of a rendered date-time is read back field by field. */
  lemma ScanThroughMinuteOfFormat(dt: DateTime)
    requires Valid(dt)
    ensures ScanThroughMinute(FormatIso(dt))
         == Some(Prefix(dt.year, dt.month, dt.day, dt.hour, dt.minute,
                        Pad2(dt.second) + FractionText(dt.microsecond)))
  {
    PaddedFieldsAccepted(dt);
    var tail := Pad2(dt.second) + FractionText(dt.microsecond);
    var t4 := Field(Pad2(dt.minute), ':', tail);
    var t3 := Field(Pad2(dt.hour), ':', t4);
    var t2 := Field(Pad2(dt.day), 'T', t3);
    var t1 := Field(Pad2(dt.month), '-', t2);
    ScanPadded4(dt.year, t1);
    ScanPadded2(MonthField, dt.month, '-', t2);
    ScanPadded2(DayField, dt.day, 'T', t3);
    ScanPadded2(HourField, dt.hour, ':', t4);
    ScanPadded2(MinuteField, dt.minute, ':', tail);
  }

  /** `get_strptime` reads back every date-time `isoformat() + "Z"` renders,
      with or without microseconds. */
  lemma ParseInvertsFormat(dt: DateTime)
    requires Valid(dt)
    ensures ParseIso(FormatIso(dt)) == Success(dt)
  {
    if dt.microsecond == 0 {
      WholeFormatMatches(dt);
    } else {
      FractionalFormatMatches(dt);
    }
  }

  /** A whole-second rendering matches the first format. */
  lemma WholeFormatMatches(dt: DateTime)
    requires Valid(dt) && dt.microsecond == 0
    ensures MatchFormat(FormatIso(dt), false) == Some(dt)
  {
    PaddedFieldsAccepted(dt);
    ScanThroughMinuteOfFormat(dt);
    assert Pad2(dt.second) + FractionText(dt.microsecond) == Field(Pad2(dt.second), 'Z', []);
    ScanPadded2(SecondField, dt.second, 'Z', []);
  }

  /** A rendering with microseconds fails the first format and matches the
      second. */
  lemma FractionalFormatMatches(dt: DateTime)
    requires Valid(dt) && dt.microsecond != 0
    ensures MatchFormat(FormatIso(dt), false) == None
    ensures MatchFormat(FormatIso(dt), true) == Some(dt)
  {
    PaddedFieldsAccepted(dt);
    ScanThroughMinuteOfFormat(dt);
    var frac := Pad6(dt.microsecond) + "Z";
    assert Pad2(dt.second) + FractionText(dt.microsecond) == Field(Pad2(dt.second), '.', frac);
    ScanPadded2(SecondField, dt.second, '.', frac);
    ScanFractionPadded(dt.microsecond);
    SecondsBeforeFraction(dt.second, frac);
  }

  /** Seconds followed by a fraction do not end at the first format's "Z". */
  lemma SecondsBeforeFraction(second: nat, frac: string)
    requires second < 100
    ensures ScanField(Field(Pad2(second), '.', frac), SecondField, 'Z') == None
  {
    var tail := Field(Pad2(second), '.', frac);
    assert tail[..2] == Pad2(second) && tail[2] == '.' && tail[1] == Pad2(second)[1];
  }

  /** `unix_to_iso_string` followed by `get_strptime` recovers the instant:
      a whole-second date-time `t` seconds after the epoch. */
  lemma UnixToIsoRoundTrip(t: nat)
    requires t <= MaxSeconds
    ensures UnixToIso(t).Success?
    ensures ParseIso(UnixToIso(t).value) == Success(FromEpoch(t))
    ensures EpochSeconds(FromEpoch(t)) == t && FromEpoch(t).microsecond == 0
  {
    ParseInvertsFormat(FromEpoch(t));
  }

  // ---------------------------------------------------------------------------
  // Text order of rendered timestamps

  lemma Pad2Order(a: nat, b: nat)
    requires a < 100 && b < 100
    ensures TextOrder.Le(Pad2(a), Pad2(b)) <==> a <= b
    ensures Pad2(a) == Pad2(b) <==> a == b
  {
    var pa, pb := Pad2(a), Pad2(b);
    assert pa == [pa[0]] + [pa[1]] && pb == [pb[0]] + [pb[1]];
    TextOrder.LeAppend([pa[0]], [pb[0]], [pa[1]], [pb[1]]);
    assert pa[0] == DigitChar(a / 10) && pb[0] == DigitChar(b / 10);
    assert pa[1] == DigitChar(a % 10) && pb[1] == DigitChar(b % 10);
    assert TextOrder.Le([pa[1]], [pb[1]]) <==> a % 10 <= b % 10 by {
      assert [pa[1]][1..] == [] && [pb[1]][1..] == [];
    }
    assert TextOrder.Le([pa[0]], [pb[0]]) <==> a / 10 <= b / 10 by {
      assert [pa[0]][1..] == [] && [pb[0]][1..] == [];
    }
  }

  lemma Pad4Order(a: nat, b: nat)
    requires a < 10000 && b < 10000
    ensures TextOrder.Le(Pad4(a), Pad4(b)) <==> a <= b
    ensures Pad4(a) == Pad4(b) <==> a == b
  {
    Pad2Order(a / 100, b / 100);
    Pad2Order(a % 100, b % 100);
    TextOrder.LeAppend(Pad2(a / 100), Pad2(b / 100), Pad2(a % 100), Pad2(b % 100));
  }

  /** A field and its separator compare first; equal fields defer to the rest. */
  lemma FieldOrder(pa: string, pb: string, va: nat, vb: nat, sep: char, x: string, y: string)
    requires |pa| == |pb|
    requires TextOrder.Le(pa, pb) <==> va <= vb
    requires pa == pb <==> va == vb
    ensures TextOrder.Le(Field(pa, sep, x), Field(pb, sep, y)) <==> va < vb || (va == vb && TextOrder.Le(x, y))
  {
    TextOrder.LeAppend(pa + [sep], pb + [sep], x, y);
    TextOrder.LeAppend(pa, pb, [sep], [sep]);
    TextOrder.LeReflexive([sep]);
    assert pa + [sep] == pb + [sep] ==> pa == (pa + [sep])[..|pa|] == (pb + [sep])[..|pb|] == pb;
  }

  /** For whole-second date-times, the text order of their renderings is their
      chronological order: what makes the textual `min`/`max` of the document
      packet pick the earliest start and the latest end. */
  lemma FormatOrderIsChronological(a: DateTime, b: DateTime)
    requires Valid(a) && Valid(b) && a.microsecond == 0 && b.microsecond == 0
    ensures TextOrder.Le(FormatIso(a), FormatIso(b)) <==> !SecondBefore(b, a)
  {
    Pad4Order(a.year, b.year);
    Pad2Order(a.month, b.month);
    Pad2Order(a.day, b.day);
    var ha, hb := ClockText(a), ClockText(b);
    ClockTextOrder(a, b);
    var da, db := Field(Pad2(a.day), 'T', ha), Field(Pad2(b.day), 'T', hb);
    FieldOrder(Pad2(a.day), Pad2(b.day), a.day, b.day, 'T', ha, hb);
    var oa, ob := Field(Pad2(a.month), '-', da), Field(Pad2(b.month), '-', db);
    FieldOrder(Pad2(a.month), Pad2(b.month), a.month, b.month, '-', da, db);
    FieldOrder(Pad4(a.year), Pad4(b.year), a.year, b.year, '-', oa, ob);
  }

  /** The "HH:MM:SSZ" part of a whole-second rendering. */
  function ClockText(dt: DateTime): string
    requires Valid(dt) && dt.microsecond == 0
  {
    Field(Pad2(dt.hour), ':', Field(Pad2(dt.minute), ':', Pad2(dt.second) + "Z"))
  }

  /** Within a day, the text order of the clock parts is the order of the times. */
  lemma ClockTextOrder(a: DateTime, b: DateTime)
    requires Valid(a) && Valid(b) && a.microsecond == 0 && b.microsecond == 0
    ensures TextOrder.Le(ClockText(a), ClockText(b))
        <==> (if a.hour != b.hour then a.hour < b.hour
              else if a.minute != b.minute then a.minute < b.minute
              else a.second <= b.second)
  {
    Pad2Order(a.hour, b.hour);
    Pad2Order(a.minute, b.minute);
    Pad2Order(a.second, b.second);
    var sa, sb := Pad2(a.second) + "Z", Pad2(b.second) + "Z";
    TextOrder.LeAppend(Pad2(a.second), Pad2(b.second), "Z", "Z");
    TextOrder.LeReflexive("Z");
    var ma, mb := Field(Pad2(a.minute), ':', sa), Field(Pad2(b.minute), ':', sb);
    FieldOrder(Pad2(a.minute), Pad2(b.minute), a.minute, b.minute, ':', sa, sb);
    FieldOrder(Pad2(a.hour), Pad2(b.hour), a.hour, b.hour, ':', ma, mb);
  }

  /** The text `unix_to_iso_string` gives for an earlier whole second never
      sorts after the text for a later one, and conversely. */
  lemma IsoTextOrderIsChronological(t1: nat, t2: nat)
    requires t1 <= MaxSeconds && t2 <= MaxSeconds
    ensures TextOrder.Le(IsoText(t1), IsoText(t2)) <==> t1 <= t2
  {
    var a, b := FromEpoch(t1), FromEpoch(t2);
    FormatOrderIsChronological(a, b);
    if SecondBefore(b, a) {
      EpochSecondsMonotone(b, a);
    }
    if t1 > t2 && !SecondBefore(b, a) {
      if SecondBefore(a, b) {
        EpochSecondsMonotone(a, b);
      }
    }
  }

  // ---------------------------------------------------------------------------
  // Worked instants

  /** Epoch zero, the instant the ellipsoid and billboard builders embed. */
  lemma EpochZeroText()
    ensures UnixToIso(0) == Success("1970-01-01T00:00:00Z")
  {
    EpochZeroDate();
    EpochZeroFormat();
  }

  lemma EpochZeroDate()
    ensures FromEpoch(0) == DateTime(1970, 1, 1, 0, 0, 0, 0)
  {
    EpochZeroYear();
    EpochZeroMonth();
  }

  lemma EpochZeroMonth()
    ensures MonthFrom(1970, 0, 1) == 1
  {
  }

  lemma EpochZeroYear()
    ensures YearOf(0) == 1970
  {
    assert DaysBeforeYear(1971) == 365;
    assert YearFrom(0, 1970) == 1970;
  }

  lemma EpochZeroFormat()
    ensures FormatIso(DateTime(1970, 1, 1, 0, 0, 0, 0)) == "1970-01-01T00:00:00Z"
  {
    FormatFields(DateTime(1970, 1, 1, 0, 0, 0, 0));
    EpochZeroFields();
  }

  lemma EpochZeroFields()
    ensures Pad4(1970) == "1970" && Pad2(0) == "00" && Pad2(1) == "01"
  {
    assert Pad2(19) == "19" && Pad2(70) == "70";
  }

  /** The rendering, field by field. */
  lemma FormatFields(dt: DateTime)
    requires Valid(dt)
    ensures FormatIso(dt) == Pad4(dt.year) + "-" + Pad2(dt.month) + "-" + Pad2(dt.day) + "T"
                           + Pad2(dt.hour) + ":" + Pad2(dt.minute) + ":" + Pad2(dt.second) + FractionText(dt.microsecond)
  {
  }

  /** The first sample of the sample input: 1676502926 is 2023-02-15 23:15:26 UTC. */
  lemma SampleInstantText()
    ensures UnixToIso(1676502926) == Success("2023-02-15T23:15:26Z")
  {
    SampleInstantDate();
    SampleMinuteFormat(26);
    assert Pad2(26) == "26";
    assert "2023-02-15T23:15:" + "26" + "Z" == "2023-02-15T23:15:26Z";
  }

  lemma SampleInstantDate()
    ensures FromEpoch(1676502926) == DateTime(2023, 2, 15, 23, 15, 26, 0)
  {
    assert 1676502926 / SecondsPerDay == 19403 && 1676502926 % SecondsPerDay == 83726;
    SampleInstantYear();
    assert DaysBeforeYear(2023) == 19358;
    SampleInstantMonth();
    assert DaysBeforeMonth(2023, 2) == 31;
  }

  lemma SampleInstantYear()
    ensures YearOf(19403) == 2023
  {
    assert DaysBeforeYear(2023) == 19358 && DaysBeforeYear(2024) == 19723;
    assert YearFrom(19403, 2023) == 2023;
  }

  lemma SampleInstantMonth()
    ensures MonthFrom(2023, 45, 1) == 2
  {
    assert MonthFrom(2023, 45, 2) == 2;
  }

  /** The rendering of a second of the sample input's minute, 2023-02-15 23:15. */
  lemma SampleMinuteFormat(second: nat)
    requires second < 60
    ensures FormatIso(DateTime(2023, 2, 15, 23, 15, second, 0)) == "2023-02-15T23:15:" + Pad2(second) + "Z"
  {
    FormatFields(DateTime(2023, 2, 15, 23, 15, second, 0));
    SampleMinuteFields();
  }

  lemma SampleMinuteFields()
    ensures Pad4(2023) == "2023" && Pad2(2) == "02" && Pad2(15) == "15" && Pad2(23) == "23"
  {
    assert Pad2(20) == "20";
  }

  lemma SampleEndSeconds()
    ensures EpochSeconds(DateTime(2023, 2, 15, 23, 15, 30, 0)) == 1676502930
  {
    assert DaysBeforeYear(2023) == 19358 && DaysBeforeMonth(2023, 2) == 31;
  }

  /** The last sample of the sample input: 1676502930 is 2023-02-15 23:15:30 UTC,
      reached here through the inverse direction. */
  lemma SampleEndText()
    ensures UnixToIso(1676502930) == Success("2023-02-15T23:15:30Z")
  {
    var dt := DateTime(2023, 2, 15, 23, 15, 30, 0);
    SampleEndSeconds();
    FromEpochInvertsEpochSeconds(dt);
    SampleMinuteFormat(30);
    assert Pad2(30) == "30";
    assert "2023-02-15T23:15:" + "30" + "Z" == "2023-02-15T23:15:30Z";
  }
}
