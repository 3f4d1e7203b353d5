/**
 * The bot's time utilities: parsing what the user types, the spreadsheet's
 * `DD.MM.YYYY` / `HH:MM` storage format, durations, and the ISO 8601 `created_at`
 * stamps behind the edit window and the duplicate check.
 *
 * An instant is a `DateTime` read in one fixed zone: the bot's local zone for
 * trip times, UTC for `created_at`. The clock is not read here; "now" is a
 * parameter (`nowLocal` for the local zone, `nowUtc` for UTC).
 */
module TimeUtils {
  import opened Wrappers
  import opened Text

  datatype DateTime = DateTime(year: int, month: int, day: int, hour: int, minute: int, second: int)

  // ---------------------------------------------------------------- Gregorian calendar

  predicate IsLeapYear(y: int)
  {
    y % 4 == 0 && (y % 100 != 0 || y % 400 == 0)
  }

  function DaysInMonth(y: int, m: int): (n: int)
    requires 1 <= m <= 12
    ensures 28 <= n <= 31
  {
    if m == 2 then (if IsLeapYear(y) then 29 else 28)
    else if m == 4 || m == 6 || m == 9 || m == 11 then 30
    else 31
  }

  function DaysInYear(y: int): int
  {
    if IsLeapYear(y) then 366 else 365
  }

  /** The dates Python's `datetime` accepts: years 1 to 9999 and real calendar days. */
  predicate ValidDate(y: int, m: int, d: int)
  {
    1 <= y <= 9999 && 1 <= m <= 12 && 1 <= d <= DaysInMonth(y, m)
  }

  predicate ValidClock(h: int, mi: int)
  {
    0 <= h <= 23 && 0 <= mi <= 59
  }

  predicate Valid(dt: DateTime)
  {
    ValidDate(dt.year, dt.month, dt.day) && ValidClock(dt.hour, dt.minute) && 0 <= dt.second <= 59
  }

  function DaysBeforeYear(y: int): int
    requires y >= 1
  {
    var p := y - 1;
    365 * p + p / 4 - p / 100 + p / 400
  }

  function DaysBeforeMonth(y: int, m: int): int
    requires 1 <= m <= 12
  {
    [0, 31, 59, 90, 120, 151, 181, 212, 243, 273, 304, 334][m - 1] + (if m > 2 && IsLeapYear(y) then 1 else 0)
  }

  /** Days from 1 January of year 1 to the given date. */
  function Ordinal(y: int, m: int, d: int): int
    requires ValidDate(y, m, d)
  {
    DaysBeforeYear(y) + DaysBeforeMonth(y, m) + d - 1
  }

  /** The instant as seconds since 0001-01-01 00:00:00 in the same zone. */
  function Seconds(dt: DateTime): int
    requires Valid(dt)
  {
    ((Ordinal(dt.year, dt.month, dt.day) * 24 + dt.hour) * 60 + dt.minute) * 60 + dt.second
  }

  /** Calendar order: year, then month, day, hour, minute and second. */
  predicate CalendarLess(a: DateTime, b: DateTime)
  {
    || a.year < b.year
    || (a.year == b.year && a.month < b.month)
    || (a.year == b.year && a.month == b.month && a.day < b.day)
    || (a.year == b.year && a.month == b.month && a.day == b.day && a.hour < b.hour)
    || (a.year == b.year && a.month == b.month && a.day == b.day && a.hour == b.hour && a.minute < b.minute)
    || (a.year == b.year && a.month == b.month && a.day == b.day && a.hour == b.hour && a.minute == b.minute
        && a.second < b.second)
  }

  lemma Div4Step(q: int)
    requires q >= 1
    ensures q / 4 - (q - 1) / 4 == if q % 4 == 0 then 1 else 0
  {
  }

  lemma Div100Step(q: int)
    requires q >= 1
    ensures q / 100 - (q - 1) / 100 == if q % 100 == 0 then 1 else 0
  {
  }

  lemma Div400Step(q: int)
    requires q >= 1
    ensures q / 400 - (q - 1) / 400 == if q % 400 == 0 then 1 else 0
  {
  }

  lemma LeapDivisors(y: int)
    ensures y % 400 == 0 ==> y % 100 == 0
    ensures y % 100 == 0 ==> y % 4 == 0
  {
  }

  /** Year `y` contributes exactly its own length to the day count. */
  lemma DaysBeforeNextYear(y: int)
    requires y >= 1
    ensures DaysBeforeYear(y + 1) == DaysBeforeYear(y) + DaysInYear(y)
  {
    Div4Step(y);
    Div100Step(y);
    Div400Step(y);
    LeapDivisors(y);
    var a, b, c := y / 4 - (y - 1) / 4, y / 100 - (y - 1) / 100, y / 400 - (y - 1) / 400;
    assert DaysBeforeYear(y + 1) - DaysBeforeYear(y) == 365 + a - b + c;
  }

  lemma {:induction false} DaysBeforeYearMono(y1: int, y2: int)
    requires 1 <= y1 < y2
    ensures DaysBeforeYear(y1) + DaysInYear(y1) <= DaysBeforeYear(y2)
    decreases y2 - y1
  {
    DaysBeforeNextYear(y1);
    if y1 + 1 < y2 {
      DaysBeforeYearMono(y1 + 1, y2);
    }
  }

  lemma {:induction false} DaysBeforeMonthMono(y: int, m1: int, m2: int)
    requires 1 <= m1 < m2 <= 12
    ensures DaysBeforeMonth(y, m1) + DaysInMonth(y, m1) <= DaysBeforeMonth(y, m2)
    decreases m2 - m1
  {
    if m1 + 1 < m2 {
      DaysBeforeMonthMono(y, m1 + 1, m2);
    }
  }

  lemma OrdinalWithinYear(y: int, m: int, d: int)
    requires ValidDate(y, m, d)
    ensures DaysBeforeYear(y) <= Ordinal(y, m, d) < DaysBeforeYear(y) + DaysInYear(y)
  {
    if m < 12 {
      DaysBeforeMonthMono(y, m, 12);
    }
  }

  lemma OrdinalOrder(a: DateTime, b: DateTime)
    requires Valid(a) && Valid(b)
    requires a.year < b.year || (a.year == b.year && a.month < b.month)
             || (a.year == b.year && a.month == b.month && a.day < b.day)
    ensures Ordinal(a.year, a.month, a.day) < Ordinal(b.year, b.month, b.day)
  {
    if a.year < b.year {
      OrdinalWithinYear(a.year, a.month, a.day);
      OrdinalWithinYear(b.year, b.month, b.day);
      DaysBeforeYearMono(a.year, b.year);
    } else if a.month < b.month {
      DaysBeforeMonthMono(a.year, a.month, b.month);
    }
  }

  lemma SecondsStrict(a: DateTime, b: DateTime)
    requires Valid(a) && Valid(b) && CalendarLess(a, b)
    ensures Seconds(a) < Seconds(b)
  {
    var oa, ob := Ordinal(a.year, a.month, a.day), Ordinal(b.year, b.month, b.day);
    if a.year < b.year || (a.year == b.year && a.month < b.month)
       || (a.year == b.year && a.month == b.month && a.day < b.day) {
      OrdinalOrder(a, b);
      assert Seconds(a) < (oa + 1) * 86400 <= ob * 86400 <= Seconds(b);
    }
  }

  /** Comparing instants in one zone is comparing their calendar fields. */
  lemma SecondsOrder(a: DateTime, b: DateTime)
    requires Valid(a) && Valid(b)
    ensures Seconds(a) <= Seconds(b) <==> !CalendarLess(b, a)
    ensures Seconds(a) == Seconds(b) <==> a == b
  {
    if CalendarLess(b, a) {
      SecondsStrict(b, a);
    } else if CalendarLess(a, b) {
      SecondsStrict(a, b);
    }
  }

  // ---------------------------------------------------------------- ordering and duration

  /** `validate_time_sequence`: the end may equal the start but not precede it. */
  function ValidateTimeSequence(start: DateTime, end: DateTime): (ok: bool)
    requires Valid(start) && Valid(end)
    ensures ok <==> !CalendarLess(end, start)
    ensures start == end ==> ok
  {
    SecondsOrder(start, end);
    Seconds(end) >= Seconds(start)
  }

  /** Whole hours and the remaining whole minutes between two instants. */
  function DurationParts(start: DateTime, end: DateTime): (hm: (int, int))
    requires Valid(start) && Valid(end)
  {
    var secs := Seconds(end) - Seconds(start);
    (secs / 3600, secs % 3600 / 60)
  }

  lemma DurationPartsMeaning(start: DateTime, end: DateTime)
    requires Valid(start) && Valid(end) && ValidateTimeSequence(start, end)
    ensures var (h, m) := DurationParts(start, end);
      var secs := Seconds(end) - Seconds(start);
      h >= 0 && 0 <= m < 60 && h * 60 + m == secs / 60
  {
    var secs := Seconds(end) - Seconds(start);
    var h, r := secs / 3600, secs % 3600;
    assert secs == 3600 * h + r && 0 <= r < 3600;
    assert secs == 60 * (h * 60 + r / 60) + r % 60;
  }

  /** `format_duration`: `"Mм"` when there is no whole hour, `"Hч Mм"` otherwise. */
  function FormatDuration(start: DateTime, end: DateTime): string
    requires Valid(start) && Valid(end)
  {
    var (hours, minutes) := DurationParts(start, end);
    if hours > 0 then IntToString(hours) + "ч " + IntToString(minutes) + "м"
    else IntToString(minutes) + "м"
  }

  lemma FormatDurationShape(start: DateTime, end: DateTime)
    requires Valid(start) && Valid(end) && ValidateTimeSequence(start, end)
    ensures var (h, m) := DurationParts(start, end);
      && 0 <= m < 60 && h * 60 + m == (Seconds(end) - Seconds(start)) / 60
      && FormatDuration(start, end) == (if h == 0 then NatToString(m) + "м" else NatToString(h) + "ч " + NatToString(m) + "м")
  {
    DurationPartsMeaning(start, end);
  }

  // ---------------------------------------------------------------- user input

  const NowWords: set<string> := {"сейчас", "now"}

  predicate DigitRun(s: string, lo: nat, hi: nat)
  {
    lo <= |s| <= hi && AllDigits(s)
  }

  /** `^(\d{1,2}):(\d{2})$`: the hour and minute it captures. */
  function MatchClockPattern(s: string): Option<(nat, nat)>
  {
    var tp := SplitOn(s, ':');
    if |tp| == 2 && DigitRun(tp[0], 1, 2) && DigitRun(tp[1], 2, 2)
    then Some((DigitsValue(tp[0]), DigitsValue(tp[1])))
    else None
  }

  /** `^(\d{1,2})\.(\d{1,2})\.(\d{4})\s+(\d{1,2}):(\d{2})$`: day, month, year, hour and minute. */
  function MatchFullPattern(s: string): Option<(nat, nat, nat, nat, nat)>
  {
    if |s| == 0 || IsSpace(s[0]) || IsSpace(s[|s| - 1]) then None
    else
      var ws := Words(s);
      if |ws| != 2 then None
      else
        var dp := SplitOn(ws[0], '.');
        if |dp| == 3 && DigitRun(dp[0], 1, 2) && DigitRun(dp[1], 1, 2) && DigitRun(dp[2], 4, 4) then
          match MatchClockPattern(ws[1])
          case None => None
          case Some((h, mi)) => Some((DigitsValue(dp[0]), DigitsValue(dp[1]), DigitsValue(dp[2]), h, mi))
        else None
  }

  /**
   * `parse_datetime_input`: after `strip().lower()`, the word for "now", a full
   * `D.M.YYYY H:MM` or a bare `H:MM` on today's local date; anything else, and
   * any impossible date or clock reading, yields `None`.
   */
  function ParseDateTimeInput(input: string, nowLocal: DateTime): (r: Option<DateTime>)
    requires Valid(nowLocal)
    ensures r.Some? ==> Valid(r.value)
    ensures Lower(Strip(input)) in NowWords ==> r == Some(nowLocal)
    ensures r.Some? && Lower(Strip(input)) !in NowWords ==> r.value.second == 0
  {
    ParseNormalized(Lower(Strip(input)), nowLocal)
  }

  /** The matching `parse_datetime_input` does once its input is stripped and lower-cased. */
  function ParseNormalized(s: string, nowLocal: DateTime): (r: Option<DateTime>)
    requires Valid(nowLocal)
    ensures r.Some? ==> Valid(r.value)
    ensures s in NowWords ==> r == Some(nowLocal)
    ensures r.Some? && s !in NowWords ==> r.value.second == 0
  {
    if s in NowWords then Some(nowLocal)
    else
      match MatchFullPattern(s)
      case Some((d, m, y, h, mi)) =>
        if ValidDate(y, m, d) && ValidClock(h, mi) then Some(DateTime(y, m, d, h, mi, 0)) else None
      case None =>
        match MatchClockPattern(s)
        case Some((h, mi)) =>
          if ValidClock(h, mi) then Some(DateTime(nowLocal.year, nowLocal.month, nowLocal.day, h, mi, 0)) else None
        case None => None
  }

  /** Zero-padded numbers as the user would type them in the full form `DD.MM.YYYY HH:MM`. */
  function TypedFull(d: nat, m: nat, y: nat, h: nat, mi: nat): string
    requires d < 100 && m < 100 && y < 10000 && h < 100 && mi < 100
  {
    Pad2(d) + "." + Pad2(m) + "." + Pad4(y) + " " + TypedClock(h, mi)
  }

  function TypedClock(h: nat, mi: nat): string
    requires h < 100 && mi < 100
  {
    Pad2(h) + ":" + Pad2(mi)
  }

  /** Only digits and the separators a typed time uses. */
  predicate TypedChars(s: string)
  {
    forall i :: 0 <= i < |s| ==> IsDigit(s[i]) || s[i] in ".: "
  }

  lemma TypedCharsJoin(a: string, b: string)
    requires TypedChars(a) && TypedChars(b)
    ensures TypedChars(a + b)
  {
    assert forall i :: |a| <= i < |a + b| ==> (a + b)[i] == b[i - |a|];
  }

  lemma ClockChars(h: nat, mi: nat)
    requires h < 100 && mi < 100
    ensures TypedChars(TypedClock(h, mi))
  {
    TypedCharsJoin(Pad2(h), ":");
    TypedCharsJoin(Pad2(h) + ":", Pad2(mi));
  }

  lemma FullChars(d: nat, m: nat, y: nat, h: nat, mi: nat)
    requires d < 100 && m < 100 && y < 10000 && h < 100 && mi < 100
    ensures TypedChars(TypedFull(d, m, y, h, mi))
  {
    TypedCharsJoin(Pad2(d), ".");
    TypedCharsJoin(Pad2(d) + ".", Pad2(m));
    TypedCharsJoin(Pad2(d) + "." + Pad2(m), ".");
    TypedCharsJoin(Pad2(d) + "." + Pad2(m) + ".", Pad4(y));
    TypedCharsJoin(Pad2(d) + "." + Pad2(m) + "." + Pad4(y), " ");
    ClockChars(h, mi);
    TypedCharsJoin(Pad2(d) + "." + Pad2(m) + "." + Pad4(y) + " ", TypedClock(h, mi));
  }

  /** `strip().lower()` leaves typed digits and separators alone. */
  lemma TypedNormalized(s: string)
    requires TypedChars(s) && |s| > 0 && IsDigit(s[0]) && IsDigit(s[|s| - 1])
    ensures Lower(Strip(s)) == s
  {
    StripStripped(s);
    LowerNoCapitals(s);
  }

  lemma ClockMatches(h: nat, mi: nat)
    requires h < 100 && mi < 100
    ensures MatchClockPattern(TypedClock(h, mi)) == Some((h, mi))
  {
    DigitsHaveNo(Pad2(h), ':');
    DigitsHaveNo(Pad2(mi), ':');
    SplitTwo(Pad2(h), Pad2(mi), ':');
    Pad2Value(h);
    Pad2Value(mi);
  }

  lemma FullMatches(d: nat, m: nat, y: nat, h: nat, mi: nat)
    requires d < 100 && m < 100 && y < 10000 && h < 100 && mi < 100
    ensures MatchFullPattern(TypedFull(d, m, y, h, mi)) == Some((d, m, y, h, mi))
  {
    var date := Pad2(d) + "." + Pad2(m) + "." + Pad4(y);
    var time := TypedClock(h, mi);
    assert TypedFull(d, m, y, h, mi) == date + " " + time;
    assert NoSpace(date);
    assert NoSpace(time);
    WordsTwo(date, time);
    DigitsHaveNo(Pad2(d), '.');
    DigitsHaveNo(Pad2(m), '.');
    DigitsHaveNo(Pad4(y), '.');
    SplitThree(Pad2(d), Pad2(m), Pad4(y), '.');
    Pad2Value(d);
    Pad2Value(m);
    Pad4Value(y);
    ClockMatches(h, mi);
  }

  /** A bare clock reading is not the full form: `split()` finds one word, not two. */
  lemma ClockIsNotFull(h: nat, mi: nat)
    requires h < 100 && mi < 100
    ensures MatchFullPattern(TypedClock(h, mi)).None?
  {
    var s := TypedClock(h, mi);
    assert NoSpace(s);
    WordsOne(s);
  }

  /**
   * A zero-padded `DD.MM.YYYY HH:MM` is accepted exactly when it names a real
   * date and clock reading, and then it is read as that minute.
   */
  lemma ParseTypedFull(d: nat, m: nat, y: nat, h: nat, mi: nat, nowLocal: DateTime)
    requires d < 100 && m < 100 && y < 10000 && h < 100 && mi < 100 && Valid(nowLocal)
    ensures ParseDateTimeInput(TypedFull(d, m, y, h, mi), nowLocal)
            == if ValidDate(y, m, d) && ValidClock(h, mi) then Some(DateTime(y, m, d, h, mi, 0)) else None
  {
    var s := TypedFull(d, m, y, h, mi);
    FullChars(d, m, y, h, mi);
    TypedNormalized(s);
    assert |s| == 16;
    FullMatches(d, m, y, h, mi);
  }

  /** A zero-padded bare `HH:MM` is a clock reading on today's local date. */
  lemma ParseTypedClock(h: nat, mi: nat, nowLocal: DateTime)
    requires h < 100 && mi < 100 && Valid(nowLocal)
    ensures ParseDateTimeInput(TypedClock(h, mi), nowLocal)
            == if ValidClock(h, mi) then Some(nowLocal.(hour := h, minute := mi, second := 0)) else None
  {
    var s := TypedClock(h, mi);
    ClockChars(h, mi);
    TypedNormalized(s);
    assert |s| == 5;
    ClockIsNotFull(h, mi);
    ClockMatches(h, mi);
  }

  /** What `format_for_display` shows is read back by `parse_datetime_input` as the same minute. */
  lemma DisplayRoundTrip(dt: DateTime, nowLocal: DateTime)
    requires Valid(dt) && Valid(nowLocal)
    ensures ParseDateTimeInput(FormatForDisplay(dt), nowLocal) == Some(dt.(second := 0))
  {
    assert FormatForDisplay(dt) == TypedFull(dt.day, dt.month, dt.year, dt.hour, dt.minute);
    ParseTypedFull(dt.day, dt.month, dt.year, dt.hour, dt.minute, nowLocal);
  }

  /**
   * The two shapes `parse_datetime_input` reads, as the pieces the patterns
   * capture: a full `D.M.YYYY H:MM` with any run of whitespace between date and
   * clock, or a bare `H:MM`. Day, month and hour take one or two digits.
   */
  datatype TypedForm =
    | FullForm(ds: string, ms: string, ys: string, gap: string, hs: string, mis: string)
    | ClockForm(hs: string, mis: string)

  predicate WellFormedForm(f: TypedForm)
  {
    DigitRun(f.hs, 1, 2) && DigitRun(f.mis, 2, 2)
    && (f.FullForm? ==>
          DigitRun(f.ds, 1, 2) && DigitRun(f.ms, 1, 2) && DigitRun(f.ys, 4, 4)
          && |f.gap| > 0 && AllSpace(f.gap))
  }

  function DatePart(ds: string, ms: string, ys: string): string
  {
    ds + "." + ms + "." + ys
  }

  function ClockPart(hs: string, mis: string): string
  {
    hs + ":" + mis
  }

  /** The text of a form, as it reads after `strip().lower()`. */
  function FormText(f: TypedForm): string
  {
    match f
    case FullForm(ds, ms, ys, gap, hs, mis) => DatePart(ds, ms, ys) + gap + ClockPart(hs, mis)
    case ClockForm(hs, mis) => ClockPart(hs, mis)
  }

  /**
   * The minute a form names: the date it spells out, or today's local date for
   * a bare clock reading; `None` when the date or the clock reading is impossible.
   */
  function FormValue(f: TypedForm, nowLocal: DateTime): Option<DateTime>
    requires WellFormedForm(f)
  {
    var h, mi := DigitsValue(f.hs), DigitsValue(f.mis);
    match f
    case FullForm(ds, ms, ys, _, _, _) =>
      var d, m, y := DigitsValue(ds), DigitsValue(ms), DigitsValue(ys);
      if ValidDate(y, m, d) && ValidClock(h, mi) then Some(DateTime(y, m, d, h, mi, 0)) else None
    case ClockForm(_, _) =>
      if ValidClock(h, mi) then Some(DateTime(nowLocal.year, nowLocal.month, nowLocal.day, h, mi, 0)) else None
  }

  lemma ClockPartMatches(hs: string, mis: string)
    requires DigitRun(hs, 1, 2) && DigitRun(mis, 2, 2)
    ensures MatchClockPattern(ClockPart(hs, mis)) == Some((DigitsValue(hs), DigitsValue(mis)))
    ensures NoSpace(ClockPart(hs, mis))
  {
    DigitsHaveNo(hs, ':');
    DigitsHaveNo(mis, ':');
    SplitTwo(hs, mis, ':');
  }

  lemma DatePartSplits(ds: string, ms: string, ys: string)
    requires DigitRun(ds, 1, 2) && DigitRun(ms, 1, 2) && DigitRun(ys, 4, 4)
    ensures SplitOn(DatePart(ds, ms, ys), '.') == [ds, ms, ys]
    ensures NoSpace(DatePart(ds, ms, ys))
  {
    DigitsHaveNo(ds, '.');
    DigitsHaveNo(ms, '.');
    DigitsHaveNo(ys, '.');
    SplitThree(ds, ms, ys, '.');
  }

  /** A well-formed full form passes the full pattern with the pieces it is made of. */
  lemma FullFormMatches(f: TypedForm)
    requires f.FullForm? && WellFormedForm(f)
    ensures MatchFullPattern(FormText(f))
            == Some((DigitsValue(f.ds), DigitsValue(f.ms), DigitsValue(f.ys), DigitsValue(f.hs), DigitsValue(f.mis)))
  {
    var date, clock := DatePart(f.ds, f.ms, f.ys), ClockPart(f.hs, f.mis);
    DatePartSplits(f.ds, f.ms, f.ys);
    ClockPartMatches(f.hs, f.mis);
    WordsAcrossGap(date, f.gap, clock);
    var s := FormText(f);
    assert s[0] == f.ds[0] && s[|s| - 1] == f.mis[|f.mis| - 1];
  }

  /** A bare clock reading fails the full pattern: `split()` finds one word in it. */
  lemma ClockFormNotFull(f: TypedForm)
    requires f.ClockForm? && WellFormedForm(f)
    ensures MatchFullPattern(FormText(f)).None?
  {
    ClockPartMatches(f.hs, f.mis);
    WordsOne(FormText(f));
  }

  /** The text of a form is already stripped and lower-case, and it is not the word for "now". */
  lemma FormTextPlain(f: TypedForm)
    requires WellFormedForm(f)
    ensures FormText(f) != [] && IsDigit(FormText(f)[0]) && FormText(f) !in NowWords
  {
    var s := FormText(f);
    assert s[0] == (if f.FullForm? then f.ds[0] else f.hs[0]);
    assert "now"[0] == 'n' && "сейчас"[0] == 'с';
  }

  /**
   * Every well-formed form, however its input is padded with whitespace or
   * capitalised, is read as the minute it names, or refused when that minute
   * does not exist.
   */
  lemma ParseForm(input: string, f: TypedForm, nowLocal: DateTime)
    requires Valid(nowLocal) && WellFormedForm(f) && Lower(Strip(input)) == FormText(f)
    ensures ParseDateTimeInput(input, nowLocal) == FormValue(f, nowLocal)
  {
    if f.FullForm? {
      ParseFullForm(f, nowLocal);
    } else {
      ParseClockForm(f, nowLocal);
    }
  }

  lemma ParseFullForm(f: TypedForm, nowLocal: DateTime)
    requires Valid(nowLocal) && f.FullForm? && WellFormedForm(f)
    ensures ParseNormalized(FormText(f), nowLocal) == FormValue(f, nowLocal)
  {
    FormTextPlain(f);
    FullFormMatches(f);
  }

  lemma ParseClockForm(f: TypedForm, nowLocal: DateTime)
    requires Valid(nowLocal) && f.ClockForm? && WellFormedForm(f)
    ensures ParseNormalized(FormText(f), nowLocal) == FormValue(f, nowLocal)
  {
    FormTextPlain(f);
    ClockFormNotFull(f);
    ClockPartMatches(f.hs, f.mis);
  }

  /** What passed the full pattern is a well-formed full form. */
  lemma FullPatternForm(s: string) returns (f: TypedForm)
    requires MatchFullPattern(s).Some?
    ensures f.FullForm? && WellFormedForm(f) && FormText(f) == s
    ensures MatchFullPattern(s)
            == Some((DigitsValue(f.ds), DigitsValue(f.ms), DigitsValue(f.ys), DigitsValue(f.hs), DigitsValue(f.mis)))
  {
    var ws := Words(s);
    var gap := WordsTwoShape(s);
    var dp := SplitOn(ws[0], '.');
    var tp := SplitOn(ws[1], ':');
    JoinSplitOn(ws[0], '.');
    JoinOnThree(dp, '.');
    JoinSplitOn(ws[1], ':');
    JoinOnTwo(tp, ':');
    f := FullForm(dp[0], dp[1], dp[2], gap, tp[0], tp[1]);
  }

  /** What passed the clock pattern is a well-formed bare clock form. */
  lemma ClockPatternForm(s: string) returns (f: TypedForm)
    requires MatchClockPattern(s).Some?
    ensures f.ClockForm? && WellFormedForm(f) && FormText(f) == s
    ensures MatchClockPattern(s) == Some((DigitsValue(f.hs), DigitsValue(f.mis)))
  {
    var tp := SplitOn(s, ':');
    JoinSplitOn(s, ':');
    JoinOnTwo(tp, ':');
    f := ClockForm(tp[0], tp[1]);
  }

  /** What `ParseNormalized` reads, other than the word for "now", is the text of a well-formed form. */
  lemma NormalizedForm(s: string, nowLocal: DateTime) returns (f: TypedForm)
    requires Valid(nowLocal) && ParseNormalized(s, nowLocal).Some? && s !in NowWords
    ensures WellFormedForm(f) && FormText(f) == s && FormValue(f, nowLocal) == ParseNormalized(s, nowLocal)
  {
    if MatchFullPattern(s).Some? {
      f := FullPatternForm(s);
    } else {
      f := ClockPatternForm(s);
    }
  }

  /**
   * Apart from the word for "now", `parse_datetime_input` accepts nothing but a
   * well-formed form: digits, `.` and `:` in one of the two shapes, with only
   * whitespace between date and clock. Every other input yields `None`.
   */
  lemma ParsedIsForm(input: string, nowLocal: DateTime)
    requires Valid(nowLocal) && ParseDateTimeInput(input, nowLocal).Some? && Lower(Strip(input)) !in NowWords
    ensures exists f :: WellFormedForm(f) && FormText(f) == Lower(Strip(input))
                        && FormValue(f, nowLocal) == ParseDateTimeInput(input, nowLocal)
  {
    var f := NormalizedForm(Lower(Strip(input)), nowLocal);
  }

  // ---------------------------------------------------------------- spreadsheet format

  /** `format_datetime_for_sheets`: `("DD.MM.YYYY", "HH:MM")`, seconds dropped. */
  function FormatForSheets(dt: DateTime): (cells: (string, string))
    requires Valid(dt)
    ensures |cells.0| == 10 && |cells.1| == 5
  {
    (Pad2(dt.day) + "." + Pad2(dt.month) + "." + Pad4(dt.year), Pad2(dt.hour) + ":" + Pad2(dt.minute))
  }

  /** `format_datetime_for_display`: `"DD.MM.YYYY HH:MM"`. */
  function FormatForDisplay(dt: DateTime): string
    requires Valid(dt)
  {
    var (date, time) := FormatForSheets(dt);
    date + " " + time
  }

  /**
   * `parse_sheets_datetime`: the date must split into three dot-separated and the
   * time into two colon-separated integers forming a real date and clock reading.
   */
  function ParseSheetsDateTime(dateStr: string, timeStr: string): (r: Option<DateTime>)
    ensures r.Some? ==> Valid(r.value) && r.value.second == 0
    ensures r.Some? ==> |SplitOn(dateStr, '.')| == 3 && |SplitOn(timeStr, ':')| == 2
  {
    var dp := SplitOn(dateStr, '.');
    var tp := SplitOn(timeStr, ':');
    if |dp| != 3 then None
    else
      var day, month, year := ParseInt(dp[0]), ParseInt(dp[1]), ParseInt(dp[2]);
      if day.None? || month.None? || year.None? || |tp| != 2 then None
      else
        var hour, minute := ParseInt(tp[0]), ParseInt(tp[1]);
        if hour.None? || minute.None? then None
        else if ValidDate(year.value, month.value, day.value) && ValidClock(hour.value, minute.value)
        then Some(DateTime(year.value, month.value, day.value, hour.value, minute.value, 0))
        else None
  }

  lemma SplitThree(a: string, b: string, c: string, sep: char)
    requires sep !in a && sep !in b && sep !in c
    ensures SplitOn(a + [sep] + b + [sep] + c, sep) == [a, b, c]
  {
    SplitOnJoin(a, sep, b + [sep] + c);
    SplitOnJoin(b, sep, c);
    SplitOnNoSep(c, sep);
    assert a + [sep] + b + [sep] + c == a + [sep] + (b + [sep] + c);
  }

  lemma SplitTwo(a: string, b: string, sep: char)
    requires sep !in a && sep !in b
    ensures SplitOn(a + [sep] + b, sep) == [a, b]
  {
    SplitOnJoin(a, sep, b);
    SplitOnNoSep(b, sep);
  }

  lemma DigitsHaveNo(s: string, c: char)
    requires AllDigits(s) && !IsDigit(c)
    ensures c !in s
  {
  }

  /** `parse_sheets_datetime(*format_datetime_for_sheets(dt)) == dt` up to the dropped seconds. */
  lemma SheetsRoundTrip(dt: DateTime)
    requires Valid(dt)
    ensures ParseSheetsDateTime(FormatForSheets(dt).0, FormatForSheets(dt).1) == Some(dt.(second := 0))
  {
    var (date, time) := FormatForSheets(dt);
    DigitsHaveNo(Pad2(dt.day), '.');
    DigitsHaveNo(Pad2(dt.month), '.');
    DigitsHaveNo(Pad4(dt.year), '.');
    DigitsHaveNo(Pad2(dt.hour), ':');
    DigitsHaveNo(Pad2(dt.minute), ':');
    SplitThree(Pad2(dt.day), Pad2(dt.month), Pad4(dt.year), '.');
    SplitTwo(Pad2(dt.hour), Pad2(dt.minute), ':');
    ParsePad2(dt.day);
    ParsePad2(dt.month);
    ParsePad4(dt.year);
    ParsePad2(dt.hour);
    ParsePad2(dt.minute);
  }

  // ---------------------------------------------------------------- ISO 8601 stamps

  /** A parsed ISO 8601 stamp: the wall-clock reading and, when aware, its UTC offset in minutes. */
  datatype Stamp = Stamp(at: DateTime, offsetMinutes: Option<int>)

  function IsoDate(dt: DateTime): (s: string)
    requires Valid(dt)
    ensures |s| == 10
  {
    Pad4(dt.year) + "-" + Pad2(dt.month) + "-" + Pad2(dt.day)
  }

  function IsoClock(dt: DateTime): (s: string)
    requires Valid(dt)
    ensures |s| == 8
  {
    Pad2(dt.hour) + ":" + Pad2(dt.minute) + ":" + Pad2(dt.second)
  }

  /** `isoformat()` of an aware UTC datetime. */
  function AwareUtcIsoFormat(dt: DateTime): (s: string)
    requires Valid(dt)
    ensures |s| == 25
  {
    IsoDate(dt) + "T" + IsoClock(dt) + "+00:00"
  }

  /**
   * `get_utc_iso_string()` as written: `isoformat()` of an aware UTC datetime,
   * which already ends in `+00:00`, followed by a second zone marker `Z`.
   */
  function UtcIsoStringAsWritten(nowUtc: DateTime): (s: string)
    requires Valid(nowUtc)
    ensures |s| == 26
  {
    AwareUtcIsoFormat(nowUtc) + "Z"
  }

  /**
   * A UTC stamp with the single marker `Z`: what `datetime.utcnow().isoformat() + "Z"`
   * writes for a registration, and the evident intent of `get_utc_iso_string`.
   */
  function ZuluIsoString(nowUtc: DateTime): (s: string)
    requires Valid(nowUtc)
    ensures |s| == 20
  {
    IsoDate(nowUtc) + "T" + IsoClock(nowUtc) + "Z"
  }

  /** What every reader does before parsing: `replace('Z', '+00:00')`. */
  function NormalizeZulu(s: string): string
  {
    ReplaceAll(s, "Z", "+00:00")
  }

  function FixedDigits(s: string, n: nat): Option<nat>
  {
    if |s| == n && AllDigits(s) then Some(DigitsValue(s)) else None
  }

  /**
   * `datetime.fromisoformat` on the shapes `isoformat()` produces for whole
   * seconds: `YYYY-MM-DD`, one separator character, `HH:MM:SS`, then nothing
   * (a naive stamp) or `+HH:MM` / `-HH:MM` (an aware one).
   */
  function FromIsoFormat(s: string): (r: Option<Stamp>)
    ensures r.Some? ==> Valid(r.value.at)
    ensures r.Some? ==> |s| == 19 || |s| == 25
  {
    if |s| != 19 && |s| != 25 then None
    else if s[4] != '-' || s[7] != '-' || s[13] != ':' || s[16] != ':' then None
    else
      var y, mo, d := FixedDigits(s[..4], 4), FixedDigits(s[5..7], 2), FixedDigits(s[8..10], 2);
      var h, mi, sec := FixedDigits(s[11..13], 2), FixedDigits(s[14..16], 2), FixedDigits(s[17..19], 2);
      if y.None? || mo.None? || d.None? || h.None? || mi.None? || sec.None? then None
      else
        var at := DateTime(y.value, mo.value, d.value, h.value, mi.value, sec.value);
        if !Valid(at) then None
        else if |s| == 19 then Some(Stamp(at, None))
        else if (s[19] != '+' && s[19] != '-') || s[22] != ':' then None
        else
          var oh, om := FixedDigits(s[20..22], 2), FixedDigits(s[23..25], 2);
          if oh.None? || om.None? then None
          else
            var off: int := oh.value * 60 + om.value;
            if off >= 24 * 60 then None
            else Some(Stamp(at, Some(if s[19] == '-' then -off else off)))
  }

  /** A stamp as read back from a `created_at` cell. */
  function ParseStamp(s: string): Option<Stamp>
  {
    FromIsoFormat(NormalizeZulu(s))
  }

  /** Seconds from `b` to `a`; `None` where Python raises `TypeError` (one aware, one naive). */
  function StampDiff(a: Stamp, b: Stamp): Option<int>
    requires Valid(a.at) && Valid(b.at)
  {
    match (a.offsetMinutes, b.offsetMinutes)
    case (Some(oa), Some(ob)) => Some((Seconds(a.at) - oa * 60) - (Seconds(b.at) - ob * 60))
    case (None, None) => Some(Seconds(a.at) - Seconds(b.at))
    case _ => None
  }

  /**
   * `is_within_edit_time_limit`: the stamp must read back as an aware instant at
   * most `limitMinutes` minutes before now; a stamp that does not read back fails closed.
   */
  function IsWithinEditTimeLimit(createdAt: string, nowUtc: DateTime, limitMinutes: int): (ok: bool)
    requires Valid(nowUtc)
    ensures ok ==> ParseStamp(createdAt).Some? && ParseStamp(createdAt).value.offsetMinutes.Some?
  {
    match ParseStamp(createdAt)
    case None => false
    case Some(st) =>
      match StampDiff(Stamp(nowUtc, Some(0)), st)
      case None => false
      case Some(diff) => diff <= limitMinutes * 60
  }

  lemma IsoPartsNoZ(dt: DateTime)
    requires Valid(dt)
    ensures 'Z' !in IsoDate(dt) + "T" + IsoClock(dt)
  {
    var s := IsoDate(dt) + "T" + IsoClock(dt);
    assert forall i :: 0 <= i < |s| ==> IsDigit(s[i]) || s[i] in "-T:";
  }

  lemma NormalizeZuluString(dt: DateTime)
    requires Valid(dt)
    ensures NormalizeZulu(ZuluIsoString(dt)) == AwareUtcIsoFormat(dt)
  {
    var body := IsoDate(dt) + "T" + IsoClock(dt);
    IsoPartsNoZ(dt);
    ReplaceCharAppend(body, "Z", 'Z', "+00:00");
    ReplaceCharAbsent(body, 'Z', "+00:00");
    assert ReplaceAll("Z", "Z", "+00:00") == "+00:00" + ReplaceAll([], "Z", "+00:00");
  }

  lemma FromIsoFormatAware(dt: DateTime)
    requires Valid(dt)
    ensures FromIsoFormat(AwareUtcIsoFormat(dt)) == Some(Stamp(dt, Some(0)))
  {
    var s := AwareUtcIsoFormat(dt);
    assert s[..4] == Pad4(dt.year) && s[5..7] == Pad2(dt.month) && s[8..10] == Pad2(dt.day);
    assert s[11..13] == Pad2(dt.hour) && s[14..16] == Pad2(dt.minute) && s[17..19] == Pad2(dt.second);
    assert s[20..22] == "00" && s[23..25] == "00";
    Pad4Value(dt.year);
    Pad2Value(dt.month);
    Pad2Value(dt.day);
    Pad2Value(dt.hour);
    Pad2Value(dt.minute);
    Pad2Value(dt.second);
    Pad2Value(0);
    assert Pad2(0) == "00";
  }

  /** A `Z` stamp reads back as the same aware UTC instant. */
  lemma ZuluStampReadsBack(dt: DateTime)
    requires Valid(dt)
    ensures ParseStamp(ZuluIsoString(dt)) == Some(Stamp(dt, Some(0)))
  {
    NormalizeZuluString(dt);
    FromIsoFormatAware(dt);
  }

  /** The stamp `get_utc_iso_string` writes never reads back: the reader sees `+00:00+00:00`. */
  lemma AsWrittenStampUnreadable(dt: DateTime)
    requires Valid(dt)
    ensures NormalizeZulu(UtcIsoStringAsWritten(dt)) == AwareUtcIsoFormat(dt) + "+00:00"
    ensures ParseStamp(UtcIsoStringAsWritten(dt)) == None
  {
    var body := IsoDate(dt) + "T" + IsoClock(dt);
    IsoPartsNoZ(dt);
    assert 'Z' !in "+00:00";
    assert 'Z' !in body + "+00:00";
    assert UtcIsoStringAsWritten(dt) == (body + "+00:00") + "Z";
    ReplaceCharAppend(body + "+00:00", "Z", 'Z', "+00:00");
    ReplaceCharAbsent(body + "+00:00", 'Z', "+00:00");
    assert ReplaceAll("Z", "Z", "+00:00") == "+00:00" + ReplaceAll([], "Z", "+00:00");
  }

  /** With the stamp as written, the edit window is always closed. */
  lemma AsWrittenEditWindowClosed(createdUtc: DateTime, nowUtc: DateTime, limitMinutes: int)
    requires Valid(createdUtc) && Valid(nowUtc)
    ensures !IsWithinEditTimeLimit(UtcIsoStringAsWritten(createdUtc), nowUtc, limitMinutes)
  {
    AsWrittenStampUnreadable(createdUtc);
  }

  /** With a `Z` stamp the edit window is the closed interval `now - created <= limit` minutes. */
  lemma EditWindowClosedInterval(createdUtc: DateTime, nowUtc: DateTime, limitMinutes: int)
    requires Valid(createdUtc) && Valid(nowUtc)
    ensures IsWithinEditTimeLimit(ZuluIsoString(createdUtc), nowUtc, limitMinutes)
            <==> Seconds(nowUtc) - Seconds(createdUtc) <= limitMinutes * 60
  {
    ZuluStampReadsBack(createdUtc);
  }
}
