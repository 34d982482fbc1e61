/** Date-times as `datetime.strptime`/`strftime` with the pattern
    "%Y-%m-%d %H:%M:%S" see them, and their position on the time line in
    whole seconds (the proleptic Gregorian calendar Python's `datetime` uses). */
module Calendar {
  import opened Wrappers
  import opened Strings

  /** A naive date-time with whole seconds. */
  datatype Timestamp = Timestamp(year: int, month: int, day: int, hour: int, minute: int, second: int)

  /** A date-time that `datetime` can represent. */
  type DateTime = t: Timestamp | Valid(t) witness Timestamp(1, 1, 1, 0, 0, 0)

  predicate IsLeapYear(y: int) {
    y % 4 == 0 && (y % 100 != 0 || y % 400 == 0)
  }

  function DaysInMonth(y: int, m: int): (n: int)
    requires 1 <= m <= 12
    ensures 28 <= n <= 31
  {
    if m == 2 then (if IsLeapYear(y) then 29 else 28)
    else if m == 4 || m == 6 || m == 9 || m == 11 then 30
    else 31
  }

  /** What `datetime` accepts: years 1 to 9999 (MINYEAR..MAXYEAR), a day that
      exists in its month (29 February only in a leap year), and a time of
      day with at most 59 seconds. */
  predicate Valid(t: Timestamp) {
    && 1 <= t.year <= 9999
    && 1 <= t.month <= 12
    && 1 <= t.day <= DaysInMonth(t.year, t.month)
    && 0 <= t.hour <= 23
    && 0 <= t.minute <= 59
    && 0 <= t.second <= 59
  }

  // ---------------------------------------------------------------------------
  // "%Y-%m-%d %H:%M:%S"

  /** Length of the canonical form. */
  const TextLength := 19

  /** `strftime("%Y-%m-%d %H:%M:%S")`: every field zero-padded, the year to
      four digits. */
  function Format(t: Timestamp): (s: string)
    requires Valid(t)
    ensures |s| == TextLength
  {
    Pad(t.year, 4) + "-" + Pad(t.month, 2) + "-" + Pad(t.day, 2) + " "
    + Pad(t.hour, 2) + ":" + Pad(t.minute, 2) + ":" + Pad(t.second, 2)
  }

  /** The shape of the canonical form: digits everywhere except the
      separators at their fixed places. */
  predicate Shaped(s: string) {
    && |s| == TextLength
    && s[4] == '-' && s[7] == '-' && s[10] == ' ' && s[13] == ':' && s[16] == ':'
    && AllDigits(s[0..4]) && AllDigits(s[5..7]) && AllDigits(s[8..10])
    && AllDigits(s[11..13]) && AllDigits(s[14..16]) && AllDigits(s[17..19])
  }

  /** `datetime.strptime(s, "%Y-%m-%d %H:%M:%S")` on the canonical
      zero-padded form: `None` where it raises ValueError (wrong shape, or a
      date or time that does not exist). */
  function Parse(s: string): (r: Option<Timestamp>)
    ensures r.Some? ==> Valid(r.value)
  {
    if !Shaped(s) then None
    else
      var t := Timestamp(Number(s[0..4]), Number(s[5..7]), Number(s[8..10]),
                         Number(s[11..13]), Number(s[14..16]), Number(s[17..19]));
      if Valid(t) then Some(t) else None
  }

  /** Reading back what was written gives the same date-time. */
  lemma ParseFormat(t: Timestamp)
    requires Valid(t)
    ensures Parse(Format(t)) == Some(t)
  {
    var s := Format(t);
    assert s[0..4] == Pad(t.year, 4);
    assert s[5..7] == Pad(t.month, 2);
    assert s[8..10] == Pad(t.day, 2);
    assert s[11..13] == Pad(t.hour, 2);
    assert s[14..16] == Pad(t.minute, 2);
    assert s[17..19] == Pad(t.second, 2);
    NumberPad(t.year, 4);
    NumberPad(t.month, 2);
    NumberPad(t.day, 2);
    NumberPad(t.hour, 2);
    NumberPad(t.minute, 2);
    NumberPad(t.second, 2);
  }

  /** The parser accepts exactly the written forms of valid date-times: what
      it accepts is written back character for character. */
  lemma FormatParse(s: string)
    requires Parse(s).Some?
    ensures Format(Parse(s).value) == s
  {
    var t := Parse(s).value;
    PadNumber(s[0..4]);
    PadNumber(s[5..7]);
    PadNumber(s[8..10]);
    PadNumber(s[11..13]);
    PadNumber(s[14..16]);
    PadNumber(s[17..19]);
    assert s == s[0..4] + "-" + s[5..7] + "-" + s[8..10] + " "
      + s[11..13] + ":" + s[14..16] + ":" + s[17..19];
  }

  /** Both directions together: `s` parses to `t` exactly when `t` is valid
      and `s` is its canonical form. */
  lemma ParseIff(s: string, t: Timestamp)
    ensures Parse(s) == Some(t) <==> Valid(t) && s == Format(t)
  {
    if Parse(s) == Some(t) {
      FormatParse(s);
    }
    if Valid(t) && s == Format(t) {
      ParseFormat(t);
    }
  }

  // ---------------------------------------------------------------------------
  // Position on the time line

  const SecondsPerDay := 86400

  /** Days from 1 January of year 1 to 1 January of year `y`. */
  function DaysBeforeYear(y: int): int
    requires y >= 1
  {
    var p := y - 1;
    p * 365 + p / 4 - p / 100 + p / 400
  }

  function DaysInYear(y: int): int {
    if IsLeapYear(y) then 366 else 365
  }

  /** Days from 1 January to the first of month `m` of year `y`. */
  function DaysBeforeMonth(y: int, m: int): int
    requires 1 <= m <= 12
  {
    var table := [0, 31, 59, 90, 120, 151, 181, 212, 243, 273, 304, 334];
    table[m - 1] + (if m > 2 && IsLeapYear(y) then 1 else 0)
  }

  /** Days since 0001-01-01 (Python's `date.toordinal() - 1`). */
  function DayNumber(t: Timestamp): int
    requires Valid(t)
  {
    DaysBeforeYear(t.year) + DaysBeforeMonth(t.year, t.month) + t.day - 1
  }

  /** Seconds since the start of the day. */
  function SecondOfDay(t: Timestamp): (n: int)
    requires Valid(t)
    ensures 0 <= n < SecondsPerDay
  {
    t.hour * 3600 + t.minute * 60 + t.second
  }

  /** Seconds since 0001-01-01 00:00:00. */
  function Seconds(t: Timestamp): int
    requires Valid(t)
  {
    DayNumber(t) * SecondsPerDay + SecondOfDay(t)
  }

  /** `datetime.max` to the second: 9999-12-31 23:59:59. */
  const Latest: DateTime := Timestamp(9999, 12, 31, 23, 59, 59)

  /** No date-time comes after `Latest`. */
  lemma LatestIsLast(t: DateTime)
    ensures Seconds(t) <= Seconds(Latest)
  {
  }

  /** Chronological order of date-times as `datetime` compares them: field by
      field, year first. */
  predicate Before(a: Timestamp, b: Timestamp) {
    || a.year < b.year
    || (a.year == b.year && a.month < b.month)
    || (a.year == b.year && a.month == b.month && a.day < b.day)
    || (a.year == b.year && a.month == b.month && a.day == b.day && a.hour < b.hour)
    || (a.year == b.year && a.month == b.month && a.day == b.day && a.hour == b.hour
        && a.minute < b.minute)
    || (a.year == b.year && a.month == b.month && a.day == b.day && a.hour == b.hour
        && a.minute == b.minute && a.second < b.second)
  }

  lemma YearStep(y: int)
    requires y >= 1
    ensures DaysBeforeYear(y + 1) == DaysBeforeYear(y) + DaysInYear(y)
  {
    var p := y - 1;
    assert y / 4 == p / 4 + (if y % 4 == 0 then 1 else 0);
    assert y / 100 == p / 100 + (if y % 100 == 0 then 1 else 0);
    assert y / 400 == p / 400 + (if y % 400 == 0 then 1 else 0);
  }

  /** A later year starts at least a whole year after an earlier one ends. */
  lemma {:induction false} YearsOrdered(y1: int, y2: int)
    requires 1 <= y1 < y2
    ensures DaysBeforeYear(y1) + DaysInYear(y1) <= DaysBeforeYear(y2)
    decreases y2 - y1
  {
    YearStep(y1);
    if y1 + 1 < y2 {
      YearsOrdered(y1 + 1, y2);
    }
  }

  lemma MonthStep(y: int, m: int)
    requires 1 <= m < 12
    ensures DaysBeforeMonth(y, m) + DaysInMonth(y, m) == DaysBeforeMonth(y, m + 1)
  {
  }

  /** The days of a month come before the first of any later month. */
  lemma {:induction false} MonthsOrdered(y: int, m1: int, m2: int)
    requires 1 <= m1 < m2 <= 12
    ensures DaysBeforeMonth(y, m1) + DaysInMonth(y, m1) <= DaysBeforeMonth(y, m2)
    decreases m2 - m1
  {
    MonthStep(y, m1);
    if m1 + 1 < m2 {
      MonthsOrdered(y, m1 + 1, m2);
      assert DaysInMonth(y, m1 + 1) >= 0;
    }
  }

  /** Every day of a year falls before the next year begins. */
  lemma DayWithinYear(t: Timestamp)
    requires Valid(t)
    ensures 0 <= DaysBeforeMonth(t.year, t.month) + t.day - 1 < DaysInYear(t.year)
  {
    if t.month < 12 {
      MonthsOrdered(t.year, t.month, 12);
    }
  }

  /** Day numbers follow the calendar order of dates. */
  lemma DayNumberOrdered(a: Timestamp, b: Timestamp)
    requires Valid(a) && Valid(b)
    requires a.year < b.year
          || (a.year == b.year && a.month < b.month)
          || (a.year == b.year && a.month == b.month && a.day < b.day)
    ensures DayNumber(a) < DayNumber(b)
  {
    if a.year < b.year {
      DayWithinYear(a);
      YearsOrdered(a.year, b.year);
    } else if a.month < b.month {
      MonthsOrdered(a.year, a.month, b.month);
    }
  }

  /** Comparing seconds since the epoch is comparing date-times: the model
      may decide "has this time passed?" on integers. */
  lemma SecondsOrdered(a: Timestamp, b: Timestamp)
    requires Valid(a) && Valid(b)
    ensures Before(a, b) <==> Seconds(a) < Seconds(b)
    ensures a == b <==> Seconds(a) == Seconds(b)
  {
    if Before(a, b) {
      SecondsBefore(a, b);
    } else if Before(b, a) {
      SecondsBefore(b, a);
    }
  }

  lemma SecondsBefore(a: Timestamp, b: Timestamp)
    requires Valid(a) && Valid(b)
    requires Before(a, b)
    ensures Seconds(a) < Seconds(b)
  {
    if a.year < b.year
      || (a.year == b.year && a.month < b.month)
      || (a.year == b.year && a.month == b.month && a.day < b.day)
    {
      DayNumberOrdered(a, b);
      assert DayNumber(a) * SecondsPerDay + SecondsPerDay <= DayNumber(b) * SecondsPerDay;
    }
  }

  // ---------------------------------------------------------------------------
  // "%H:%M:%S" of a point on the time line

  /** `strftime("%H:%M:%S")` of the instant `x` seconds after the epoch: only
      the time of day is written, the date is dropped. */
  function ClockText(x: int): (s: string)
    ensures |s| == 8
  {
    ClockOf(x % SecondsPerDay)
  }

  /** The "HH:MM:SS" text of the `r`-th second of a day. */
  function ClockOf(r: nat): (s: string)
    ensures |s| == 8
  {
    Pad(r / 3600, 2) + ":" + Pad(r % 3600 / 60, 2) + ":" + Pad(r % 60, 2)
  }

  /** Different seconds of a day have different clock texts. */
  lemma ClockOfInjective(rx: nat, ry: nat)
    requires rx < SecondsPerDay && ry < SecondsPerDay
    requires ClockOf(rx) == ClockOf(ry)
    ensures rx == ry
  {
    var a, b := ClockOf(rx), ClockOf(ry);
    assert a[0..2] == Pad(rx / 3600, 2) && b[0..2] == Pad(ry / 3600, 2);
    assert a[3..5] == Pad(rx % 3600 / 60, 2) && b[3..5] == Pad(ry % 3600 / 60, 2);
    assert a[6..8] == Pad(rx % 60, 2) && b[6..8] == Pad(ry % 60, 2);
    PadInjective(rx / 3600, ry / 3600, 2);
    PadInjective(rx % 3600 / 60, ry % 3600 / 60, 2);
    PadInjective(rx % 60, ry % 60, 2);
    ClockFields(rx);
    ClockFields(ry);
  }

  /** A second of the day is its hours, minutes and seconds fields recombined. */
  lemma ClockFields(r: nat)
    ensures r == (r / 3600) * 3600 + (r % 3600 / 60) * 60 + r % 60
  {
    var h, u := r / 3600, r % 3600;
    var m, s := u / 60, u % 60;
    assert r == h * 3600 + u;
    assert u == m * 60 + s;
    assert r == (h * 60 + m) * 60 + s;
    ModOfMultiplePlus(h * 60 + m, s, 60);
  }

  /** The clock text of a date-time's instant is its own hours, minutes and
      seconds. */
  lemma ClockTextOf(t: Timestamp)
    requires Valid(t)
    ensures ClockText(Seconds(t)) == Pad(t.hour, 2) + ":" + Pad(t.minute, 2) + ":" + Pad(t.second, 2)
  {
    var r := SecondOfDay(t);
    ModOfMultiplePlus(DayNumber(t), r, SecondsPerDay);
    assert Seconds(t) % SecondsPerDay == r;
    ModOfMultiplePlus(t.hour, t.minute * 60 + t.second, 3600);
    assert r / 3600 == t.hour && r % 3600 == t.minute * 60 + t.second;
    ModOfMultiplePlus(t.minute, t.second, 60);
    assert r % 3600 / 60 == t.minute;
    ModOfMultiplePlus(t.hour * 60 + t.minute, t.second, 60);
    assert r == (t.hour * 60 + t.minute) * 60 + t.second;
    assert r % 60 == t.second;
  }

  /** Euclidean division of `q * d + r` by `d`, for `0 <= r < d`. */
  lemma ModOfMultiplePlus(q: int, r: int, d: int)
    requires 0 <= r < d
    ensures (q * d + r) % d == r
    ensures (q * d + r) / d == q
  {
    var x := q * d + r;
    var q', r' := x / d, x % d;
    var k := q - q';
    assert k * d == r' - r;
    assert k >= 1 ==> k * d >= d;
    assert k <= -1 ==> k * d <= -d;
  }

  /** Two instants get the same clock text exactly when they fall at the same
      time of day, whatever their dates. */
  lemma ClockTextSameTimeOfDay(x: int, y: int)
    ensures ClockText(x) == ClockText(y) <==> x % SecondsPerDay == y % SecondsPerDay
  {
    if ClockText(x) == ClockText(y) {
      ClockOfInjective(x % SecondsPerDay, y % SecondsPerDay);
    }
  }

  /** Instants a whole number of days apart share their clock text. */
  lemma ClockTextDaily(x: int, days: int)
    ensures ClockText(x + days * SecondsPerDay) == ClockText(x)
  {
    var q, r := x / SecondsPerDay, x % SecondsPerDay;
    assert x + days * SecondsPerDay == (q + days) * SecondsPerDay + r;
    ModOfMultiplePlus(q + days, r, SecondsPerDay);
    ClockTextSameTimeOfDay(x + days * SecondsPerDay, x);
  }
}
