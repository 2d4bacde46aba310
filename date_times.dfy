/**
 * Fixture dates and times: the strict "DD/MM/YYYY HH:MM" shape that
 * `datetime.strptime(..., "%d/%m/%Y %H:%M")` accepts, proleptic Gregorian
 * calendar arithmetic, and the fixed Hong Kong offset of UTC+08:00.
 */
module DateTimes {

  import opened Wrappers

  datatype Date = Date(year: int, month: int, day: int)

  /** A wall-clock time without a time zone (Python's naive datetime). */
  datatype DateTime = DateTime(date: Date, hour: int, minute: int)

  /** A wall-clock time together with its offset from UTC (an aware datetime). */
  datatype ZonedDateTime = ZonedDateTime(local: DateTime, utcOffsetMinutes: int)

  /** Python's datetime.MAXYEAR; datetime.MINYEAR is 1. */
  const MaxYear := 9999

  /** Asia/Hong_Kong: UTC+08:00 with no daylight saving time. */
  const HongKongOffsetMinutes := 8 * 60

  const MinutesPerDay := 24 * 60

  // ---------------------------------------------------------------------
  // The calendar
  // ---------------------------------------------------------------------

  predicate IsLeapYear(y: int) {
    y % 4 == 0 && (y % 100 != 0 || y % 400 == 0)
  }

  function DaysInMonth(y: int, m: int): (n: int)
    requires 1 <= m <= 12
    ensures 28 <= n <= 31
    ensures n == 29 <==> m == 2 && IsLeapYear(y)
    ensures m == 2 && !IsLeapYear(y) ==> n == 28
  {
    if m == 2 then (if IsLeapYear(y) then 29 else 28)
    else if m == 4 || m == 6 || m == 9 || m == 11 then 30
    else 31
  }

  predicate ValidDate(d: Date) {
    1 <= d.year && 1 <= d.month <= 12 && 1 <= d.day <= DaysInMonth(d.year, d.month)
  }

  predicate ValidDateTime(t: DateTime) {
    ValidDate(t.date) && 0 <= t.hour < 24 && 0 <= t.minute < 60
  }

  /** A value Python's `datetime` can hold. */
  predicate Representable(t: DateTime) {
    ValidDateTime(t) && t.date.year <= MaxYear
  }

  /** The day after `d`, carrying into the next month and the next year. */
  function NextDay(d: Date): (r: Date)
    requires ValidDate(d)
    ensures ValidDate(r)
  {
    if d.day < DaysInMonth(d.year, d.month) then Date(d.year, d.month, d.day + 1)
    else if d.month < 12 then Date(d.year, d.month + 1, 1)
    else Date(d.year + 1, 1, 1)
  }

  function AddDays(d: Date, n: nat): (r: Date)
    requires ValidDate(d)
    ensures ValidDate(r)
    decreases n
  {
    if n == 0 then d else AddDays(NextDay(d), n - 1)
  }

  /**
   * `t + timedelta(minutes=n)` on a wall-clock time: the minutes carry into
   * the hour, the hours into the day, the day into the month and the year.
   */
  function AddMinutes(t: DateTime, n: nat): (r: DateTime)
    requires ValidDateTime(t)
    ensures ValidDateTime(r)
  {
    var total := t.hour * 60 + t.minute + n;
    DateTime(AddDays(t.date, total / MinutesPerDay), total % MinutesPerDay / 60, total % 60)
  }

  /**
   * pytz's `localize` looks up the offsets in force one day before and one
   * day after the given wall-clock time; on the first and on the last day
   * Python can hold, that step leaves the range and raises OverflowError.
   */
  predicate LocalizeOverflows(d: Date) {
    d == Date(1, 1, 1) || d == Date(MaxYear, 12, 31)
  }

  /** Away from the last day, adding less than a day stays within year 9999. */
  lemma EndWithinRange(t: DateTime, n: nat)
    requires Representable(t) && !LocalizeOverflows(t.date) && n < MinutesPerDay
    ensures AddMinutes(t, n).date.year <= MaxYear
  {
    var total := t.hour * 60 + t.minute + n;
    assert total / MinutesPerDay <= 1;
    if total / MinutesPerDay == 1 {
      assert AddDays(t.date, 1) == AddDays(NextDay(t.date), 0);
    }
  }

  // ---------------------------------------------------------------------
  // An independent measure: days and minutes counted from 0001-01-01
  // ---------------------------------------------------------------------

  function DaysInYear(y: int): int {
    if IsLeapYear(y) then 366 else 365
  }

  /** Days in the years 1 .. y-1. */
  ghost function DaysBeforeYear(y: int): int
    requires 1 <= y
    decreases y
  {
    if y == 1 then 0 else DaysBeforeYear(y - 1) + DaysInYear(y - 1)
  }

  /** Days in the months 1 .. m-1 of year y. */
  ghost function DaysBeforeMonth(y: int, m: int): (n: int)
    requires 1 <= m <= 12
    ensures 0 <= n
    decreases m
  {
    if m == 1 then 0 else DaysBeforeMonth(y, m - 1) + DaysInMonth(y, m - 1)
  }

  /** 1 for 0001-01-01, 2 for the day after, and so on (Python's `date.toordinal`). */
  ghost function DayNumber(d: Date): int
    requires ValidDate(d)
  {
    DaysBeforeYear(d.year) + DaysBeforeMonth(d.year, d.month) + d.day
  }

  /** Minutes elapsed since 0001-01-01 00:00 on the same wall clock. */
  ghost function Minutes(t: DateTime): int
    requires ValidDateTime(t)
  {
    DayNumber(t.date) * MinutesPerDay + t.hour * 60 + t.minute
  }

  /** Minutes since 0001-01-01 00:00 UTC: the instant an aware time denotes. */
  ghost function InstantMinutes(z: ZonedDateTime): int
    requires ValidDateTime(z.local)
  {
    Minutes(z.local) - z.utcOffsetMinutes
  }

  lemma DaysBeforeDecember(y: int)
    ensures DaysBeforeMonth(y, 12) + 31 == DaysInYear(y)
  {
  }

  /** Moving to the next day, month or year advances the day count by exactly one. */
  lemma NextDayNumber(d: Date)
    requires ValidDate(d)
    ensures DayNumber(NextDay(d)) == DayNumber(d) + 1
  {
    var y, m := d.year, d.month;
    if d.day < DaysInMonth(y, m) {
      assert NextDay(d) == Date(y, m, d.day + 1);
    } else if m < 12 {
      assert NextDay(d) == Date(y, m + 1, 1);
      assert DaysBeforeMonth(y, m + 1) == DaysBeforeMonth(y, m) + DaysInMonth(y, m);
    } else {
      assert NextDay(d) == Date(y + 1, 1, 1);
      DaysBeforeDecember(y);
      assert DaysBeforeYear(y + 1) == DaysBeforeYear(y) + DaysInYear(y);
    }
  }

  lemma {:induction false} AddDaysNumber(d: Date, n: nat)
    requires ValidDate(d)
    ensures DayNumber(AddDays(d, n)) == DayNumber(d) + n
    decreases n
  {
    if n > 0 {
      NextDayNumber(d);
      AddDaysNumber(NextDay(d), n - 1);
    }
  }

  /** Splitting a minute count into days, hours of the day and minutes of the hour. */
  lemma SplitMinutes(total: nat)
    ensures total == total / 1440 * 1440 + total % 1440 / 60 * 60 + total % 60
  {
    var q, r := total / 1440, total % 1440;
    var h, m := r / 60, r % 60;
    assert total == 1440 * q + r;
    assert r == 60 * h + m;
    assert total == 60 * (24 * q + h) + m;
    MinuteOfHour(total, 24 * q + h, m);
  }

  /** The minute of the hour of `x == 60 * a + b`, with `b` below 60, is `b`. */
  lemma MinuteOfHour(x: nat, a: nat, b: nat)
    requires b < 60 && x == 60 * a + b
    ensures x % 60 == b
  {
  }

  /** Adding n minutes moves the time exactly n minutes later. */
  lemma AddMinutesElapsed(t: DateTime, n: nat)
    requires ValidDateTime(t)
    ensures Minutes(AddMinutes(t, n)) == Minutes(t) + n
  {
    var total := t.hour * 60 + t.minute + n;
    var q := total / MinutesPerDay;
    var r := AddMinutes(t, n);
    assert r.date == AddDays(t.date, q);
    AddDaysNumber(t.date, q);
    SplitMinutes(total);
    var d := DayNumber(t.date);
    assert (d + q) * 1440 == d * 1440 + q * 1440;
    assert Minutes(r) == (d + q) * 1440 + r.hour * 60 + r.minute;
  }

  /** `d1` comes strictly before `d2` on the calendar. */
  predicate Before(d1: Date, d2: Date) {
    || d1.year < d2.year
    || (d1.year == d2.year && d1.month < d2.month)
    || (d1.year == d2.year && d1.month == d2.month && d1.day < d2.day)
  }

  lemma {:induction false} MonthsFitInYear(y: int, m: int)
    requires 1 <= m <= 12
    ensures DaysBeforeMonth(y, m) + DaysInMonth(y, m) <= DaysInYear(y)
    decreases 12 - m
  {
    if m == 12 {
      DaysBeforeDecember(y);
    } else {
      MonthsFitInYear(y, m + 1);
    }
  }

  lemma {:induction false} LaterMonth(y: int, m1: int, m2: int)
    requires 1 <= m1 < m2 <= 12
    ensures DaysBeforeMonth(y, m1) + DaysInMonth(y, m1) <= DaysBeforeMonth(y, m2)
    decreases m2
  {
    if m1 + 1 < m2 {
      LaterMonth(y, m1, m2 - 1);
    }
  }

  lemma {:induction false} LaterYear(y1: int, y2: int)
    requires 1 <= y1 < y2
    ensures DaysBeforeYear(y1) + DaysInYear(y1) <= DaysBeforeYear(y2)
    decreases y2
  {
    if y1 + 1 < y2 {
      LaterYear(y1, y2 - 1);
    }
  }

  /** The day count follows the calendar, so it tells dates apart. */
  lemma DayNumberIncreasing(d1: Date, d2: Date)
    requires ValidDate(d1) && ValidDate(d2)
    ensures Before(d1, d2) ==> DayNumber(d1) < DayNumber(d2)
  {
    MonthsFitInYear(d1.year, d1.month);
    if d1.year < d2.year {
      LaterYear(d1.year, d2.year);
    } else if d1.year == d2.year && d1.month < d2.month {
      LaterMonth(d1.year, d1.month, d2.month);
    }
  }

  lemma MinutesFollowDays(t1: DateTime, t2: DateTime)
    requires ValidDateTime(t1) && ValidDateTime(t2)
    requires DayNumber(t1.date) < DayNumber(t2.date)
    ensures Minutes(t1) < Minutes(t2)
  {
    var a, b := DayNumber(t1.date), DayNumber(t2.date);
    assert b * 1440 - a * 1440 == (b - a) * 1440 >= 1440;
  }

  /** Wall-clock times are ordered as their minute counts; distinct times have distinct counts. */
  lemma MinutesInjective(t1: DateTime, t2: DateTime)
    requires ValidDateTime(t1) && ValidDateTime(t2)
    ensures Minutes(t1) == Minutes(t2) ==> t1 == t2
  {
    DayNumberIncreasing(t1.date, t2.date);
    DayNumberIncreasing(t2.date, t1.date);
    if Before(t1.date, t2.date) {
      MinutesFollowDays(t1, t2);
    } else if Before(t2.date, t1.date) {
      MinutesFollowDays(t2, t1);
    } else {
      assert t1.date == t2.date;
    }
  }

  /** 14/10/2024 19:30 plus two and a half hours is 22:00 the same evening. */
  lemma EndSameEvening()
    ensures AddMinutes(DateTime(Date(2024, 10, 14), 19, 30), 150) == DateTime(Date(2024, 10, 14), 22, 0)
  {
  }

  /** 31/12/2024 23:00 plus two and a half hours carries into 01/01/2025 01:30. */
  lemma EndCarriesIntoNewYear()
    ensures AddMinutes(DateTime(Date(2024, 12, 31), 23, 0), 150) == DateTime(Date(2025, 1, 1), 1, 30)
  {
  }

  /** 28/02/2024 22:00 plus two and a half hours is the leap day 29/02/2024 00:30. */
  lemma EndLandsOnLeapDay()
    ensures AddMinutes(DateTime(Date(2024, 2, 28), 22, 0), 150) == DateTime(Date(2024, 2, 29), 0, 30)
  {
  }

  /** 31/12/9999 22:00 plus two and a half hours lies past the last year Python holds. */
  lemma EndPastMaxYear()
    ensures AddMinutes(DateTime(Date(9999, 12, 31), 22, 0), 150) == DateTime(Date(10000, 1, 1), 0, 30)
  {
  }

  // ---------------------------------------------------------------------
  // Text: "DD/MM/YYYY HH:MM"
  // ---------------------------------------------------------------------

  predicate IsDigit(c: char) { '0' <= c <= '9' }

  function DigitValue(c: char): int {
    c as int - '0' as int
  }

  predicate AllDigits(s: string) {
    forall k :: 0 <= k < |s| ==> IsDigit(s[k])
  }

  function Pow10(n: nat): nat {
    if n == 0 then 1 else 10 * Pow10(n - 1)
  }

  /** The value of a run of decimal digits, leading zeros allowed. */
  function Number(s: string): (n: nat)
    requires AllDigits(s)
    ensures n < Pow10(|s|)
  {
    if s == [] then 0
    else Number(s[..|s| - 1]) * 10 + DigitValue(s[|s| - 1])
  }

  /** The last `width` decimal digits of `n`, padded with leading zeros. */
  function Digits(n: nat, width: nat): (s: string)
    ensures |s| == width && AllDigits(s)
  {
    if width == 0 then ""
    else Digits(n / 10, width - 1) + [('0' as int + n % 10) as char]
  }

  lemma {:induction false} NumberOfDigits(n: nat, width: nat)
    requires n < Pow10(width)
    ensures Number(Digits(n, width)) == n
  {
    if width > 0 {
      var s := Digits(n, width);
      assert s[..width - 1] == Digits(n / 10, width - 1);
      NumberOfDigits(n / 10, width - 1);
    }
  }

  lemma {:induction false} DigitsOfNumber(s: string)
    requires AllDigits(s)
    ensures Digits(Number(s), |s|) == s
  {
    if s != [] {
      var init, last := s[..|s| - 1], s[|s| - 1];
      assert Number(s) == Number(init) * 10 + DigitValue(last);
      DigitsStep(Number(init), DigitValue(last), |init|);
      DigitsOfNumber(init);
      assert s == init + [last];
    }
  }

  /** One more digit at the end: the digits of the number without it, then that digit. */
  lemma DigitsStep(m: nat, v: int, width: nat)
    requires 0 <= v < 10
    ensures Digits(m * 10 + v, width + 1) == Digits(m, width) + [('0' as int + v) as char]
  {
    assert (m * 10 + v) / 10 == m && (m * 10 + v) % 10 == v;
  }

  /** Sixteen characters: digits, with '/' '/' ' ' ':' at positions 2, 5, 10 and 13. */
  predicate WellShaped(s: string) {
    && |s| == 16
    && s[2] == '/' && s[5] == '/' && s[10] == ' ' && s[13] == ':'
    && AllDigits(s[0..2]) && AllDigits(s[3..5]) && AllDigits(s[6..10])
    && AllDigits(s[11..13]) && AllDigits(s[14..16])
  }

  /** The day, month, year, hour and minute read off a well-shaped string. */
  function Fields(s: string): (t: DateTime)
    requires WellShaped(s)
    ensures t.date.day < 100 && t.date.month < 100 && t.date.year < 10000
    ensures t.hour < 100 && t.minute < 100
  {
    DateTime(Date(Number(s[6..10]), Number(s[3..5]), Number(s[0..2])),
             Number(s[11..13]), Number(s[14..16]))
  }

  /**
   * `datetime.strptime(s, "%d/%m/%Y %H:%M")` on the zero-padded shape
   * "DD/MM/YYYY HH:MM" with ASCII digits: None for a string of another
   * shape, and, as Python raises ValueError, for a month outside 1..12,
   * a day the month does not have (leap years included), year 0, an hour
   * past 23 or a minute past 59.
   */
  function Parse(s: string): (r: Option<DateTime>)
    ensures r.Some? ==> Representable(r.value)
  {
    if WellShaped(s) && Representable(Fields(s)) then Some(Fields(s)) else None
  }

  /** `t.strftime("%d/%m/%Y %H:%M")`. */
  function Format(t: DateTime): (s: string)
    requires Representable(t)
    ensures |s| == 16
  {
    Digits(t.date.day, 2) + "/" + Digits(t.date.month, 2) + "/" + Digits(t.date.year, 4)
      + " " + Digits(t.hour, 2) + ":" + Digits(t.minute, 2)
  }

  /** Every date and time Python can hold is read back from its own text. */
  lemma ParseFormat(t: DateTime)
    requires Representable(t)
    ensures Parse(Format(t)) == Some(t)
  {
    var s := Format(t);
    assert s[0..2] == Digits(t.date.day, 2);
    assert s[3..5] == Digits(t.date.month, 2);
    assert s[6..10] == Digits(t.date.year, 4);
    assert s[11..13] == Digits(t.hour, 2);
    assert s[14..16] == Digits(t.minute, 2);
    NumberOfDigits(t.date.day, 2);
    NumberOfDigits(t.date.month, 2);
    NumberOfDigits(t.date.year, 4);
    NumberOfDigits(t.hour, 2);
    NumberOfDigits(t.minute, 2);
  }

  /** Only the text of a representable date and time is accepted, and nothing else. */
  lemma FormatParse(s: string)
    requires Parse(s).Some?
    ensures Representable(Parse(s).value) && Format(Parse(s).value) == s
  {
    DigitsOfNumber(s[0..2]);
    DigitsOfNumber(s[3..5]);
    DigitsOfNumber(s[6..10]);
    DigitsOfNumber(s[11..13]);
    DigitsOfNumber(s[14..16]);
    ShapeParts(s);
  }

  /** A well-shaped string is its five digit runs joined by '/', '/', ' ' and ':'. */
  lemma ShapeParts(s: string)
    requires WellShaped(s)
    ensures s == s[0..2] + "/" + s[3..5] + "/" + s[6..10] + " " + s[11..13] + ":" + s[14..16]
  {
    assert s == s[0..2] + [s[2]] + s[3..5] + [s[5]] + s[6..10] + [s[10]] + s[11..13] + [s[13]] + s[14..16];
  }

  lemma NumberOfTwo(t: string)
    requires |t| == 2 && AllDigits(t)
    ensures Number(t) == DigitValue(t[0]) * 10 + DigitValue(t[1])
  {
    assert t[..1][..0] == [];
  }

  lemma NumberOfFour(t: string)
    requires |t| == 4 && AllDigits(t)
    ensures Number(t) == DigitValue(t[0]) * 1000 + DigitValue(t[1]) * 100 + DigitValue(t[2]) * 10 + DigitValue(t[3])
  {
    var a := t[..3];
    NumberOfTwo(a[..2]);
    assert Number(a) == Number(a[..2]) * 10 + DigitValue(a[2]);
  }

  /** The fields of a well-shaped string, digit by digit. */
  lemma FieldsByDigit(s: string)
    requires WellShaped(s)
    ensures Fields(s).date.day == DigitValue(s[0]) * 10 + DigitValue(s[1])
    ensures Fields(s).date.month == DigitValue(s[3]) * 10 + DigitValue(s[4])
    ensures Fields(s).date.year ==
      DigitValue(s[6]) * 1000 + DigitValue(s[7]) * 100 + DigitValue(s[8]) * 10 + DigitValue(s[9])
    ensures Fields(s).hour == DigitValue(s[11]) * 10 + DigitValue(s[12])
    ensures Fields(s).minute == DigitValue(s[14]) * 10 + DigitValue(s[15])
  {
    NumberOfTwo(s[0..2]);
    NumberOfTwo(s[3..5]);
    NumberOfFour(s[6..10]);
    NumberOfTwo(s[11..13]);
    NumberOfTwo(s[14..16]);
  }

  /** A stamp spelled out from its twelve digits, and the fields read off it. */
  lemma FieldsOfDigits(d1: char, d2: char, m1: char, m2: char, y1: char, y2: char, y3: char, y4: char,
                       h1: char, h2: char, n1: char, n2: char)
    requires IsDigit(d1) && IsDigit(d2) && IsDigit(m1) && IsDigit(m2)
    requires IsDigit(y1) && IsDigit(y2) && IsDigit(y3) && IsDigit(y4)
    requires IsDigit(h1) && IsDigit(h2) && IsDigit(n1) && IsDigit(n2)
    ensures WellShaped([d1, d2, '/', m1, m2, '/', y1, y2, y3, y4, ' ', h1, h2, ':', n1, n2])
    ensures Fields([d1, d2, '/', m1, m2, '/', y1, y2, y3, y4, ' ', h1, h2, ':', n1, n2]) ==
      DateTime(Date(DigitValue(y1) * 1000 + DigitValue(y2) * 100 + DigitValue(y3) * 10 + DigitValue(y4),
                    DigitValue(m1) * 10 + DigitValue(m2),
                    DigitValue(d1) * 10 + DigitValue(d2)),
               DigitValue(h1) * 10 + DigitValue(h2),
               DigitValue(n1) * 10 + DigitValue(n2))
  {
    var s := [d1, d2, '/', m1, m2, '/', y1, y2, y3, y4, ' ', h1, h2, ':', n1, n2];
    assert s[0..2] == [d1, d2] && s[3..5] == [m1, m2] && s[6..10] == [y1, y2, y3, y4];
    assert s[11..13] == [h1, h2] && s[14..16] == [n1, n2];
    FieldsByDigit(s);
  }

  /** An ordinary evening fixture time. */
  lemma EveningStampAccepted()
    ensures Parse("14/10/2024 19:30") == Some(DateTime(Date(2024, 10, 14), 19, 30))
  {
    FieldsOfDigits('1', '4', '1', '0', '2', '0', '2', '4', '1', '9', '3', '0');
  }

  /** The last evening Python can hold. */
  lemma LastEveningAccepted()
    ensures Parse("31/12/9999 22:00") == Some(DateTime(Date(9999, 12, 31), 22, 0))
  {
    FieldsOfDigits('3', '1', '1', '2', '9', '9', '9', '9', '2', '2', '0', '0');
  }

  /** A morning on the last day Python can hold. */
  lemma LastMorningAccepted()
    ensures Parse("31/12/9999 09:00") == Some(DateTime(Date(9999, 12, 31), 9, 0))
  {
    FieldsOfDigits('3', '1', '1', '2', '9', '9', '9', '9', '0', '9', '0', '0');
  }

  /** The first day Python can hold. */
  lemma FirstDayAccepted()
    ensures Parse("01/01/0001 19:30") == Some(DateTime(Date(1, 1, 1), 19, 30))
  {
    FieldsOfDigits('0', '1', '0', '1', '0', '0', '0', '1', '1', '9', '3', '0');
  }

  /** 29 February exists in 2024. */
  lemma LeapDayAccepted()
    ensures Parse("29/02/2024 19:30") == Some(DateTime(Date(2024, 2, 29), 19, 30))
  {
    FieldsOfDigits('2', '9', '0', '2', '2', '0', '2', '4', '1', '9', '3', '0');
  }

  /** 29 February does not exist in 2023. */
  lemma NonLeapDayRejected()
    ensures Parse("29/02/2023 19:30") == None
  {
    FieldsOfDigits('2', '9', '0', '2', '2', '0', '2', '3', '1', '9', '3', '0');
  }

  /** April has thirty days. */
  lemma AprilThirtyFirstRejected()
    ensures Parse("31/04/2024 19:30") == None
  {
    FieldsOfDigits('3', '1', '0', '4', '2', '0', '2', '4', '1', '9', '3', '0');
  }

  /** May has thirty-one. */
  lemma MayThirtyFirstAccepted()
    ensures Parse("31/05/2024 19:30") == Some(DateTime(Date(2024, 5, 31), 19, 30))
  {
    FieldsOfDigits('3', '1', '0', '5', '2', '0', '2', '4', '1', '9', '3', '0');
  }

  /** No month has a 31st of February. */
  lemma ThirtyFirstOfFebruaryRejected()
    ensures Parse("31/02/2024 19:30") == None
  {
    FieldsOfDigits('3', '1', '0', '2', '2', '0', '2', '4', '1', '9', '3', '0');
  }

  /** The 24-hour clock stops at 23:59. */
  lemma HourTwentyFourRejected()
    ensures Parse("14/10/2024 24:00") == None
  {
    FieldsOfDigits('1', '4', '1', '0', '2', '0', '2', '4', '2', '4', '0', '0');
  }
}
