/** A fixed-offset wall clock.  Time is a number of local milliseconds since the start of
    1970; minutes, days and weeks are counted from the same origin, a Thursday.
 */
module Clock {
  const MS_PER_MINUTE := 60_000
  const MINUTES_PER_HOUR := 60
  const MINUTES_PER_DAY := 1440
  const MINUTES_PER_WEEK := 10080

  /** The minute that contains an instant (`setSeconds(0, 0)`). */
  function MinuteAt(ms: int): int {
    ms / MS_PER_MINUTE
  }

  function Instant(minute: int): int {
    minute * MS_PER_MINUTE
  }

  lemma InstantOfMinute(m: int)
    ensures MinuteAt(Instant(m)) == m
  {
  }

  lemma InstantOrder(m: int, ms: int)
    ensures Instant(m) <= ms <==> m <= MinuteAt(ms)
  {
  }

  lemma MinuteOrder(a: int, b: int)
    requires a <= b
    ensures MinuteAt(a) <= MinuteAt(b)
    ensures b <= a + MS_PER_MINUTE ==> MinuteAt(b) <= MinuteAt(a) + 1
    ensures b == a + MS_PER_MINUTE ==> MinuteAt(b) == MinuteAt(a) + 1
  {
  }

  function DayIndex(m: int): int {
    m / MINUTES_PER_DAY
  }

  function TimeOfDay(m: int): (t: int)
    ensures 0 <= t < MINUTES_PER_DAY
  {
    m % MINUTES_PER_DAY
  }

  function MinuteOf(m: int): int {
    m % 60
  }

  function HourOf(m: int): int {
    TimeOfDay(m) / 60
  }

  /** 0 = Sunday .. 6 = Saturday; day 0 was a Thursday. */
  function Weekday(day: int): (w: int)
    ensures 0 <= w < 7
  {
    (day + 4) % 7
  }

  lemma AtTime(day: int, t: int)
    requires 0 <= t < MINUTES_PER_DAY
    ensures DayIndex(day * MINUTES_PER_DAY + t) == day && TimeOfDay(day * MINUTES_PER_DAY + t) == t
  {
  }

  /** A minute is its day together with its time of day; the hour and minute hands only
      depend on the latter. */
  lemma SplitMinute(m: int)
    ensures m == DayIndex(m) * MINUTES_PER_DAY + TimeOfDay(m)
    ensures MinuteOf(m) == TimeOfDay(m) % 60
    ensures HourOf(m) * 60 + MinuteOf(m) == TimeOfDay(m) && 0 <= HourOf(m) < 24
  {
  }

  lemma WeekLater(m: int, weeks: int)
    ensures TimeOfDay(m + weeks * MINUTES_PER_WEEK) == TimeOfDay(m)
    ensures Weekday(DayIndex(m + weeks * MINUTES_PER_WEEK)) == Weekday(DayIndex(m))
    ensures MinuteOf(m + weeks * MINUTES_PER_WEEK) == MinuteOf(m)
  {
    var later := m + weeks * MINUTES_PER_WEEK;
    SplitMinute(m);
    AtTime(DayIndex(m) + weeks * 7, TimeOfDay(m));
    assert later == (DayIndex(m) + weeks * 7) * MINUTES_PER_DAY + TimeOfDay(m);
    SplitMinute(later);
  }

  // ---------------------------------------------------------------- Gregorian calendar

  datatype Date = Date(year: int, month: int, day: int)

  predicate IsLeap(year: int) {
    year % 4 == 0 && (year % 100 != 0 || year % 400 == 0)
  }

  function MonthLength(year: int, month: int): (n: int)
    ensures 28 <= n <= 31
  {
    if month == 2 then if IsLeap(year) then 29 else 28
    else if month in {4, 6, 9, 11} then 30
    else 31
  }

  predicate ValidDate(d: Date) {
    1 <= d.month <= 12 && 1 <= d.day <= MonthLength(d.year, d.month)
  }

  function Tomorrow(d: Date): (r: Date)
    requires ValidDate(d)
    ensures ValidDate(r)
  {
    if d.day < MonthLength(d.year, d.month) then Date(d.year, d.month, d.day + 1)
    else if d.month < 12 then Date(d.year, d.month + 1, 1)
    else Date(d.year + 1, 1, 1)
  }

  function Yesterday(d: Date): (r: Date)
    requires ValidDate(d)
    ensures ValidDate(r) && Tomorrow(r) == d
  {
    if 1 < d.day then Date(d.year, d.month, d.day - 1)
    else if 1 < d.month then Date(d.year, d.month - 1, MonthLength(d.year, d.month - 1))
    else Date(d.year - 1, 12, 31)
  }

  /** The calendar date of a day, before or after 1970. */
  function DateOf(day: int): (d: Date)
    ensures ValidDate(d)
    decreases if day < 0 then -day else day
  {
    if day == 0 then Date(1970, 1, 1)
    else if day > 0 then Tomorrow(DateOf(day - 1))
    else Yesterday(DateOf(day + 1))
  }

  lemma NextDay(day: int)
    ensures DateOf(day + 1) == Tomorrow(DateOf(day))
  {
  }

  /** Within a month the date counts up with the day index. */
  lemma {:induction false} SameMonth(day: int, k: nat)
    requires DateOf(day).day + k <= MonthLength(DateOf(day).year, DateOf(day).month)
    ensures DateOf(day + k) == Date(DateOf(day).year, DateOf(day).month, DateOf(day).day + k)
  {
    if k > 0 {
      SameMonth(day, k - 1);
      NextDay(day + k - 1);
    }
  }

  /** From the first of a month to the first of the next one. */
  lemma NextMonth(day: int)
    requires DateOf(day).day == 1
    ensures var d := DateOf(day);
      DateOf(day + MonthLength(d.year, d.month))
        == if d.month < 12 then Date(d.year, d.month + 1, 1) else Date(d.year + 1, 1, 1)
  {
    var length := MonthLength(DateOf(day).year, DateOf(day).month);
    SameMonth(day, length - 1);
    NextDay(day + (length - 1));
  }

  /** Any 31 consecutive days contain every day of the month up to the 28th. */
  lemma EveryDayOfMonthComes(day: int, dom: int) returns (k: nat)
    requires 1 <= dom <= 28
    ensures k < 31 && DateOf(day + k).day == dom
  {
    var d := DateOf(day);
    var length := MonthLength(d.year, d.month);
    if d.day <= dom {
      k := dom - d.day;
      SameMonth(day, k);
    } else {
      SameMonth(day, length - d.day);
      NextDay(day + (length - d.day));
      SameMonth(day + (length - d.day) + 1, dom - 1);
      k := length - d.day + dom;
    }
  }

  // ---------------------------------------------------------------- years

  function YearLength(year: int): int {
    if IsLeap(year) then 366 else 365
  }

  /** The days of a year before a month. */
  function DaysBefore(year: int, month: int): nat
    requires 1 <= month <= 12
    decreases month
  {
    if month == 1 then 0 else DaysBefore(year, month - 1) + MonthLength(year, month - 1)
  }

  lemma {:induction false} MonthStart(newYear: int, year: int, month: int)
    requires DateOf(newYear) == Date(year, 1, 1) && 1 <= month <= 12
    ensures DateOf(newYear + DaysBefore(year, month)) == Date(year, month, 1)
    decreases month
  {
    hide DateOf, MonthLength;
    if month > 1 {
      MonthStart(newYear, year, month - 1);
      NextMonth(newYear + DaysBefore(year, month - 1));
    }
  }

  lemma DateInYear(newYear: int, month: int, day: int)
    requires DateOf(newYear).month == 1 == DateOf(newYear).day
    requires ValidDate(Date(DateOf(newYear).year, month, day))
    ensures DateOf(newYear + DaysBefore(DateOf(newYear).year, month) + day - 1) == Date(DateOf(newYear).year, month, day)
  {
    hide DateOf, DaysBefore;
    var year := DateOf(newYear).year;
    MonthStart(newYear, year, month);
    SameMonth(newYear + DaysBefore(year, month), day - 1);
  }

  lemma NextYear(newYear: int)
    requires DateOf(newYear).month == 1 == DateOf(newYear).day
    ensures DateOf(newYear + YearLength(DateOf(newYear).year)) == Date(DateOf(newYear).year + 1, 1, 1)
  {
    hide DateOf;
    var year := DateOf(newYear).year;
    DateInYear(newYear, 12, 31);
    YearEnds(year);
    NextDay(newYear + YearLength(year) - 1);
  }

  lemma YearEnds(year: int)
    ensures DaysBefore(year, 12) + 31 == YearLength(year)
  {
    assert DaysBefore(year, 4) == MonthLength(year, 2) + 62;
    assert DaysBefore(year, 8) == DaysBefore(year, 4) + 122;
    assert DaysBefore(year, 12) == DaysBefore(year, 8) + 122;
  }

  lemma {:induction false} LeapYearStart(j: nat)
    requires j <= 6
    ensures DateOf(730 + 1461 * j) == Date(1972 + 4 * j, 1, 1)
  {
    hide DateOf;
    if j == 0 {
      FirstDay();
      NextYear(0);
      NextYear(365);
    } else {
      LeapYearStart(j - 1);
      var newYear := 730 + 1461 * (j - 1);
      NextYear(newYear);
      NextYear(newYear + 366);
      NextYear(newYear + 731);
      NextYear(newYear + 1096);
    }
  }

  lemma FirstDay()
    ensures DateOf(0) == Date(1970, 1, 1)
  {
  }

  /** Every date of the calendar, 29 February included, falls on every weekday. */
  lemma DateOnWeekday(month: int, day: int, weekday: int) returns (d: int)
    requires 1 <= month <= 12 && 1 <= day <= MonthLength(1972, month) && 0 <= weekday < 7
    ensures DateOf(d).month == month && DateOf(d).day == day && Weekday(d) == weekday
  {
    hide DateOf, DaysBefore, Weekday;
    var first := 730 + DaysBefore(1972, month) + day - 1;
    var j := StepsTo(Weekday(first), weekday);
    d := first + 1461 * j;
    LeapYearStart(j);
    SameLeapYears(1972 + 4 * j, month);
    DateInYear(730 + 1461 * j, month, day);
    WeekdayAfter(first, j);
  }

  /** Four years shift the weekday by five. */
  lemma WeekdayAfter(day: int, j: nat)
    ensures Weekday(day + 1461 * j) == (Weekday(day) + 5 * j) % 7
  {
    var q := (day + 4) / 7;
    assert day + 1461 * j + 4 == Weekday(day) + 5 * j + 7 * (q + 208 * j);
  }

  lemma StepsTo(from: int, to: int) returns (j: nat)
    requires 0 <= from < 7 && 0 <= to < 7
    ensures j <= 6 && (from + 5 * j) % 7 == to
  {
    var x := 3 * (to - from);
    j := x % 7;
    assert from + 5 * j == to + 7 * (2 * (to - from) - 5 * (x / 7));
  }

  lemma {:induction false} SameLeapYears(year: int, month: int)
    requires IsLeap(year) && 1 <= month <= 12
    ensures DaysBefore(year, month) == DaysBefore(1972, month) && MonthLength(year, month) == MonthLength(1972, month)
    decreases month
  {
    if month > 1 {
      SameLeapYears(year, month - 1);
    }
  }

  // ---------------------------------------------------------------- the 400-year cycle

  const CYCLE_DAYS := 146_097

  function DaysOfYears(year: int, n: nat): nat {
    if n == 0 then 0 else DaysOfYears(year, n - 1) + YearLength(year + n - 1)
  }

  /** Leap years before `year`, up to a constant. */
  function Leaps(year: int): int {
    (year - 1) / 4 - (year - 1) / 100 + (year - 1) / 400
  }

  lemma {:induction false} DaysOfYearsIs(year: int, n: nat)
    ensures DaysOfYears(year, n) == 365 * n + Leaps(year + n) - Leaps(year)
  {
    if n > 0 {
      DaysOfYearsIs(year, n - 1);
      OneMoreYear(year + n - 1);
    }
  }

  lemma Centuries(year: int)
    ensures year % 400 == 0 ==> year % 100 == 0
    ensures year % 100 == 0 ==> year % 4 == 0
  {
  }

  lemma StepQuotient4(year: int)
    ensures year / 4 == (year - 1) / 4 + if year % 4 == 0 then 1 else 0
  {
  }

  lemma StepQuotient100(year: int)
    ensures year / 100 == (year - 1) / 100 + if year % 100 == 0 then 1 else 0
  {
  }

  lemma StepQuotient400(year: int)
    ensures year / 400 == (year - 1) / 400 + if year % 400 == 0 then 1 else 0
  {
  }

  lemma OneMoreYear(year: int)
    ensures Leaps(year + 1) == Leaps(year) + YearLength(year) - 365
  {
    Centuries(year);
    StepQuotient4(year);
    StepQuotient100(year);
    StepQuotient400(year);
  }

  lemma {:induction false} YearsLater(newYear: int, n: nat)
    requires DateOf(newYear).month == 1 == DateOf(newYear).day
    ensures DateOf(newYear + DaysOfYears(DateOf(newYear).year, n)) == Date(DateOf(newYear).year + n, 1, 1)
  {
    hide DateOf;
    if n > 0 {
      YearsLater(newYear, n - 1);
      NextYear(newYear + DaysOfYears(DateOf(newYear).year, n - 1));
    }
  }

  function FourCenturiesLater(d: Date): Date {
    d.(year := d.year + 400)
  }

  lemma SameTomorrow(a: Date, b: Date)
    requires ValidDate(a) && ValidDate(b)
    ensures ValidDate(FourCenturiesLater(a)) && Tomorrow(FourCenturiesLater(a)) == FourCenturiesLater(Tomorrow(a))
    ensures Tomorrow(a) == Tomorrow(b) ==> a == b
  {
    SameLength(a);
  }

  lemma SameLength(d: Date)
    ensures MonthLength(d.year + 400, d.month) == MonthLength(d.year, d.month)
  {
    Remainder400(d.year);
  }

  lemma Remainder400(year: int)
    ensures IsLeap(year + 400) <==> IsLeap(year)
  {
    assert (year + 400) % 4 == year % 4;
    assert (year + 400) % 100 == year % 100;
    assert (year + 400) % 400 == year % 400;
  }

  lemma CycleFromEpoch()
    ensures DateOf(CYCLE_DAYS) == Date(2370, 1, 1)
  {
    FirstDay();
    hide DateOf, DaysOfYears;
    DaysOfYearsIs(1970, 400);
    YearsLater(0, 400);
  }

  /** The calendar repeats after 400 years, weekdays included. */
  lemma {:induction false} CalendarRepeats(day: int)
    ensures DateOf(day + CYCLE_DAYS) == FourCenturiesLater(DateOf(day))
    ensures Weekday(day + CYCLE_DAYS) == Weekday(day)
    decreases if day < 0 then -day else day
  {
    CycleWeekday(day);
    hide DateOf, Tomorrow, FourCenturiesLater, Weekday;
    if day == 0 {
      CycleFromEpoch();
      FirstDay();
      FourLater();
    } else if day > 0 {
      CalendarRepeats(day - 1);
      NextDay(day - 1);
      NextDay(day - 1 + CYCLE_DAYS);
      SameTomorrow(DateOf(day - 1), DateOf(day - 1));
    } else {
      CalendarRepeats(day + 1);
      NextDay(day);
      NextDay(day + CYCLE_DAYS);
      SameTomorrow(DateOf(day), DateOf(day));
      SameTomorrow(DateOf(day + CYCLE_DAYS), FourCenturiesLater(DateOf(day)));
    }
  }

  lemma FourLater()
    ensures FourCenturiesLater(Date(1970, 1, 1)) == Date(2370, 1, 1)
  {
  }

  lemma CycleWeekday(day: int)
    ensures Weekday(day + CYCLE_DAYS) == Weekday(day)
  {
    assert day + CYCLE_DAYS + 4 == day + 4 + 7 * 20_871;
  }

  // ---------------------------------------------------------------- the day number of a date

  /** Days before a month of a common year. */
  function CommonDaysBefore(month: int): int
    requires 1 <= month <= 12
  {
    [0, 31, 59, 90, 120, 151, 181, 212, 243, 273, 304, 334][month - 1]
  }

  function DayNumber(d: Date): int
    requires 1 <= d.month <= 12
  {
    var leap := d.year % 4 == 0 && (d.year % 100 != 0 || d.year % 400 == 0);
    365 * (d.year - 1970) + (d.year - 1) / 4 - (d.year - 1) / 100 + (d.year - 1) / 400 - 477
    + CommonDaysBefore(d.month) + (if leap && d.month > 2 then 1 else 0) + d.day - 1
  }

  lemma TomorrowIsNext(d: Date)
    requires ValidDate(d)
    ensures DayNumber(Tomorrow(d)) == DayNumber(d) + 1
  {
    if d.month == 12 && d.day == 31 {
      OneMoreYear(d.year);
    }
  }

  /** The date of a day is the one whose day number, in the arithmetic of the Gregorian calendar,
      it is. */
  lemma {:induction false} DateIs(day: int)
    ensures 1 <= DateOf(day).month <= 12 && DayNumber(DateOf(day)) == day
    decreases if day < 0 then -day else day
  {
    hide DateOf, DayNumber, Tomorrow;
    if day == 0 {
      FirstDay();
      FirstNumber();
    } else if day > 0 {
      DateIs(day - 1);
      NextDay(day - 1);
      TomorrowIsNext(DateOf(day - 1));
    } else {
      DateIs(day + 1);
      NextDay(day);
      TomorrowIsNext(DateOf(day));
    }
  }

  lemma FirstNumber()
    ensures DayNumber(Date(1970, 1, 1)) == 0
  {
  }

  /** Minutes and days in plain arithmetic. */
  lemma ClockIs(d: int, h: int, mi: int, ms: int)
    requires 0 <= h < 24 && 0 <= mi < 60
    ensures var m := 1440 * d + 60 * h + mi;
      DayIndex(m) == d && HourOf(m) == h && MinuteOf(m) == mi && TimeOfDay(m) == 60 * h + mi
    ensures Weekday(d) == (d + 4) % 7 && MinuteAt(ms) == ms / 60_000 && Instant(d) == 60_000 * d
  {
    AtTime(d, 60 * h + mi);
    SplitMinute(1440 * d + 60 * h + mi);
  }
}
