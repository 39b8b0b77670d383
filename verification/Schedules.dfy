/** `nextRunAfter` and `nextCronAfter`: the next run of an interval, an `every` or a cron
    schedule, found by stepping minute by minute through a bounded horizon.
 */
module Schedules {
  import opened Wrappers
  import opened Clock
  import opened Strings
  import CronField

  /** `hours` of an `every` schedule may be absent; an empty day list means every day. */
  datatype Schedule =
    | Interval(hours: seq<int>, minute: int, days: seq<int>)
    | Every(every: real, hoursOnly: Option<seq<int>>, days: seq<int>)
    | Cron(expression: string)
    | Unscheduled

  // ---------------------------------------------------------------- cron expressions

  datatype CronSpec = CronSpec(minutes: set<int>, hours: set<int>, doms: set<int>, months: set<int>, dows: set<int>)

  function WordLength(s: string): (n: nat)
    ensures n <= |s|
    ensures s != "" && !IsSpace(s[0]) ==> n > 0
  {
    if s == "" || IsSpace(s[0]) then 0 else 1 + WordLength(s[1..])
  }

  /** `s.trim().split(/\s+/)`, except that a blank `s` has no words at all. */
  function Words(s: string): seq<string>
    decreases |s|
  {
    if s == "" then []
    else if IsSpace(s[0]) then Words(s[1..])
    else [s[..WordLength(s)]] + Words(s[WordLength(s)..])
  }

  function ParseExpression(expression: string): Option<CronSpec> {
    var parts := Words(expression);
    if |parts| != 5 then None
    else
      var minutes := CronField.FieldSet(parts[0], 0, 59);
      var hours := CronField.FieldSet(parts[1], 0, 23);
      var doms := CronField.FieldSet(parts[2], 1, 31);
      var months := CronField.FieldSet(parts[3], 1, 12);
      var dows := CronField.FieldSet(parts[4], 0, 7);
      if minutes.None? || hours.None? || doms.None? || months.None? || dows.None? then None
      else Some(CronSpec(minutes.value, hours.value, doms.value, months.value, dows.value))
  }

  /** In cron, 7 also means Sunday. */
  predicate DowMatch(dows: set<int>, weekday: int) {
    weekday in dows || (weekday == 0 && 7 in dows)
  }

  /** The day of the month and the month of `day` are listed. */
  predicate OnDate(c: CronSpec, day: int) {
    DateOf(day).day in c.doms && DateOf(day).month in c.months
  }

  predicate DayOk(c: CronSpec, day: int) {
    OnDate(c, day) && DowMatch(c.dows, Weekday(day))
  }

  predicate CronMatch(c: CronSpec, m: int) {
    MinuteOf(m) in c.minutes && HourOf(m) in c.hours && DayOk(c, DayIndex(m))
  }

  // ---------------------------------------------------------------- specification

  predicate DayAllowed(days: seq<int>, weekday: int) {
    days == [] || weekday in days
  }

  /** `t % every` is zero; the interval need not be a whole number of minutes. */
  predicate MultipleOf(t: int, every: real)
    requires every > 0.0
  {
    var q := t as real / every;
    q == q.Floor as real
  }

  /** A time of day at which an `every` schedule runs on its days. */
  predicate EverySlot(s: Schedule, t: int)
    requires s.Every?
  {
    1.0 <= s.every <= 1440.0 && 0 <= t < MINUTES_PER_DAY && MultipleOf(t, s.every) &&
    (s.hoursOnly.Some? ==> t / 60 in s.hoursOnly.value)
  }

  /** The schedule runs at minute `m`. */
  predicate Due(s: Schedule, m: int) {
    match s
    case Interval(hours, minute, days) =>
      MinuteOf(m) == minute && HourOf(m) in hours && DayAllowed(days, Weekday(DayIndex(m)))
    case Every(_, _, days) =>
      EverySlot(s, TimeOfDay(m)) && DayAllowed(days, Weekday(DayIndex(m)))
    case Cron(expression) =>
      ParseExpression(expression).Some? && CronMatch(ParseExpression(expression).value, m)
    case Unscheduled => false
  }

  /** How many minutes the search looks ahead. */
  function Horizon(s: Schedule): nat {
    match s
    case Interval(_, _, _) => 8 * 24 * 60
    case Every(_, _, _) => 3 * 24 * 60
    case Cron(_) => 32 * 24 * 60
    case Unscheduled => 0
  }

  /** The first due minute among the `n` minutes after `m`. */
  function FirstDue(s: Schedule, m: int, n: nat): Option<int>
    decreases n
  {
    if n == 0 then None else if Due(s, m + 1) then Some(m + 1) else FirstDue(s, m + 1, n - 1)
  }

  /** The next run after the instant `from`, in milliseconds. */
  function NextRun(s: Schedule, from: int): Option<int> {
    match FirstDue(s, MinuteAt(from), Horizon(s))
    case None => None
    case Some(m) => Some(Instant(m))
  }

  lemma {:induction false} FirstDueIs(s: Schedule, m: int, n: nat)
    ensures match FirstDue(s, m, n)
      case Some(r) => m < r <= m + n && Due(s, r) && (forall k | m < k < r :: !Due(s, k))
      case None => forall k | m < k <= m + n :: !Due(s, k)
    decreases n
  {
    hide Due;
    if n > 0 {
      FirstDueIs(s, m + 1, n - 1);
    }
  }

  /** Every schedule: what is found is the least due minute within the horizon, and nothing
      is found exactly when no minute within the horizon is due. */
  lemma SearchWithinHorizon(s: Schedule, from: int)
    ensures match NextRun(s, from)
      case Some(r) =>
        && r == Instant(MinuteAt(r))
        && MinuteAt(from) < MinuteAt(r) <= MinuteAt(from) + Horizon(s) && Due(s, MinuteAt(r))
        && forall k | MinuteAt(from) < k < MinuteAt(r) :: !Due(s, k)
      case None => forall k | MinuteAt(from) < k <= MinuteAt(from) + Horizon(s) :: !Due(s, k)
  {
    FirstDueIs(s, MinuteAt(from), Horizon(s));
    if FirstDue(s, MinuteAt(from), Horizon(s)).Some? {
      InstantOfMinute(FirstDue(s, MinuteAt(from), Horizon(s)).value);
    }
  }

  // ---------------------------------------------------------------- the meaning of a schedule

  /** An interval schedule runs at its minute of its hours on its days. */
  lemma IntervalDueIs(hours: seq<int>, minute: int, days: seq<int>, d: int, h: int, mi: int)
    requires 0 <= h < 24 && 0 <= mi < 60
    ensures Due(Interval(hours, minute, days), 1440 * d + 60 * h + mi)
      <==> mi == minute && h in hours && (days == [] || (d + 4) % 7 in days)
  {
    ClockIs(d, h, mi, 0);
    hide DayIndex, HourOf, MinuteOf;
  }

  function TimesInterval(k: int, every: real): real {
    k as real * every
  }

  /** An `every` schedule runs at the multiples of its interval since midnight, in its hours, on
      its days. */
  lemma EveryDueIs(every: real, hoursOnly: Option<seq<int>>, days: seq<int>, d: int, h: int, mi: int)
    requires 0 <= h < 24 && 0 <= mi < 60
    ensures Due(Every(every, hoursOnly, days), 1440 * d + 60 * h + mi)
      <==> && 1.0 <= every <= 1440.0
           && (exists k: int :: TimesInterval(k, every) == (60 * h + mi) as real)
           && (hoursOnly.None? || h in hoursOnly.value)
           && (days == [] || (d + 4) % 7 in days)
  {
    ClockIs(d, h, mi, 0);
    hide DayIndex, TimeOfDay;
    if 1.0 <= every <= 1440.0 {
      MultipleIs(60 * h + mi, every);
    }
  }

  lemma MultipleIs(t: int, every: real)
    requires every > 0.0
    ensures MultipleOf(t, every) <==> exists k: int :: TimesInterval(k, every) == t as real
  {
    var q := t as real / every;
    if MultipleOf(t, every) {
      assert TimesInterval(q.Floor, every) == t as real;
    }
    if k: int :| TimesInterval(k, every) == t as real {
      assert q == k as real;
    }
  }

  /** A cron schedule runs when all five fields match; 7 also means Sunday. */
  lemma CronDueIs(expression: string, d: int, h: int, mi: int)
    requires 0 <= h < 24 && 0 <= mi < 60
    ensures Due(Cron(expression), 1440 * d + 60 * h + mi)
      <==> match ParseExpression(expression)
           case None => false
           case Some(c) =>
             && mi in c.minutes && h in c.hours && DateOf(d).day in c.doms && DateOf(d).month in c.months
             && ((d + 4) % 7 in c.dows || ((d + 4) % 7 == 0 && 7 in c.dows))
  {
    ClockIs(d, h, mi, 0);
    hide DayIndex, HourOf, MinuteOf, ParseExpression, DateOf;
  }

  /** The search in plain arithmetic: it looks 8, 3 or 32 days ahead, minute by minute, and
      returns the start of the first due minute after the one it was asked in. */
  lemma SearchIs(s: Schedule, from: int)
    ensures var first := from / 60_000 + 1;
      var bound := first + 1440 * (match s case Interval(_, _, _) => 8 case Every(_, _, _) => 3 case Cron(_) => 32 case Unscheduled => 0);
      match NextRun(s, from)
      case Some(r) =>
        && r % 60_000 == 0 && first <= r / 60_000 < bound && Due(s, r / 60_000)
        && forall k | first <= k < r / 60_000 :: !Due(s, k)
      case None => forall k | first <= k < bound :: !Due(s, k)
  {
    hide Due, FirstDue;
    SearchWithinHorizon(s, from);
  }

  // ---------------------------------------------------------------- the search loops

  /** `nextCronAfter`. */
  method NextCronAfter(expression: string, from: int) returns (r: Option<int>)
    ensures r == NextRun(Cron(expression), from)
  {
    hide Words, CronMatch, CronField.FieldSet;
    ghost var s := Cron(expression);
    FirstDueIs(s, MinuteAt(from), Horizon(s));
    var parts := Words(expression);
    if |parts| != 5 {
      return None;
    }
    var minutes := CronField.ParseCronField(parts[0], 0, 59);
    var hours := CronField.ParseCronField(parts[1], 0, 23);
    var doms := CronField.ParseCronField(parts[2], 1, 31);
    var months := CronField.ParseCronField(parts[3], 1, 12);
    var dows := CronField.ParseCronField(parts[4], 0, 7);
    if minutes.None? || hours.None? || doms.None? || months.None? || dows.None? {
      return None;
    }
    var spec := CronSpec(minutes.value, hours.value, doms.value, months.value, dows.value);
    var probe := MinuteAt(from);
    var i := 0;
    while i < 32 * 24 * 60
      invariant 0 <= i <= 32 * 24 * 60 && probe == MinuteAt(from) + i
      invariant FirstDue(s, MinuteAt(from), Horizon(s)) == FirstDue(s, probe, Horizon(s) - i)
    {
      probe := probe + 1;
      if CronMatch(spec, probe) {
        return Some(Instant(probe));
      }
      i := i + 1;
    }
    return None;
  }

  /** `nextRunAfter`, interval schedules. */
  method NextIntervalRun(s: Schedule, from: int) returns (r: Option<int>)
    requires s.Interval?
    ensures r == NextRun(s, from)
  {
    var probe := MinuteAt(from);
    var i := 0;
    while i < 8 * 24 * 60
      invariant 0 <= i <= 8 * 24 * 60
      invariant FirstDue(s, MinuteAt(from), Horizon(s)) == FirstDue(s, probe, Horizon(s) - i)
    {
      probe := probe + 1;
      i := i + 1;
      if MinuteOf(probe) != s.minute { continue; }
      if HourOf(probe) !in s.hours { continue; }
      if !DayAllowed(s.days, Weekday(DayIndex(probe))) { continue; }
      return Some(Instant(probe));
    }
    return None;
  }

  /** `nextRunAfter`, `every` schedules. */
  method NextEveryRun(s: Schedule, from: int) returns (r: Option<int>)
    requires s.Every?
    ensures r == NextRun(s, from)
  {
    if !(1.0 <= s.every <= 1440.0) {
      FirstDueIs(s, MinuteAt(from), Horizon(s));
      return None;
    }
    var probe := MinuteAt(from);
    var i := 0;
    while i < 3 * 24 * 60
      invariant 0 <= i <= 3 * 24 * 60
      invariant FirstDue(s, MinuteAt(from), Horizon(s)) == FirstDue(s, probe, Horizon(s) - i)
    {
      probe := probe + 1;
      i := i + 1;
      SplitMinute(probe);
      if !MultipleOf(HourOf(probe) * 60 + MinuteOf(probe), s.every) { continue; }
      if s.hoursOnly.Some? && HourOf(probe) !in s.hoursOnly.value { continue; }
      if !DayAllowed(s.days, Weekday(DayIndex(probe))) { continue; }
      return Some(Instant(probe));
    }
    return None;
  }

  /** `nextRunAfter`. */
  method NextRunAfter(s: Schedule, from: int) returns (r: Option<int>)
    ensures r == NextRun(s, from)
  {
    match s
    case Interval(_, _, _) => r := NextIntervalRun(s, from);
    case Every(_, _, _) => r := NextEveryRun(s, from);
    case Cron(expression) => r := NextCronAfter(expression, from);
    case Unscheduled => r := None;
  }

  // ---------------------------------------------------------------- interval schedules

  predicate SomeDayAllowed(days: seq<int>) {
    days == [] || exists d <- days :: 0 <= d < 7
  }

  predicate IntervalSatisfiable(s: Schedule)
    requires s.Interval?
  {
    0 <= s.minute < 60 && (exists h <- s.hours :: 0 <= h < 24) && SomeDayAllowed(s.days)
  }

  /** A day with the given weekday among the seven days from `day` on. */
  lemma WeekdayComes(day: int, weekday: int) returns (d: int)
    requires 0 <= weekday < 7
    ensures day <= d < day + 7 && Weekday(d) == weekday
  {
    d := day + (weekday - Weekday(day)) % 7;
  }

  lemma SomeDayComes(day: int, days: seq<int>) returns (d: int)
    requires SomeDayAllowed(days)
    ensures day <= d < day + 7 && DayAllowed(days, Weekday(d))
  {
    if days == [] {
      d := day;
    } else {
      var w :| w in days && 0 <= w < 7;
      d := WeekdayComes(day, w);
    }
  }

  lemma IntervalComes(s: Schedule, m: int) returns (t: int)
    requires s.Interval? && IntervalSatisfiable(s)
    ensures m < t <= m + MINUTES_PER_WEEK && Due(s, t)
  {
    var h :| h in s.hours && 0 <= h < 24;
    var d := SomeDayComes(DayIndex(m), s.days);
    t := IntervalAt(s, d, h);
    SplitMinute(m);
    SplitMinute(t);
    if t <= m {
      WeekLater(t, 1);
      t := t + MINUTES_PER_WEEK;
    }
  }

  lemma IntervalAt(s: Schedule, day: int, hour: int) returns (t: int)
    requires s.Interval? && 0 <= s.minute < 60 && hour in s.hours && 0 <= hour < 24
    requires DayAllowed(s.days, Weekday(day))
    ensures DayIndex(t) == day && Due(s, t)
  {
    hide DayIndex, HourOf, MinuteOf, DayAllowed, Weekday;
    t := At(day, hour * 60 + s.minute);
    HandsAt(day, hour, s.minute);
  }

  /** The eight-day scan misses nothing: it returns the least due minute of all later ones,
      and null exactly when the schedule can never run. */
  lemma IntervalSearchComplete(s: Schedule, from: int)
    requires s.Interval?
    ensures NextRun(s, from).None? <==> !IntervalSatisfiable(s)
    ensures NextRun(s, from).None? <==> forall k :: !Due(s, k)
    ensures NextRun(s, from).Some? ==>
      var r := MinuteAt(NextRun(s, from).value);
      MinuteAt(from) < r && Due(s, r) && (forall k | MinuteAt(from) < k < r :: !Due(s, k))
  {
    FirstDueIs(s, MinuteAt(from), Horizon(s));
    SearchWithinHorizon(s, from);
    if IntervalSatisfiable(s) {
      var t := IntervalComes(s, MinuteAt(from));
    } else {
      forall k ensures !Due(s, k) {
        SplitMinute(k);
      }
    }
  }

  /** A later start never finds an earlier run. */
  lemma IntervalMonotone(s: Schedule, from: int, later: int)
    requires s.Interval? && from <= later && NextRun(s, later).Some?
    ensures NextRun(s, from).Some? && NextRun(s, from).value <= NextRun(s, later).value
  {
    IntervalSearchComplete(s, from);
    IntervalSearchComplete(s, later);
    FirstDueIs(s, MinuteAt(from), Horizon(s));
    FirstDueIs(s, MinuteAt(later), Horizon(s));
    assert MinuteAt(from) <= MinuteAt(later);
  }

  // ---------------------------------------------------------------- `every` schedules

  /** The day list leaves out three days in a row. */
  ghost predicate ThreeDayGap(days: seq<int>) {
    exists d :: !DayAllowed(days, Weekday(d)) && !DayAllowed(days, Weekday(d + 1)) && !DayAllowed(days, Weekday(d + 2))
  }

  lemma GapHides(s: Schedule, d: int)
    requires s.Every?
    requires !DayAllowed(s.days, Weekday(d)) && !DayAllowed(s.days, Weekday(d + 1)) && !DayAllowed(s.days, Weekday(d + 2))
    ensures FirstDue(s, d * MINUTES_PER_DAY - 1, Horizon(s)) == None
  {
    var m := d * MINUTES_PER_DAY - 1;
    FirstDueIs(s, m, Horizon(s));
    forall k | m < k <= m + Horizon(s) ensures !Due(s, k) {
      SplitMinute(k);
      assert DayIndex(k) == d || DayIndex(k) == d + 1 || DayIndex(k) == d + 2;
    }
  }

  lemma NoGapFinds(s: Schedule, m: int, slot: int)
    requires s.Every? && !ThreeDayGap(s.days) && EverySlot(s, slot)
    ensures FirstDue(s, m, Horizon(s)).Some?
  {
    var d := DayIndex(m);
    SplitMinute(m);
    FirstDueIs(s, m, Horizon(s));
    var late := slot > TimeOfDay(m);
    var day := if DayAllowed(s.days, Weekday(d + 1)) then d + 1
               else if DayAllowed(s.days, Weekday(d + 2)) then d + 2
               else if late then d else d + 3;
    assert DayAllowed(s.days, Weekday(day));
    AtTime(day, slot);
    assert Due(s, day * MINUTES_PER_DAY + slot);
  }

  /** The three-day scan of an `every` schedule finds a run from every start exactly when the
      day list never leaves out three days in a row. */
  lemma EverySearchCompleteExactly(s: Schedule)
    requires s.Every? && exists t :: EverySlot(s, t)
    ensures (forall from :: NextRun(s, from).Some?) <==> !ThreeDayGap(s.days)
  {
    if ThreeDayGap(s.days) {
      var d :| !DayAllowed(s.days, Weekday(d)) && !DayAllowed(s.days, Weekday(d + 1)) && !DayAllowed(s.days, Weekday(d + 2));
      GapHides(s, d);
      var from := Instant(d * MINUTES_PER_DAY - 1);
      assert MinuteAt(from) == d * MINUTES_PER_DAY - 1;
      assert NextRun(s, from).None?;
    } else {
      var t :| EverySlot(s, t);
      forall from ensures NextRun(s, from).Some? {
        NoGapFinds(s, MinuteAt(from), t);
      }
    }
  }

  /** Hourly on Mondays, asked on Tuesday 6 January 1970 at midnight: no run is reported
      although the schedule runs on Monday the 12th. */
  lemma EveryMissesNextMonday()
    ensures var s := Every(60.0, None, [1]);
      NextRun(s, Instant(5 * MINUTES_PER_DAY - 1)) == None && Due(s, 11 * MINUTES_PER_DAY)
  {
    var s := Every(60.0, None, [1]);
    GapHides(s, 5);
    AtTime(11, 0);
    assert MinuteAt(Instant(5 * MINUTES_PER_DAY - 1)) == 5 * MINUTES_PER_DAY - 1;
  }

  /** Null is only ever returned for a schedule that never runs. */
  ghost predicate NullMeansNever(s: Schedule) {
    forall from, k | NextRun(s, from).None? :: !Due(s, k)
  }

  /** So null means what it should exactly when the day list leaves out no three days in a row,
      or there is nothing to find. */
  lemma EveryNullExactly(s: Schedule)
    requires s.Every?
    ensures NullMeansNever(s) <==> !ThreeDayGap(s.days) || !SomeDayAllowed(s.days) || forall t :: !EverySlot(s, t)
  {
    if t :| EverySlot(s, t) {
      EverySearchCompleteExactly(s);
      if SomeDayAllowed(s.days) {
        var d := SomeDayComes(0, s.days);
        AtTime(d, t);
        assert Due(s, d * MINUTES_PER_DAY + t);
      } else {
        forall k ensures !Due(s, k) {
          assert 0 <= Weekday(DayIndex(k)) < 7;
        }
      }
    } else {
      forall k ensures !Due(s, k) {
        assert !EverySlot(s, TimeOfDay(k));
      }
    }
  }

  // ---------------------------------------------------------------- cron schedules

  /** The minute and hour fields can be met. */
  predicate TimeSatisfiable(c: CronSpec) {
    (exists minute <- c.minutes :: 0 <= minute < 60) && (exists hour <- c.hours :: 0 <= hour < 24)
  }

  /** 32 days without a run. */
  predicate DrySpell(c: CronSpec, day: int) {
    forall k | day <= k < day + 32 :: !DayOk(c, k)
  }

  /** No 32 days in a row are without a run; the calendar repeats, so one cycle decides. */
  predicate NeverDry(c: CronSpec) {
    forall day | 0 <= day < CYCLE_DAYS :: !DrySpell(c, day)
  }

  lemma DayRepeats(c: CronSpec, day: int)
    ensures DayOk(c, day + CYCLE_DAYS) == DayOk(c, day)
  {
    hide DateOf, Weekday;
    CalendarRepeats(day);
  }

  lemma {:induction false} DayRepeatsOften(c: CronSpec, day: int, n: int)
    ensures DayOk(c, day + CYCLE_DAYS * n) == DayOk(c, day)
    decreases if n < 0 then -n else n
  {
    hide DayOk;
    if n > 0 {
      DayRepeatsOften(c, day, n - 1);
      DayRepeats(c, day + CYCLE_DAYS * (n - 1));
    } else if n < 0 {
      DayRepeatsOften(c, day, n + 1);
      DayRepeats(c, day + CYCLE_DAYS * n);
    }
  }

  /** A dry spell anywhere shows up within the cycle. */
  lemma NeverDryAnywhere(c: CronSpec, day: int)
    requires NeverDry(c)
    ensures !DrySpell(c, day)
  {
    hide DayOk;
    var n, start := day / CYCLE_DAYS, day % CYCLE_DAYS;
    assert !DrySpell(c, start);
    var k :| start <= k < start + 32 && DayOk(c, k);
    DayRepeatsOften(c, k, n);
    assert day <= k + CYCLE_DAYS * n < day + 32;
  }

  lemma DryHides(s: Schedule, c: CronSpec, day: int)
    requires DrySpell(c, day)
    ensures s.Cron? && ParseExpression(s.expression) == Some(c) ==> NextRun(s, Instant(day * MINUTES_PER_DAY - 1)) == None
  {
    hide DayOk, ParseExpression, FirstDue;
    if s.Cron? && ParseExpression(s.expression) == Some(c) {
      var m := day * MINUTES_PER_DAY - 1;
      InstantOfMinute(m);
      FirstDueIs(s, m, Horizon(s));
      forall k | m < k <= m + Horizon(s) ensures !Due(s, k) {
        SplitMinute(k);
        assert day <= DayIndex(k) < day + 32;
      }
    }
  }

  /** The minute at a time of a day. */
  function At(day: int, time: int): int {
    day * MINUTES_PER_DAY + time
  }

  /** A time of day that the minute and hour fields allow. */
  lemma SomeTime(c: CronSpec) returns (time: int)
    requires TimeSatisfiable(c)
    ensures 0 <= time < MINUTES_PER_DAY
    ensures forall day ::
      DayIndex(At(day, time)) == day && MinuteOf(At(day, time)) in c.minutes && HourOf(At(day, time)) in c.hours
  {
    hide DayIndex, HourOf, MinuteOf;
    var minute :| minute in c.minutes && 0 <= minute < 60;
    var hour :| hour in c.hours && 0 <= hour < 24;
    time := hour * 60 + minute;
    forall day
      ensures DayIndex(At(day, time)) == day && MinuteOf(At(day, time)) in c.minutes && HourOf(At(day, time)) in c.hours
    {
      HandsAt(day, hour, minute);
    }
  }

  lemma HandsAt(day: int, hour: int, minute: int)
    requires 0 <= minute < 60 && 0 <= hour < 24
    ensures var m := At(day, hour * 60 + minute);
      MinuteOf(m) == minute && HourOf(m) == hour && DayIndex(m) == day
  {
    AtTime(day, hour * 60 + minute);
    SplitMinute(day * MINUTES_PER_DAY + (hour * 60 + minute));
  }

  lemma NeverDryFinds(s: Schedule, c: CronSpec, from: int)
    requires TimeSatisfiable(c) && NeverDry(c)
    ensures s.Cron? && ParseExpression(s.expression) == Some(c) ==> NextRun(s, from).Some?
  {
    hide DayOk, ParseExpression, FirstDue, NeverDry;
    if s.Cron? && ParseExpression(s.expression) == Some(c) {
      var m := MinuteAt(from);
      var time := SomeTime(c);
      var today := DayIndex(m);
      SplitMinute(m);
      FirstDueIs(s, m, Horizon(s));
      NeverDryAnywhere(c, today + 1);
      var day :| today + 1 <= day < today + 33 && DayOk(c, day);
      if day == today + 32 && time > TimeOfDay(m) {
        NeverDryAnywhere(c, today);
        var k :| today <= k < today + 32 && DayOk(c, k);
        day := k;
      }
      assert Due(s, At(day, time));
    }
  }

  predicate AlwaysRunsAgain(expression: string) {
    match ParseExpression(expression)
    case None => false
    case Some(c) => TimeSatisfiable(c) && NeverDry(c)
  }

  /** The main law for cron: the 32-day search finds a run from every start exactly when the
      expression is well formed, its minute and hour fields can be met, and its day fields never
      leave out 32 days in a row. */
  lemma CronSearchCompleteExactly(s: Schedule)
    requires s.Cron?
    ensures (forall from :: NextRun(s, from).Some?) <==> AlwaysRunsAgain(s.expression)
  {
    hide ParseExpression, FirstDue, DrySpell;
    match ParseExpression(s.expression) {
      case None =>
        NothingFound(s, 0);
      case Some(c) =>
        if !TimeSatisfiable(c) {
          NoTime(s, c);
          NothingFound(s, 0);
        } else if NeverDry(c) {
          forall from ensures NextRun(s, from).Some? {
            NeverDryFinds(s, c, from);
          }
        } else {
          var day :| 0 <= day < CYCLE_DAYS && DrySpell(c, day);
          DryHides(s, c, day);
        }
    }
  }

  lemma NoTime(s: Schedule, c: CronSpec)
    requires !TimeSatisfiable(c)
    ensures s.Cron? && ParseExpression(s.expression) == Some(c) ==> forall k :: !Due(s, k)
  {
    hide ParseExpression;
    if s.Cron? && ParseExpression(s.expression) == Some(c) {
      forall k ensures !Due(s, k) {
        SplitMinute(k);
      }
    }
  }

  lemma NothingFound(s: Schedule, from: int)
    requires forall k :: !Due(s, k)
    ensures NextRun(s, from) == None
  {
    FirstDueIs(s, MinuteAt(from), Horizon(s));
  }

  /** Some day of the cycle is a run day. */
  predicate SomeDayOk(c: CronSpec) {
    exists day | 0 <= day < CYCLE_DAYS :: DayOk(c, day)
  }

  /** The null that the search returns can be relied on: nothing is left out for long, or there
      is nothing to find. */
  predicate NullReliable(expression: string) {
    match ParseExpression(expression)
    case None => true
    case Some(c) => NeverDry(c) || !TimeSatisfiable(c) || !SomeDayOk(c)
  }

  /** Null means what it should exactly when the search is complete or there is nothing to find. */
  lemma CronNullExactly(s: Schedule)
    requires s.Cron?
    ensures NullMeansNever(s) <==> NullReliable(s.expression)
  {
    hide ParseExpression, FirstDue, DrySpell, NeverDry, DayOk;
    match ParseExpression(s.expression) {
      case None =>
      case Some(c) => ParsedNullExactly(s, c);
    }
  }

  lemma ParsedNullExactly(s: Schedule, c: CronSpec)
    ensures s.Cron? && ParseExpression(s.expression) == Some(c) ==>
      (NullMeansNever(s) <==> NeverDry(c) || !TimeSatisfiable(c) || !SomeDayOk(c))
  {
    hide ParseExpression, FirstDue, DrySpell, NeverDry, DayOk;
    if s.Cron? && ParseExpression(s.expression) == Some(c) {
      CronSearchCompleteExactly(s);
      if !TimeSatisfiable(c) {
        NoTime(s, c);
      } else if SomeDayOk(c) {
        var day :| 0 <= day < CYCLE_DAYS && DayOk(c, day);
        var time := SomeTime(c);
        assert CronMatch(c, At(day, time));
        assert Due(s, At(day, time));
      } else {
        forall k ensures !Due(s, k) {
          NoDayOk(c, DayIndex(k));
          DueNeedsDay(s, c, k);
        }
      }
    }
  }

  lemma NoDayOk(c: CronSpec, day: int)
    requires !SomeDayOk(c)
    ensures !DayOk(c, day)
  {
    hide DayOk;
    DayRepeatsOften(c, day % CYCLE_DAYS, day / CYCLE_DAYS);
  }

  lemma DueNeedsDay(s: Schedule, c: CronSpec, k: int)
    ensures s.Cron? && ParseExpression(s.expression) == Some(c) && Due(s, k) ==> DayOk(c, DayIndex(k))
  {
  }

  // ---------------------------------------------------------------- common cron patterns

  ghost predicate AnyMonth(c: CronSpec) {
    forall month | 1 <= month <= 12 :: month in c.months
  }

  ghost predicate AnyDayOfMonth(c: CronSpec) {
    forall day | 1 <= day <= 31 :: day in c.doms
  }

  ghost predicate AnyWeekday(c: CronSpec) {
    forall w | 0 <= w < 7 :: DowMatch(c.dows, w)
  }

  ghost predicate HasEarlyDay(c: CronSpec) {
    exists d <- c.doms :: 1 <= d <= 28
  }

  lemma FebruaryStarts()
    ensures DateOf(31) == Date(1970, 2, 1)
  {
    FirstDay();
    hide DateOf;
    NextMonth(0);
  }

  /** The 32 days from 1 February 1970 on contain no 29th, 30th or 31st. */
  lemma FebruaryWindow(february: int, day: int)
    requires DateOf(february) == Date(1970, 2, 1) && february <= day < february + 32
    ensures 1 <= DateOf(day).day <= 28
  {
    hide DateOf;
    NextMonth(february);
    var march := february + 28;
    if day < march {
      SameMonth(february, day - february);
    } else {
      SameMonth(march, day - march);
    }
  }

  /** With month and weekday unrestricted there is never a dry spell exactly when some day of
      the month up to the 28th is listed. */
  lemma DailyPatternDryExactly(c: CronSpec)
    requires AnyMonth(c) && AnyWeekday(c)
    ensures NeverDry(c) <==> HasEarlyDay(c)
  {
    hide DateOf;
    if HasEarlyDay(c) {
      var dom :| dom in c.doms && 1 <= dom <= 28;
      forall day ensures !DrySpell(c, day) {
        var k := EveryDayOfMonthComes(day, dom);
        assert DayOk(c, day + k);
      }
    } else {
      FebruaryStarts();
      forall k | 31 <= k < 63 ensures !DayOk(c, k) {
        FebruaryWindow(31, k);
      }
      assert DrySpell(c, 31);
    }
  }

  function MonthAfter(month: int): int {
    if month == 12 then 1 else month + 1
  }

  /** Two months in a row are left out. */
  predicate MonthGap(c: CronSpec, month: int) {
    1 <= month <= 12 && month !in c.months && MonthAfter(month) !in c.months
  }

  /** ... as in every yearly schedule. */
  lemma MonthGapIsDry(c: CronSpec, month: int)
    requires MonthGap(c, month)
    ensures DrySpell(c, DaysBefore(1970, month))
  {
    FirstDay();
    hide DateOf, DaysBefore;
    var start, length := DaysBefore(1970, month), MonthLength(1970, month);
    MonthStart(0, 1970, month);
    NextMonth(start);
    forall k | start <= k < start + 32 ensures !DayOk(c, k) {
      if k < start + length {
        SameMonth(start, k - start);
      } else {
        SameMonth(start + length, k - (start + length));
      }
    }
  }

  /** With the days unrestricted there is never a dry spell exactly when no two months in a row
      are left out. */
  lemma MonthsDryExactly(c: CronSpec)
    requires AnyDayOfMonth(c) && AnyWeekday(c)
    ensures NeverDry(c) <==> forall month :: !MonthGap(c, month)
  {
    hide DateOf, DaysBefore;
    if month :| MonthGap(c, month) {
      MonthGapIsDry(c, month);
      DaysBeforeAtMost(1970, month);
    } else {
      forall day ensures !DrySpell(c, day) {
        NoGapNotDry(c, day);
      }
    }
  }

  lemma {:induction false} DaysBeforeAtMost(year: int, month: int)
    requires 1 <= month <= 12
    ensures DaysBefore(year, month) <= 31 * (month - 1)
    decreases month
  {
    if month > 1 {
      DaysBeforeAtMost(year, month - 1);
    }
  }

  lemma NoGapNotDry(c: CronSpec, day: int)
    requires AnyDayOfMonth(c) && AnyWeekday(c) && forall month :: !MonthGap(c, month)
    ensures !DrySpell(c, day)
  {
    hide DateOf;
    var d := DateOf(day);
    assert !MonthGap(c, d.month);
    if d.month in c.months {
      assert DayOk(c, day);
    } else {
      var rest := MonthLength(d.year, d.month) - d.day;
      SameMonth(day, rest);
      NextDay(day + rest);
      assert DayOk(c, day + rest + 1);
    }
  }
}
