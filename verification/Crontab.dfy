/** How crontab (INPUT FILES section of IEEE Std 1003.1-2017) combines the two day fields, and
    when the scheduler, which wants both to match, agrees with it.
 */
module Crontab {
  import opened Wrappers
  import opened Clock
  import opened Strings
  import opened CronField
  import opened Schedules
  import opened CronText

  // ---------------------------------------------------------------- the rule of crontab

  /** `fields` are the five fields of the expression `c` was parsed from.  With the weekday
      left open the date decides; with the date left open the weekday does; with both restricted
      either is enough. */
  predicate CrontabDay(fields: seq<string>, c: CronSpec, day: int)
    requires |fields| == 5
  {
    if fields[4] == "*" then OnDate(c, day)
    else if fields[2] == "*" && fields[3] == "*" then DowMatch(c.dows, Weekday(day))
    else OnDate(c, day) || DowMatch(c.dows, Weekday(day))
  }

  predicate CrontabDue(expression: string, m: int) {
    match ParseExpression(expression)
    case None => false
    case Some(c) =>
      MinuteOf(m) in c.minutes && HourOf(m) in c.hours && CrontabDay(Words(expression), c, DayIndex(m))
  }

  // ---------------------------------------------------------------- when the two agree

  /** Every date of the calendar is listed, or none is. */
  ghost predicate AllDates(c: CronSpec) {
    forall month, day | ValidDate(Date(1972, month, day)) :: month in c.months && day in c.doms
  }

  ghost predicate NoDate(c: CronSpec) {
    forall month, day | ValidDate(Date(1972, month, day)) :: !(month in c.months && day in c.doms)
  }

  ghost predicate NoWeekday(c: CronSpec) {
    forall w | 0 <= w < 7 :: !DowMatch(c.dows, w)
  }

  lemma SomeLeapDate(day: int)
    ensures ValidDate(Date(1972, DateOf(day).month, DateOf(day).day))
  {
    hide DateOf;
  }

  lemma DatesOfDays(c: CronSpec, day: int)
    ensures AllDates(c) ==> OnDate(c, day)
    ensures NoDate(c) ==> !OnDate(c, day)
  {
    SomeLeapDate(day);
    hide DateOf, ValidDate;
    assert ValidDate(Date(1972, DateOf(day).month, DateOf(day).day));
  }

  /** The two day fields select the same days exactly when both select every day or neither
      selects any: each date falls on every weekday sooner or later. */
  lemma SameDaysExactly(c: CronSpec)
    ensures (forall day :: OnDate(c, day) <==> DowMatch(c.dows, Weekday(day))) <==> AllOrNothing(c)
  {
    hide DateOf, DowMatch, Weekday;
    if AllOrNothing(c) {
      forall day ensures OnDate(c, day) <==> DowMatch(c.dows, Weekday(day)) {
        DatesOfDays(c, day);
      }
    } else {
      var day := DaysDiffer(c);
    }
  }

  lemma DaysDiffer(c: CronSpec) returns (day: int)
    requires !AllOrNothing(c)
    ensures OnDate(c, day) != DowMatch(c.dows, Weekday(day))
  {
    hide DateOf, DowMatch, Weekday;
    if !NoDate(c) {
      var month, d :| ValidDate(Date(1972, month, d)) && month in c.months && d in c.doms;
      if AnyWeekday(c) {
        var month', d' :| ValidDate(Date(1972, month', d')) && !(month' in c.months && d' in c.doms);
        day := DateOnWeekday(month', d', 0);
      } else {
        var w :| 0 <= w < 7 && !DowMatch(c.dows, w);
        day := DateOnWeekday(month, d, w);
      }
    } else {
      var w :| 0 <= w < 7 && DowMatch(c.dows, w);
      day := DateOnWeekday(1, 1, w);
      assert ValidDate(Date(1972, 1, 1));
    }
  }

  /** A field that is a star lists its whole range. */
  lemma StarField(lo: int, hi: int)
    ensures FieldSet("*", lo, hi).Some? && forall v :: v in FieldSet("*", lo, hi).value <==> lo <= v <= hi
  {
    SplitNone("*", ',');
    SplitNone("*", '/');
    ChunksDenote(["*"], lo, hi);
    assert forall v :: Denotes(["*"], lo, hi, v) <==> InProgression(v, Progression(lo, hi, 1)) by {
      assert "*" in ["*"];
    }
  }

  ghost predicate SameMinutes(expression: string) {
    forall m :: Due(Cron(expression), m) <==> CrontabDue(expression, m)
  }

  ghost predicate SameDays(fields: seq<string>, c: CronSpec)
    requires |fields| == 5
  {
    forall day :: DayOk(c, day) <==> CrontabDay(fields, c, day)
  }

  lemma MinutesByDays(expression: string, c: CronSpec)
    ensures ParseExpression(expression) == Some(c) ==>
      |Words(expression)| == 5 && (SameMinutes(expression) <==> !TimeSatisfiable(c) || SameDays(Words(expression), c))
  {
    hide Words, FieldSet, DayOk, CrontabDay;
    if ParseExpression(expression) == Some(c) {
      if !TimeSatisfiable(c) {
        forall m ensures !Due(Cron(expression), m) && !CrontabDue(expression, m) {
          SplitMinute(m);
        }
      } else {
        hide TimeSatisfiable, ParseExpression, DayIndex, MinuteOf, HourOf;
        var time := SomeTime(c);
        if SameMinutes(expression) {
          forall day ensures DayOk(c, day) <==> CrontabDay(Words(expression), c, day) {
            assert Due(Cron(expression), At(day, time)) <==> CrontabDue(expression, At(day, time));
          }
        }
      }
    }
  }

  ghost predicate OpenDays(fields: seq<string>, c: CronSpec)
    requires |fields| == 5
  {
    && (fields[4] == "*" ==> forall day :: DowMatch(c.dows, Weekday(day)))
    && (fields[2] == "*" && fields[3] == "*" ==> forall day :: OnDate(c, day))
  }

  /** One of the two day conditions is a star. */
  predicate LeftOpen(fields: seq<string>)
    requires |fields| == 5
  {
    fields[4] == "*" || (fields[2] == "*" && fields[3] == "*")
  }

  /** The two day conditions are both void or both impossible. */
  ghost predicate AllOrNothing(c: CronSpec) {
    (AllDates(c) && AnyWeekday(c)) || (NoDate(c) && NoWeekday(c))
  }

  lemma SameDaysByField(fields: seq<string>, c: CronSpec)
    requires |fields| == 5 && OpenDays(fields, c)
    ensures SameDays(fields, c) <==> LeftOpen(fields) || AllOrNothing(c)
  {
    SameDaysExactly(c);
    hide DowMatch, OnDate, Weekday, AllOrNothing;
    if !LeftOpen(fields) {
      assert forall day :: (DayOk(c, day) <==> CrontabDay(fields, c, day)) <==> (OnDate(c, day) <==> DowMatch(c.dows, Weekday(day)));
    }
  }

  ghost predicate NoDifference(fields: seq<string>, c: CronSpec)
    requires |fields| == 5
  {
    !TimeSatisfiable(c) || LeftOpen(fields) || AllOrNothing(c)
  }

  /** The scheduler and crontab agree on every minute exactly when the expression is malformed,
      or can never run at any time of day, or leaves the weekday or the date open, or its two day
      restrictions are both void or both impossible. */
  lemma AgreesExactly(expression: string)
    ensures SameMinutes(expression)
      <==> match ParseExpression(expression) case None => true case Some(c) => |Words(expression)| == 5 && NoDifference(Words(expression), c)
  {
    hide ParseExpression;
    if ParseExpression(expression).Some? {
      ParsedAgreesExactly(expression, ParseExpression(expression).value);
    }
  }

  lemma ParsedAgreesExactly(expression: string, c: CronSpec)
    ensures ParseExpression(expression) == Some(c) ==>
      |Words(expression)| == 5 && (SameMinutes(expression) <==> NoDifference(Words(expression), c))
  {
    if ParseExpression(expression) == Some(c) {
      MinutesByDays(expression, c);
      StarsSelectAll(expression, c);
      hide *;
      SameDaysByField(Words(expression), c);
    }
  }

  lemma StarsSelectAll(expression: string, c: CronSpec)
    ensures ParseExpression(expression) == Some(c) ==> |Words(expression)| == 5 && OpenDays(Words(expression), c)
  {
    hide Words, FieldSet, DateOf;
    if ParseExpression(expression) == Some(c) {
      StarField(1, 31);
      StarField(1, 12);
      StarField(0, 7);
    }
  }

  // ---------------------------------------------------------------- expressions that differ

  function Midnight(doms: Term, months: Term, dows: Term): Fields {
    Fields([Single(0)], [Single(0)], [doms], [months], [dows])
  }

  /** What a midnight expression with one term in each day field parses to. */
  lemma MidnightSpec(doms: Term, months: Term, dows: Term) returns (c: CronSpec)
    requires ValidTerm(doms) && ValidTerm(months) && ValidTerm(dows)
    ensures var f := Midnight(doms, months, dows);
      && ValidFields(f) && ParseExpression(Print(f)) == Some(c)
      && Words(Print(f)) == ["0", "0", PrintTerm(doms), PrintTerm(months), PrintTerm(dows)]
    ensures 0 in c.minutes && 0 in c.hours
    ensures forall v :: v in c.doms <==> InProgression(v, Meaning(doms, 1, 31))
    ensures forall v :: v in c.months <==> InProgression(v, Meaning(months, 1, 12))
    ensures forall v :: v in c.dows <==> InProgression(v, Meaning(dows, 0, 7))
  {
    hide TermsMean, ParseExpression, Words, PrintField, PrintTerm, Print, InProgression, Meaning;
    var f := Midnight(doms, months, dows);
    PrintedWords(f);
    c := PrintedSpec(f);
    ZeroTerm();
    forall t ensures PrintField([t]) == PrintTerm(t) {
      PrintOneTerm(t);
    }
    forall v
      ensures TermsMean(f.doms, 1, 31, v) <==> InProgression(v, Meaning(doms, 1, 31))
      ensures TermsMean(f.months, 1, 12, v) <==> InProgression(v, Meaning(months, 1, 12))
      ensures TermsMean(f.dows, 0, 7, v) <==> InProgression(v, Meaning(dows, 0, 7))
    {
      OneTerm(doms, 1, 31, v);
      OneTerm(months, 1, 12, v);
      OneTerm(dows, 0, 7, v);
    }
  }

  lemma ZeroTerm()
    ensures PrintTerm(Single(0)) == "0"
    ensures TermsMean([Single(0)], 0, 59, 0) && TermsMean([Single(0)], 0, 23, 0)
  {
    OneTerm(Single(0), 0, 59, 0);
    OneTerm(Single(0), 0, 23, 0);
  }

  lemma PrintOneTerm(t: Term)
    ensures PrintField([t]) == PrintTerm(t)
  {
    hide PrintTerm;
  }

  lemma MidnightDue(expression: string, c: CronSpec, day: int)
    requires 0 in c.minutes && 0 in c.hours
    ensures ParseExpression(expression) == Some(c) ==>
      && |Words(expression)| == 5
      && (Due(Cron(expression), At(day, 0)) <==> DayOk(c, day))
      && (CrontabDue(expression, At(day, 0)) <==> CrontabDay(Words(expression), c, day))
  {
    hide Words, FieldSet, DayOk, CrontabDay;
    if ParseExpression(expression) == Some(c) {
      HandsAt(day, 0, 0);
    }
  }

  /** The 13 January 1970 was a Tuesday. */
  lemma TuesdayThirteenth()
    ensures DateOf(12) == Date(1970, 1, 13) && Weekday(12) == 2
  {
    FirstDay();
    hide DateOf;
    SameMonth(0, 12);
  }

  lemma ThirteenthAndTuesday(c: CronSpec)
    requires 13 in c.doms && 1 in c.months && 2 !in c.dows
    ensures OnDate(c, 12) && !DayOk(c, 12)
  {
    TuesdayThirteenth();
    hide DateOf;
  }

  lemma PrintThirteen()
    ensures PrintTerm(Single(13)) == "13" && PrintTerm(Single(5)) == "5" && PrintTerm(Single(1)) == "1"
  {
  }

  /** `0 0 13 * 5`, the 13th and Fridays: crontab runs it on Tuesday 13 January 1970, the
      scheduler does not. */
  lemma ThirteenthOrFriday() returns (expression: string)
    ensures Words(expression) == ["0", "0", "13", "*", "5"]
    ensures CrontabDue(expression, At(12, 0)) && !Due(Cron(expression), At(12, 0))
  {
    hide Words, ParseExpression, Print, Due, CrontabDue, DayOk, OnDate;
    expression := Print(Midnight(Single(13), All, Single(5)));
    var c := MidnightSpec(Single(13), All, Single(5));
    PrintThirteen();
    MidnightDue(expression, c, 12);
    ThirteenthAndTuesday(c);
  }

  lemma NewYearDays(c: CronSpec)
    requires forall v :: v in c.doms <==> v == 1
    requires forall v :: v in c.months <==> v == 1
    requires forall w | 0 <= w <= 7 :: w in c.dows
    ensures DayOk(c, 365) && DrySpell(c, 31)
  {
    NewYear1971();
    hide DateOf, DaysBefore, DrySpell, Weekday;
    MonthGapIsDry(c, 2);
  }

  lemma NewYear1971()
    ensures DateOf(365) == Date(1971, 1, 1) && DaysBefore(1970, 2) == 31
  {
    FirstDay();
    hide DateOf;
    NextYear(0);
  }

  /** `0 0 1 1 *`, every New Year: asked at the end of January 1970 the scheduler reports no
      run, although 1 January 1971 is one. */
  lemma NewYearMissed() returns (expression: string)
    ensures Words(expression) == ["0", "0", "1", "1", "*"]
    ensures NextRun(Cron(expression), Instant(At(31, 0) - 1)) == None
    ensures Due(Cron(expression), At(365, 0))
  {
    hide Words, ParseExpression, Print, Due, NextRun, DayOk, DrySpell;
    expression := Print(Midnight(Single(1), Single(1), All));
    var c := MidnightSpec(Single(1), Single(1), All);
    PrintThirteen();
    NewYearDays(c);
    MidnightDue(expression, c, 365);
    DryHides(Cron(expression), c, 31);
  }
}
