/** Printing a cron schedule as a five-field expression and reading it back.
 */
module CronText {
  import opened Wrappers
  import opened Clock
  import opened Strings
  import opened CronField
  import opened Schedules

  /** The terms of each field. */
  datatype Fields = Fields(minutes: seq<Term>, hours: seq<Term>, doms: seq<Term>, months: seq<Term>, dows: seq<Term>)

  ghost predicate ValidField(ts: seq<Term>) {
    ts != [] && forall t <- ts :: ValidTerm(t)
  }

  ghost predicate ValidFields(f: Fields) {
    && ValidField(f.minutes) && ValidField(f.hours)
    && ValidField(f.doms) && ValidField(f.months) && ValidField(f.dows)
  }

  function Print(f: Fields): string
    requires ValidFields(f)
  {
    Join([PrintField(f.minutes), PrintField(f.hours), PrintField(f.doms), PrintField(f.months), PrintField(f.dows)], ' ')
  }

  /** What the terms say about minute `m`; 7 also means Sunday. */
  ghost predicate Says(f: Fields, m: int) {
    var day := DayIndex(m);
    && TermsMean(f.minutes, 0, 59, MinuteOf(m))
    && TermsMean(f.hours, 0, 23, HourOf(m))
    && TermsMean(f.doms, 1, 31, DateOf(day).day)
    && TermsMean(f.months, 1, 12, DateOf(day).month)
    && (TermsMean(f.dows, 0, 7, Weekday(day)) || (Weekday(day) == 0 && TermsMean(f.dows, 0, 7, 7)))
  }

  // ---------------------------------------------------------------- words

  /** A word: not empty, and without white space. */
  ghost predicate Solid(s: string) {
    s != "" && forall c <- s :: !IsSpace(c)
  }

  lemma {:induction false} WordEnds(a: string, rest: string)
    requires forall c <- a :: !IsSpace(c)
    requires rest == "" || IsSpace(rest[0])
    ensures WordLength(a + rest) == |a|
  {
    if a == "" {
      assert a + rest == rest;
    } else {
      assert (a + rest)[0] == a[0] && a[0] in a;
      assert (a + rest)[1..] == a[1..] + rest;
      assert forall c <- a[1..] :: c in a;
      WordEnds(a[1..], rest);
    }
  }

  lemma FirstWord(a: string, rest: string)
    requires Solid(a) && (rest == "" || IsSpace(rest[0]))
    ensures Words(a + rest) == [a] + Words(rest)
  {
    WordEnds(a, rest);
    assert (a + rest)[0] == a[0] && a[0] in a;
    assert (a + rest)[..|a|] == a && (a + rest)[|a|..] == rest;
  }

  lemma {:induction false} WordsOfJoin(parts: seq<string>)
    requires parts != [] && forall p <- parts :: Solid(p)
    ensures Words(Join(parts, ' ')) == parts
  {
    hide Words, Solid;
    assert parts[0] in parts;
    if |parts| == 1 {
      NoWords();
      FirstWord(parts[0], "");
      assert parts[0] + "" == parts[0];
    } else {
      assert forall p <- parts[1..] :: p in parts;
      WordsOfJoin(parts[1..]);
      var rest := [' '] + Join(parts[1..], ' ');
      FirstWord(parts[0], rest);
      WordsAfterSpace(' ', Join(parts[1..], ' '));
      assert parts[0] + [' '] + Join(parts[1..], ' ') == parts[0] + rest;
      assert [parts[0]] + parts[1..] == parts;
    }
  }

  lemma NoWords()
    ensures Words("") == []
  {
  }

  /** White space in front, of whatever kind, does not matter. */
  lemma WordsAfterSpace(space: char, s: string)
    requires IsSpace(space)
    ensures Words([space] + s) == Words(s)
  {
    assert ([space] + s)[1..] == s;
  }

  lemma {:induction false} JoinSolid(parts: seq<string>, sep: char)
    requires parts != [] && !IsSpace(sep) && forall p <- parts :: Solid(p)
    ensures Solid(Join(parts, sep))
  {
    assert parts[0] in parts;
    if |parts| > 1 {
      assert forall p <- parts[1..] :: p in parts;
      JoinSolid(parts[1..], sep);
    }
  }

  lemma TermSolid(t: Term)
    ensures Solid(PrintTerm(t))
  {
    assert forall c: char | IsDigit(c) :: !IsSpace(c);
    assert !IsSpace('-') && !IsSpace('/') && !IsSpace('*');
  }

  lemma FieldSolid(ts: seq<Term>)
    requires ts != []
    ensures Solid(PrintField(ts))
  {
    var parts := seq(|ts|, i requires 0 <= i < |ts| => PrintTerm(ts[i]));
    forall p | p in parts ensures Solid(p) {
      var i :| 0 <= i < |parts| && parts[i] == p;
      TermSolid(ts[i]);
    }
    JoinSolid(parts, ',');
  }

  // ---------------------------------------------------------------- the round trip

  lemma PrintedWords(f: Fields)
    requires ValidFields(f)
    ensures Words(Print(f))
         == [PrintField(f.minutes), PrintField(f.hours), PrintField(f.doms), PrintField(f.months), PrintField(f.dows)]
  {
    hide PrintField, Solid, Words, Join;
    FieldSolid(f.minutes);
    FieldSolid(f.hours);
    FieldSolid(f.doms);
    FieldSolid(f.months);
    FieldSolid(f.dows);
    WordsOfJoin([PrintField(f.minutes), PrintField(f.hours), PrintField(f.doms), PrintField(f.months), PrintField(f.dows)]);
  }

  /** Every printed schedule is accepted, and its fields hold exactly what their terms say. */
  lemma PrintedSpec(f: Fields) returns (c: CronSpec)
    requires ValidFields(f)
    ensures ParseExpression(Print(f)) == Some(c)
    ensures forall v :: v in c.minutes <==> TermsMean(f.minutes, 0, 59, v)
    ensures forall v :: v in c.hours <==> TermsMean(f.hours, 0, 23, v)
    ensures forall v :: v in c.doms <==> TermsMean(f.doms, 1, 31, v)
    ensures forall v :: v in c.months <==> TermsMean(f.months, 1, 12, v)
    ensures forall v :: v in c.dows <==> TermsMean(f.dows, 0, 7, v)
  {
    hide PrintField, Words, FieldSet, Print, TermsMean;
    PrintedWords(f);
    ParsePrintedField(f.minutes, 0, 59);
    ParsePrintedField(f.hours, 0, 23);
    ParsePrintedField(f.doms, 1, 31);
    ParsePrintedField(f.months, 1, 12);
    ParsePrintedField(f.dows, 0, 7);
    c := ParseExpression(Print(f)).value;
  }

  /** ... so it runs exactly at the minutes its terms say. */
  lemma PrintedRunsAsSaid(f: Fields, m: int)
    requires ValidFields(f)
    ensures ParseExpression(Print(f)).Some?
    ensures Due(Cron(Print(f)), m) <==> Says(f, m)
  {
    hide ParseExpression, Print, DateOf, TermsMean;
    var c := PrintedSpec(f);
  }

  /** The same in plain arithmetic: the expression printed from `f` is due at minute `mi` of hour
      `h` of day `d` exactly when its terms say so. */
  lemma PrintedDueIs(f: Fields, d: int, h: int, mi: int)
    requires ValidFields(f) && 0 <= h < 24 && 0 <= mi < 60
    ensures Due(Cron(Print(f)), 1440 * d + 60 * h + mi)
      <==> && TermsMean(f.minutes, 0, 59, mi) && TermsMean(f.hours, 0, 23, h)
           && TermsMean(f.doms, 1, 31, DateOf(d).day) && TermsMean(f.months, 1, 12, DateOf(d).month)
           && (TermsMean(f.dows, 0, 7, (d + 4) % 7) || ((d + 4) % 7 == 0 && TermsMean(f.dows, 0, 7, 7)))
  {
    hide Due, Print, DateOf, TermsMean, DayIndex, HourOf, MinuteOf, Weekday, ParseExpression, ValidField;
    ClockIs(d, h, mi, 0);
    PrintedRunsAsSaid(f, 1440 * d + 60 * h + mi);
  }

  /** What a list of terms means: one of them is the number, or a range or star that reaches it
      in whole steps. */
  lemma TermsMeanIs(ts: seq<Term>, lo: int, hi: int, v: int)
    ensures TermsMean(ts, lo, hi, v)
      <==> (exists t <- ts ::
              match t
              case Single(n) => v == n
              case Range(from, to, step) => step >= 1 && v <= to && exists k: nat :: v == from + StepsOf(k, step)
              case Every(step) => step >= 1 && v <= hi && exists k: nat :: v == lo + StepsOf(k, step)
              case All => lo <= v <= hi)
  {
    forall t | t in ts
      ensures (ValidTerm(t) && InProgression(v, Meaning(t, lo, hi)))
        <==> match t
             case Single(n) => v == n
             case Range(from, to, step) => step >= 1 && v <= to && exists k: nat :: v == from + StepsOf(k, step)
             case Every(step) => step >= 1 && v <= hi && exists k: nat :: v == lo + StepsOf(k, step)
             case All => lo <= v <= hi
    {
      hide StepsOf;
      if ValidTerm(t) {
        ProgressionIs(Meaning(t, lo, hi), v);
      }
    }
  }

  lemma OneTerm(t: Term, lo: int, hi: int, v: int)
    requires ValidTerm(t)
    ensures TermsMean([t], lo, hi, v) <==> InProgression(v, Meaning(t, lo, hi))
  {
    assert t in [t];
  }
}
