/** The scheduler tick: entries that are due in the current minute are triggered, and
    `firedSlots` remembers, per entry name, the slot that was fired last.
 */
module Ticks {
  import opened Basics
  import opened Wrappers
  import opened Clock
  import opened Schedules

  datatype Entry = Entry(name: string, schedule: Schedule)

  /** What one tick finds: the time, the names that are enabled, and the names whose trigger
      throws. */
  datatype Tick = Tick(now: int, enabled: set<string>, throwing: set<string>)

  /** One call of the trigger function. */
  datatype Trigger = Trigger(name: string, slot: int, ok: bool)

  ghost predicate UniqueNames(entries: seq<Entry>) {
    forall i, j | 0 <= i < j < |entries| :: entries[i].name != entries[j].name
  }

  // ---------------------------------------------------------------- specification

  /** One entry at one tick: the slots remembered afterwards and the trigger calls made. */
  function FireEntry(fired: map<string, int>, e: Entry, t: Tick): (map<string, int>, seq<Trigger>) {
    if e.name !in t.enabled then (fired, [])
    else
      match NextRun(e.schedule, t.now - 60_000)
      case None => (fired, [])
      case Some(slot) =>
        if slot > t.now then (fired, [])
        else if e.name in fired && fired[e.name] == slot then (fired, [])
        else if e.name in t.throwing then (fired - {e.name}, [Trigger(e.name, slot, false)])
        else (fired[e.name := slot], [Trigger(e.name, slot, true)])
  }

  function FireAll(fired: map<string, int>, entries: seq<Entry>, t: Tick): (map<string, int>, seq<Trigger>) {
    if entries == [] then (fired, [])
    else
      var (fired1, log1) := FireAll(fired, entries[..|entries| - 1], t);
      var (fired2, log2) := FireEntry(fired1, entries[|entries| - 1], t);
      (fired2, log1 + log2)
  }

  function RunTicks(entries: seq<Entry>, ts: seq<Tick>): (map<string, int>, seq<Trigger>) {
    if ts == [] then (map[], [])
    else
      var (fired, log) := RunTicks(entries, ts[..|ts| - 1]);
      var (fired', more) := FireAll(fired, entries, ts[|ts| - 1]);
      (fired', log + more)
  }

  // ---------------------------------------------------------------- what a tick examines

  /** The 60-second look-back finds a slot that is not in the future exactly when the current
      minute is due, and the slot is then the start of that minute. */
  lemma DueNow(s: Schedule, now: int)
    ensures (NextRun(s, now - 60_000).Some? && NextRun(s, now - 60_000).value <= now) <==> Due(s, MinuteAt(now))
    ensures Due(s, MinuteAt(now)) ==> NextRun(s, now - 60_000) == Some(Instant(MinuteAt(now)))
  {
    hide Due, MinuteAt, Instant, NextRun, Horizon;
    var m := MinuteAt(now);
    MinuteOrder(now - 60_000, now);
    SearchWithinHorizon(s, now - 60_000);
    if Due(s, m) {
      DueHorizon(s, m);
    }
    if NextRun(s, now - 60_000).Some? {
      InstantOrder(MinuteAt(NextRun(s, now - 60_000).value), now);
    }
  }

  lemma DueHorizon(s: Schedule, m: int)
    ensures Due(s, m) ==> Horizon(s) > 0
  {
  }

  /** So an entry is triggered in the minutes in which it is due, unless that minute is the
      slot remembered for its name. */
  lemma FireEntryIs(fired: map<string, int>, e: Entry, t: Tick)
    ensures var slot := Instant(MinuteAt(t.now));
      FireEntry(fired, e, t)
        == if e.name !in t.enabled || !Due(e.schedule, MinuteAt(t.now)) || (e.name in fired && fired[e.name] == slot)
           then (fired, [])
           else if e.name in t.throwing then (fired - {e.name}, [Trigger(e.name, slot, false)])
           else (fired[e.name := slot], [Trigger(e.name, slot, true)])
  {
    DueNow(e.schedule, t.now);
  }

  /** A tick in plain arithmetic: a minute is 60000 milliseconds, and what counts is whether the
      entry is enabled, due in this minute, and has not been triggered for it last. */
  lemma TriggerIs(fired: map<string, int>, e: Entry, t: Tick)
    ensures var minute := t.now / 60_000;
      var fires := e.name in t.enabled && Due(e.schedule, minute) && !(e.name in fired && fired[e.name] == 60_000 * minute);
      var (after, log) := FireEntry(fired, e, t);
      && log == (if fires then [Trigger(e.name, 60_000 * minute, e.name !in t.throwing)] else [])
      && (forall name | name != e.name :: (name in after <==> name in fired) && (name in fired ==> after[name] == fired[name]))
      && (fires ==> (e.name in after <==> e.name !in t.throwing))
      && (fires && e.name !in t.throwing ==> after[e.name] == 60_000 * minute)
      && (!fires ==> after == fired)
  {
    hide FireEntry, Due;
    FireEntryIs(fired, e, t);
    ClockIs(0, 0, 0, t.now);
    ClockIs(t.now / 60_000, 0, 0, 0);
  }

  /** The calls of one tick come in the order of the entries. */
  lemma {:induction false} CallsInOrder(fired: map<string, int>, entries: seq<Entry>, t: Tick, i: nat, j: nat)
    requires i < j < |FireAll(fired, entries, t).1| && UniqueNames(entries)
    ensures var log := FireAll(fired, entries, t).1;
      exists a, b :: 0 <= a < b < |entries| && entries[a].name == log[i].name && entries[b].name == log[j].name
  {
    hide FireEntry;
    var front, last := entries[..|entries| - 1], entries[|entries| - 1];
    var (fired1, log1) := FireAll(fired, front, t);
    var log2 := FireEntry(fired1, last, t).1;
    OwnCalls(fired1, last, t);
    if j < |log1| {
      CallsInOrder(fired, front, t, i, j);
    } else {
      CallsNamed(fired, front, t, i);
      var a :| 0 <= a < |front| && front[a].name == log1[i].name;
      assert entries[a] == front[a] && entries[|front|].name == (log1 + log2)[j].name;
    }
  }

  lemma OwnCalls(fired: map<string, int>, e: Entry, t: Tick)
    ensures |FireEntry(fired, e, t).1| <= 1 && forall x <- FireEntry(fired, e, t).1 :: x.name == e.name
  {
  }

  lemma {:induction false} CallsNamed(fired: map<string, int>, entries: seq<Entry>, t: Tick, i: nat)
    requires i < |FireAll(fired, entries, t).1|
    ensures exists a :: 0 <= a < |entries| && entries[a].name == FireAll(fired, entries, t).1[i].name
  {
    hide FireEntry;
    var front, last := entries[..|entries| - 1], entries[|entries| - 1];
    var (fired1, log1) := FireAll(fired, front, t);
    OwnCalls(fired1, last, t);
    if i < |log1| {
      CallsNamed(fired, front, t, i);
      var a :| 0 <= a < |front| && front[a].name == log1[i].name;
      assert entries[a] == front[a];
    } else {
      assert entries[|front|] == last;
    }
  }

  // ---------------------------------------------------------------- one name at a time

  /** The slots at which triggers for `name` succeeded, in order. */
  function Slots(log: seq<Trigger>, name: string): seq<int> {
    if log == [] then []
    else
      var last := log[|log| - 1];
      Slots(log[..|log| - 1], name) + if last.name == name && last.ok then [last.slot] else []
  }

  lemma {:induction false} SlotsAppend(a: seq<Trigger>, b: seq<Trigger>, name: string)
    ensures Slots(a + b, name) == Slots(a, name) + Slots(b, name)
  {
    if b == [] {
      assert a + b == a;
    } else {
      SlotsAppend(a, b[..|b| - 1], name);
      assert (a + b)[..|a + b| - 1] == a + b[..|b| - 1];
    }
  }

  /** What is remembered for one name. */
  function Memory(fired: map<string, int>, name: string): Option<int> {
    if name in fired then Some(fired[name]) else None
  }

  /** One entry at one tick, seen by its own name only. */
  function FireOne(memory: Option<int>, e: Entry, t: Tick): (Option<int>, seq<int>) {
    var slot := Instant(MinuteAt(t.now));
    if e.name !in t.enabled || !Due(e.schedule, MinuteAt(t.now)) || memory == Some(slot) then (memory, [])
    else if e.name in t.throwing then (None, [])
    else (Some(slot), [slot])
  }

  lemma OtherEntry(fired: map<string, int>, e: Entry, t: Tick, name: string)
    ensures var (fired', log) := FireEntry(fired, e, t);
      if e.name == name
      then (Memory(fired', name), Slots(log, name)) == FireOne(Memory(fired, name), e, t)
      else (Memory(fired', name), Slots(log, name)) == (Memory(fired, name), [])
  {
    FireEntryIs(fired, e, t);
    hide FireEntry, Due;
    var slot := Instant(MinuteAt(t.now));
    SlotsOne(Trigger(e.name, slot, true), name);
    SlotsOne(Trigger(e.name, slot, false), name);
  }

  lemma SlotsOne(x: Trigger, name: string)
    ensures Slots([x], name) == if x.name == name && x.ok then [x.slot] else []
    ensures Slots([], name) == []
  {
    assert [x][..0] == [];
  }

  lemma {:induction false} NotNamed(fired: map<string, int>, entries: seq<Entry>, t: Tick, name: string)
    requires forall e <- entries :: e.name != name
    ensures var (fired', log) := FireAll(fired, entries, t);
      Memory(fired', name) == Memory(fired, name) && Slots(log, name) == []
  {
    if entries != [] {
      var front, last := entries[..|entries| - 1], entries[|entries| - 1];
      assert last in entries && forall e <- front :: e in entries;
      NotNamed(fired, front, t, name);
      var (fired1, log1) := FireAll(fired, front, t);
      OtherEntry(fired1, last, t, name);
      SlotsAppend(log1, FireEntry(fired1, last, t).1, name);
    }
  }

  lemma {:induction false} NamedOnce(fired: map<string, int>, entries: seq<Entry>, t: Tick, i: nat)
    requires UniqueNames(entries) && i < |entries|
    ensures var (fired', log) := FireAll(fired, entries, t);
      var name := entries[i].name;
      (Memory(fired', name), Slots(log, name)) == FireOne(Memory(fired, name), entries[i], t)
  {
    hide FireEntry, FireOne;
    var name := entries[i].name;
    var front, last := entries[..|entries| - 1], entries[|entries| - 1];
    var (fired1, log1) := FireAll(fired, front, t);
    if i == |front| {
      NotNamed(fired, front, t, name);
    } else {
      NamedOnce(fired, front, t, i);
    }
    OtherEntry(fired1, last, t, name);
    SlotsAppend(log1, FireEntry(fired1, last, t).1, name);
    Unit(Slots(log1, name));
    Unit(Slots(FireEntry(fired1, last, t).1, name));
  }

  /** All ticks, seen by one entry only. */
  function RunOne(e: Entry, ts: seq<Tick>): (Option<int>, seq<int>) {
    if ts == [] then (None, [])
    else
      var (memory, slots) := RunOne(e, ts[..|ts| - 1]);
      var (memory', more) := FireOne(memory, e, ts[|ts| - 1]);
      (memory', slots + more)
  }

  lemma {:induction false} RunTicksByName(entries: seq<Entry>, ts: seq<Tick>, i: nat)
    requires UniqueNames(entries) && i < |entries|
    ensures var (fired, log) := RunTicks(entries, ts);
      (Memory(fired, entries[i].name), Slots(log, entries[i].name)) == RunOne(entries[i], ts)
  {
    hide FireAll, FireOne;
    if ts != [] {
      var front, last := ts[..|ts| - 1], ts[|ts| - 1];
      RunTicksByName(entries, front, i);
      var (fired, log) := RunTicks(entries, front);
      NamedOnce(fired, entries, last, i);
      SlotsAppend(log, FireAll(fired, entries, last).1, entries[i].name);
    }
  }

  // ---------------------------------------------------------------- an undisturbed entry

  predicate Undisturbed(name: string, ts: seq<Tick>) {
    forall t <- ts :: name in t.enabled && name !in t.throwing
  }

  /** The minutes of the ticks that find `s` due, tick by tick. */
  function DueTicks(s: Schedule, ts: seq<Tick>): seq<int> {
    if ts == [] then []
    else
      var m := MinuteAt(ts[|ts| - 1].now);
      DueTicks(s, ts[..|ts| - 1]) + if Due(s, m) then [m] else []
  }

  /** A run of equal values counts once. */
  function Destutter(d: seq<int>): seq<int> {
    if d == [] then []
    else
      var r, x := Destutter(d[..|d| - 1]), d[|d| - 1];
      if r != [] && r[|r| - 1] == x then r else r + [x]
  }

  lemma {:induction false} DestutterLast(d: seq<int>)
    ensures Destutter(d) == [] <==> d == []
    ensures d != [] ==> Destutter(d)[|Destutter(d)| - 1] == d[|d| - 1]
  {
  }

  lemma {:induction false} DestutterSnoc(d: seq<int>, x: int)
    ensures Destutter(d + [x]) == if d != [] && d[|d| - 1] == x then Destutter(d) else Destutter(d) + [x]
  {
    DestutterLast(d);
    var e := d + [x];
    assert e[..|e| - 1] == d && e[|e| - 1] == x;
  }

  /** The due minutes met by the ticks, each stay in a minute counting once. */
  function MinutesMet(s: Schedule, ts: seq<Tick>): seq<int> {
    Destutter(DueTicks(s, ts))
  }

  function Instants(minutes: seq<int>): seq<int> {
    seq(|minutes|, i requires 0 <= i < |minutes| => Instant(minutes[i]))
  }

  lemma InstantsSnoc(minutes: seq<int>, m: int)
    ensures Instants(minutes + [m]) == Instants(minutes) + [Instant(m)]
  {
  }

  /** The memory and the slots of an undisturbed entry after ticks that found it due in the
      minutes `d`. */
  function AfterTicksDueAt(d: seq<int>): (Option<int>, seq<int>) {
    (if d == [] then None else Some(Instant(d[|d| - 1])), Instants(Destutter(d)))
  }

  lemma UndisturbedStep(e: Entry, d: seq<int>, t: Tick)
    requires e.name in t.enabled && e.name !in t.throwing
    ensures var (memory, slots) := AfterTicksDueAt(d);
      var (memory', more) := FireOne(memory, e, t);
      var m := MinuteAt(t.now);
      (memory', slots + more) == AfterTicksDueAt(d + if Due(e.schedule, m) then [m] else [])
  {
    hide Due, MinuteAt, Instants;
    var m := MinuteAt(t.now);
    DestutterSnoc(d, m);
    InstantsSnoc(Destutter(d), m);
    Unit(Instants(Destutter(d)));
    Unit(d);
  }

  lemma {:induction false} UndisturbedRun(e: Entry, ts: seq<Tick>)
    requires Undisturbed(e.name, ts)
    ensures RunOne(e, ts) == AfterTicksDueAt(DueTicks(e.schedule, ts))
  {
    hide Due, MinuteAt, FireOne, Instants;
    if ts == [] {
      InstantsNil();
    } else {
      var front, last := ts[..|ts| - 1], ts[|ts| - 1];
      assert last in ts && forall t <- front :: t in ts;
      UndisturbedRun(e, front);
      hide AfterTicksDueAt;
      UndisturbedStep(e, DueTicks(e.schedule, front), last);
    }
  }

  lemma InstantsNil()
    ensures Instants([]) == []
  {
  }

  lemma IncreasingSnoc(s: seq<int>, x: int)
    requires Increasing(s) && forall y <- s :: y < x
    ensures Increasing(s + [x])
  {
    assert forall i | 0 <= i < |s| :: s[i] in s;
  }

  /** The due minutes from `a` to `b`, in order. */
  function DueBetween(s: Schedule, a: int, b: int): seq<int>
    decreases b - a
  {
    if b < a then [] else DueBetween(s, a, b - 1) + if Due(s, b) then [b] else []
  }

  lemma {:induction false} DueBetweenMembers(s: Schedule, a: int, b: int)
    ensures forall m :: m in DueBetween(s, a, b) <==> a <= m <= b && Due(s, m)
    decreases b - a
  {
    hide Due;
    if a <= b {
      DueBetweenMembers(s, a, b - 1);
    }
  }

  /** `DueBetween` lists exactly the due minutes, in increasing order. */
  lemma {:induction false} DueBetweenIs(s: Schedule, a: int, b: int)
    ensures forall m :: m in DueBetween(s, a, b) <==> a <= m <= b && Due(s, m)
    ensures Increasing(DueBetween(s, a, b))
    decreases b - a
  {
    hide Due, Increasing;
    DueBetweenMembers(s, a, b);
    if a <= b {
      DueBetweenIs(s, a, b - 1);
      if Due(s, b) {
        IncreasingSnoc(DueBetween(s, a, b - 1), b);
      }
      Unit(DueBetween(s, a, b - 1));
    } else {
      IncreasingNil();
    }
  }

  lemma IncreasingNil()
    ensures Increasing([])
  {
  }

  predicate Steady(ts: seq<Tick>) {
    forall i | 0 <= i < |ts| - 1 :: ts[i].now <= ts[i + 1].now <= ts[i].now + 60_000
  }

  lemma {:induction false} SteadyMeetsAll(s: Schedule, ts: seq<Tick>)
    requires ts != [] && Steady(ts)
    ensures MinutesMet(s, ts) == DueBetween(s, MinuteAt(ts[0].now), MinuteAt(ts[|ts| - 1].now))
  {
    hide Due, MinuteAt;
    var front, last := ts[..|ts| - 1], ts[|ts| - 1];
    var a, m := MinuteAt(ts[0].now), MinuteAt(last.now);
    var d := DueTicks(s, front);
    DestutterSnoc(d, m);
    Unit(d);
    if front == [] {
      assert DueBetween(s, a, a - 1) == [];
      Unit(DueBetween(s, a, a - 1));
    } else {
      var m' := MinuteAt(front[|front| - 1].now);
      assert ts[|front| - 1] == front[|front| - 1];
      SteadyMeetsAll(s, front);
      SteadyFrom(ts, |front| - 1);
      MinuteOrder(ts[0].now, front[|front| - 1].now);
      MinuteOrder(front[|front| - 1].now, last.now);
      DueBetweenStep(s, a, m', m, d);
    }
  }

  /** The next tick stays in the minute or moves to the next one. */
  lemma DueBetweenStep(s: Schedule, a: int, m': int, m: int, d: seq<int>)
    requires a <= m' <= m <= m' + 1 && Destutter(d) == DueBetween(s, a, m')
    ensures DueBetween(s, a, m)
         == if !Due(s, m) || (d != [] && d[|d| - 1] == m) then Destutter(d) else Destutter(d) + [m]
  {
    hide Due, Increasing, Destutter;
    var met := DueBetween(s, a, m');
    DueBetweenIs(s, a, m');
    DestutterLast(d);
    if d != [] {
      assert met[|met| - 1] in met;
    }
    if m == m' && Due(s, m) {
      LastIsGreatest(met, m);
    }
    Unit(met);
  }

  lemma LastIsGreatest(d: seq<int>, m: int)
    requires m in d && Increasing(d)
    requires forall x <- d :: x <= m
    ensures d[|d| - 1] == m
  {
    var i :| 0 <= i < |d| && d[i] == m;
    assert d[|d| - 1] in d;
  }

  lemma {:induction false} SteadyFrom(ts: seq<Tick>, i: nat)
    requires Steady(ts) && i < |ts|
    ensures ts[0].now <= ts[i].now
  {
    if i > 0 {
      SteadyFrom(ts, i - 1);
      assert ts[i - 1].now <= ts[i - 1 + 1].now;
    }
  }

  /** The main law: with ticks at most a minute apart, an enabled entry whose trigger does not
      throw is fired at exactly the due minutes from the first tick to the last, in order and
      once each, although only the latest slot is remembered. */
  lemma EverySlotFiresOnce(entries: seq<Entry>, ts: seq<Tick>, i: nat)
    requires UniqueNames(entries) && i < |entries| && ts != [] && Steady(ts)
    requires Undisturbed(entries[i].name, ts)
    ensures Slots(RunTicks(entries, ts).1, entries[i].name)
         == Instants(DueBetween(entries[i].schedule, MinuteAt(ts[0].now), MinuteAt(ts[|ts| - 1].now)))
  {
    hide FireAll, Due;
    RunTicksByName(entries, ts, i);
    UndisturbedRun(entries[i], ts);
    SteadyMeetsAll(entries[i].schedule, ts);
  }

  /** The main law in plain arithmetic: with ticks at most a minute apart, an enabled entry whose
      trigger does not throw is triggered exactly for the due minutes from the first tick's to the
      last tick's, once each and in order. */
  lemma EveryDueMinuteFires(entries: seq<Entry>, ts: seq<Tick>, i: nat)
    requires (forall a, b | 0 <= a < b < |entries| :: entries[a].name != entries[b].name) && i < |entries|
    requires ts != [] && forall k: nat | k + 1 < |ts| :: ts[k].now <= ts[k + 1].now <= ts[k].now + 60_000
    requires forall k: nat | k < |ts| :: entries[i].name in ts[k].enabled && entries[i].name !in ts[k].throwing
    ensures var slots := Slots(RunTicks(entries, ts).1, entries[i].name);
      && (forall a, b | 0 <= a < b < |slots| :: slots[a] < slots[b])
      && forall slot :: slot in slots
           <==> && slot % 60_000 == 0 && ts[0].now / 60_000 <= slot / 60_000 <= ts[|ts| - 1].now / 60_000
                && Due(entries[i].schedule, slot / 60_000)
  {
    hide Due, RunTicks, Slots, DueBetween;
    EverySlotFiresOnce(entries, ts, i);
    var a, b := MinuteAt(ts[0].now), MinuteAt(ts[|ts| - 1].now);
    DueBetweenIs(entries[i].schedule, a, b);
    InstantsOf(DueBetween(entries[i].schedule, a, b));
  }

  lemma InstantsOf(minutes: seq<int>)
    ensures forall slot :: slot in Instants(minutes) <==> slot % 60_000 == 0 && slot / 60_000 in minutes
    ensures Increasing(minutes) ==> forall a, b | 0 <= a < b < |minutes| :: Instants(minutes)[a] < Instants(minutes)[b]
  {
    forall slot | slot % 60_000 == 0 && slot / 60_000 in minutes ensures slot in Instants(minutes) {
      var k :| 0 <= k < |minutes| && minutes[k] == slot / 60_000;
      assert Instants(minutes)[k] == slot;
    }
  }

  /** Which slots are on record as successful: those of the calls for that name that did not
      throw, in order. */
  lemma {:induction false} SlotsAre(log: seq<Trigger>, name: string)
    ensures forall slot :: slot in Slots(log, name) <==> Trigger(name, slot, true) in log
  {
    if log != [] {
      SlotsAre(log[..|log| - 1], name);
      assert log == log[..|log| - 1] + [log[|log| - 1]];
    }
  }

  // ---------------------------------------------------------------- throwing triggers

  ghost predicate Forward(ts: seq<Tick>) {
    forall i, j | 0 <= i < j < |ts| :: ts[i].now <= ts[j].now
  }

  lemma {:induction false} ForwardRun(e: Entry, ts: seq<Tick>)
    requires Forward(ts) && ts != []
    ensures var (memory, slots) := RunOne(e, ts);
      var now := Instant(MinuteAt(ts[|ts| - 1].now));
      && Increasing(slots) && (forall x <- slots :: x <= now)
      && (now in slots ==> memory == Some(now))
  {
    hide Due, MinuteAt;
    var front, last := ts[..|ts| - 1], ts[|ts| - 1];
    var now := Instant(MinuteAt(last.now));
    var (memory, slots) := RunOne(e, front);
    if front != [] {
      ForwardRun(e, front);
      MinuteOrder(front[|front| - 1].now, last.now);
    }
    hide Instant;
    ForwardStep(memory, slots, e, last);
  }

  lemma ForwardStep(memory: Option<int>, slots: seq<int>, e: Entry, t: Tick)
    requires Increasing(slots) && forall x <- slots :: x <= Instant(MinuteAt(t.now))
    requires Instant(MinuteAt(t.now)) in slots ==> memory == Some(Instant(MinuteAt(t.now)))
    ensures var (memory', more) := FireOne(memory, e, t);
      var now := Instant(MinuteAt(t.now));
      && Increasing(slots + more) && (forall x <- slots + more :: x <= now)
      && (now in slots + more ==> memory' == Some(now))
  {
    hide Due, MinuteAt, Instant;
    var now := Instant(MinuteAt(t.now));
    Unit(slots);
    if FireOne(memory, e, t).1 != [] {
      assert now !in slots;
      IncreasingSnoc(slots, now);
    }
  }

  /** Whatever is enabled or throws, as long as the clock does not go back no slot of an entry
      is triggered successfully twice. */
  lemma NoSlotSucceedsTwice(entries: seq<Entry>, ts: seq<Tick>, i: nat)
    requires UniqueNames(entries) && i < |entries| && Forward(ts)
    ensures Increasing(Slots(RunTicks(entries, ts).1, entries[i].name))
    ensures NoRepeats(Slots(RunTicks(entries, ts).1, entries[i].name))
  {
    hide FireAll;
    RunTicksByName(entries, ts, i);
    if ts != [] {
      ForwardRun(entries[i], ts);
    }
  }

  // ---------------------------------------------------------------- clocks that go back

  /** A tick at which the entry was enabled and due: the slot, and whether a trigger would
      succeed. */
  datatype Visit = Visit(slot: int, ok: bool)

  function Visits(e: Entry, ts: seq<Tick>): seq<Visit> {
    if ts == [] then []
    else
      var t := ts[|ts| - 1];
      Visits(e, ts[..|ts| - 1])
      + if e.name in t.enabled && Due(e.schedule, MinuteAt(t.now))
        then [Visit(Instant(MinuteAt(t.now)), e.name !in t.throwing)] else []
  }

  function RunVisits(d: seq<Visit>): (Option<int>, seq<int>) {
    if d == [] then (None, [])
    else
      var (memory, slots), v := RunVisits(d[..|d| - 1]), d[|d| - 1];
      if memory == Some(v.slot) then (memory, slots)
      else if v.ok then (Some(v.slot), slots + [v.slot])
      else (None, slots)
  }

  lemma {:induction false} RunByVisits(e: Entry, ts: seq<Tick>)
    ensures RunOne(e, ts) == RunVisits(Visits(e, ts))
  {
    hide Due, MinuteAt, Instant;
    if ts != [] {
      RunByVisits(e, ts[..|ts| - 1]);
      var d, t := Visits(e, ts[..|ts| - 1]), ts[|ts| - 1];
      var v := Visit(Instant(MinuteAt(t.now)), e.name !in t.throwing);
      assert (d + [v])[..|d|] == d;
      Unit(d);
      Unit(RunVisits(d).1);
    }
  }

  /** Of all the visits since the last one in another slot, one could succeed. */
  ghost predicate Settled(d: seq<Visit>, slot: int) {
    exists i :: 0 <= i < |d| && d[i] == Visit(slot, true) && forall j | i < j < |d| :: d[j].slot == slot
  }

  ghost predicate ReturnsBy(d: seq<Visit>, i: int, j: int, k: int) {
    0 <= i < j < k < |d| && d[i] == d[k] && d[k].ok && d[i].slot != d[j].slot
  }

  /** The ticks come back to a slot after having been in another one, and a trigger can succeed
      both times. */
  ghost predicate ComesBack(d: seq<Visit>) {
    exists i, j, k :: ReturnsBy(d, i, j, k)
  }

  lemma SettledSnoc(d: seq<Visit>, v: Visit, slot: int)
    ensures Settled(d + [v], slot) <==> v.slot == slot && (v.ok || Settled(d, slot))
  {
    var e := d + [v];
    assert e[|d|] == v && forall i | 0 <= i < |d| :: e[i] == d[i];
    if v.slot == slot && v.ok {
      assert e[|d|] == Visit(slot, true);
    } else if v.slot == slot && Settled(d, slot) {
      var i :| 0 <= i < |d| && d[i] == Visit(slot, true) && forall j | i < j < |d| :: d[j].slot == slot;
      assert e[i] == Visit(slot, true);
    }
    if Settled(e, slot) {
      var i :| 0 <= i < |e| && e[i] == Visit(slot, true) && forall j | i < j < |e| :: e[j].slot == slot;
      if i < |d| {
        assert d[i] == Visit(slot, true) && forall j | i < j < |d| :: e[j].slot == slot;
      }
    }
  }

  /** One more visit comes back exactly when it could succeed, an earlier one in its slot could
      too, and the slot was left in between. */
  lemma ComesBackSnoc(d: seq<Visit>, v: Visit)
    ensures ComesBack(d + [v]) <==> ComesBack(d) || (v.ok && v in d && !Settled(d, v.slot))
  {
    var e := d + [v];
    assert e[|d|] == v && forall i | 0 <= i < |d| :: e[i] == d[i];
    if ComesBack(d) {
      var i, j, k :| ReturnsBy(d, i, j, k);
      assert ReturnsBy(e, i, j, k);
    } else if v.ok && v in d && !Settled(d, v.slot) {
      var i :| 0 <= i < |d| && d[i] == v;
      var j :| i < j < |d| && d[j].slot != v.slot;
      assert ReturnsBy(e, i, j, |d|);
    }
    if ComesBack(e) {
      var i, j, k :| ReturnsBy(e, i, j, k);
      if k < |d| {
        assert ReturnsBy(d, i, j, k);
      } else if Settled(d, v.slot) {
        var s :| 0 <= s < |d| && d[s] == Visit(v.slot, true) && forall x | s < x < |d| :: d[x].slot == v.slot;
        assert ReturnsBy(d, i, j, s);
      }
    }
  }

  lemma {:induction false} VisitsDecide(d: seq<Visit>)
    ensures var (memory, slots) := RunVisits(d);
      && (forall slot :: memory == Some(slot) <==> Settled(d, slot))
      && (forall slot :: slot in slots <==> Visit(slot, true) in d)
      && (NoRepeats(slots) <==> !ComesBack(d))
  {
    if d != [] {
      hide Settled, ComesBack, NoRepeats;
      var front, v := d[..|d| - 1], d[|d| - 1];
      var slots := RunVisits(front).1;
      VisitsDecide(front);
      assert d == front + [v];
      forall slot ensures Settled(d, slot) <==> v.slot == slot && (v.ok || Settled(front, slot)) {
        SettledSnoc(front, v, slot);
      }
      ComesBackSnoc(front, v);
      NoRepeatsSnoc(slots, v.slot);
    } else {
      assert !ComesBack(d) && NoRepeats<int>([]);
    }
  }

  lemma NoRepeatsSnoc(s: seq<int>, x: int)
    ensures NoRepeats(s + [x]) <==> NoRepeats(s) && x !in s
  {
    var t := s + [x];
    assert forall i | 0 <= i < |s| :: t[i] == s[i];
    if NoRepeats(t) {
      forall i | 0 <= i < |s| ensures s[i] != x {
        assert t[i] != t[|s|];
      }
    }
  }

  /** For any ticks at all, whatever is enabled or throws: no slot of an entry is triggered
      successfully twice exactly when the clock never comes back to a slot it has left, with a
      trigger that succeeds both times. */
  lemma FiresOnceExactly(entries: seq<Entry>, ts: seq<Tick>, i: nat)
    requires UniqueNames(entries) && i < |entries|
    ensures NoRepeats(Slots(RunTicks(entries, ts).1, entries[i].name)) <==> !ComesBack(Visits(entries[i], ts))
  {
    hide FireAll, NoRepeats, ComesBack;
    RunTicksByName(entries, ts, i);
    RunByVisits(entries[i], ts);
    VisitsDecide(Visits(entries[i], ts));
  }

  lemma DueVisit(e: Entry, ts: seq<Tick>, t: Tick)
    requires e.name in t.enabled && e.name !in t.throwing
    ensures Due(e.schedule, MinuteAt(t.now)) ==>
      Visits(e, ts + [t]) == Visits(e, ts) + [Visit(Instant(MinuteAt(t.now)), true)]
  {
    hide Due, MinuteAt, Instant;
    assert (ts + [t])[..|ts|] == ts;
  }

  /** A clock that goes back to an earlier due minute fires its slot twice, whatever the
      schedule. */
  lemma BackwardClockFiresTwice(e: Entry, a: Tick, b: Tick)
    requires e.name in a.enabled && e.name !in a.throwing
    requires e.name in b.enabled && e.name !in b.throwing
    requires MinuteAt(a.now) < MinuteAt(b.now)
    ensures Due(e.schedule, MinuteAt(a.now)) && Due(e.schedule, MinuteAt(b.now)) ==>
      !NoRepeats(Slots(RunTicks([e], [a, b, a]).1, e.name))
  {
    hide MinuteAt, Due, RunTicks, Visits, NoRepeats, Slots;
    if Due(e.schedule, MinuteAt(a.now)) && Due(e.schedule, MinuteAt(b.now)) {
      DueVisit(e, [], a);
      DueVisit(e, [a], b);
      DueVisit(e, [a, b], a);
      NoVisits(e);
      FiresOnceExactly([e], [a, b, a], 0);
      assert [] + [a] == [a] && [a] + [b] == [a, b] && [a, b] + [a] == [a, b, a];
      assert ReturnsBy(Visits(e, [a, b, a]), 0, 1, 2);
    }
  }

  lemma NoVisits(e: Entry)
    ensures Visits(e, []) == []
  {
  }

  // ---------------------------------------------------------------- the tick

  class Scheduler {
    const entries: seq<Entry>
    var firedSlots: map<string, int>
    var log: seq<Trigger>

    constructor (entries: seq<Entry>)
      ensures this.entries == entries && firedSlots == map[] && log == []
    {
      this.entries := entries;
      firedSlots, log := map[], [];
    }

    /** `tick`. */
    method DoTick(t: Tick)
      modifies this
      ensures firedSlots == FireAll(old(firedSlots), entries, t).0
      ensures log == old(log) + FireAll(old(firedSlots), entries, t).1
    {
      hide FireEntry;
      var i := 0;
      while i < |entries|
        invariant 0 <= i <= |entries|
        invariant firedSlots == FireAll(old(firedSlots), entries[..i], t).0
        invariant log == old(log) + FireAll(old(firedSlots), entries[..i], t).1
      {
        ghost var fired, logged := firedSlots, log;
        DoEntry(entries[i], t);
        assert entries[..i + 1][..i] == entries[..i];
        i := i + 1;
      }
      assert entries[..i] == entries;
    }

    /** The body of the loop over the entries. */
    method DoEntry(e: Entry, t: Tick)
      modifies this
      ensures firedSlots == FireEntry(old(firedSlots), e, t).0
      ensures log == old(log) + FireEntry(old(firedSlots), e, t).1
    {
      hide NextRun;
      if e.name !in t.enabled {
        return;
      }
      var next := NextRunAfter(e.schedule, t.now - 60_000);
      if next.None? || next.value > t.now {
        return;
      }
      var slot := next.value;
      if e.name in firedSlots && firedSlots[e.name] == slot {
        return;
      }
      firedSlots := firedSlots[e.name := slot];
      if e.name in t.throwing {
        firedSlots := firedSlots - {e.name};
        log := log + [Trigger(e.name, slot, false)];
      } else {
        log := log + [Trigger(e.name, slot, true)];
      }
    }

    /** A whole run of the scheduler. */
    method DoTicks(ts: seq<Tick>)
      requires firedSlots == map[] && log == []
      modifies this
      ensures (firedSlots, log) == RunTicks(entries, ts)
    {
      var i := 0;
      while i < |ts|
        invariant 0 <= i <= |ts|
        invariant (firedSlots, log) == RunTicks(entries, ts[..i])
      {
        DoTick(ts[i]);
        assert ts[..i + 1][..i] == ts[..i];
        i := i + 1;
      }
      assert ts[..i] == ts;
    }
  }
}
