/** The watchdog as it really runs: it awaits a notification after every record it expires, so
    other actors, and further sweeps, act while a sweep still holds records of its snapshot.
 */
module InterruptedSweeps {
  import opened Wrappers
  import opened RunLifecycle

  /** A record of some sweep's snapshot that the sweep has not visited yet. */
  datatype Item = Item(run: RunRecord, sweptAt: int)

  datatype Watch = Watch(st: State, pending: seq<Item>)

  datatype Move = Act(action: Action) | Begin(now: int) | Visit(i: nat, stamp: int)

  function Items(snapshot: seq<RunRecord>, now: int): seq<Item> {
    seq(|snapshot|, i requires 0 <= i < |snapshot| => Item(snapshot[i], now))
  }

  predicate Expires(l: Limits, item: Item) {
    Active(item.run.status) && Expired(l, item.run, item.sweptAt)
  }

  /** The loop body of `checkOnce`; the record is written as the snapshot had it. */
  function VisitItem(l: Limits, st: State, item: Item, stamp: int): State {
    if Expires(l, item) then Settle(st, item.run, Failed, stamp) else st
  }

  function Next(l: Limits, w: Watch, m: Move): Watch {
    match m
    case Act(a) => w.(st := Step(l, w.st, a))
    case Begin(now) => w.(pending := w.pending + Items(w.st.runs, now))
    case Visit(i, stamp) =>
      if i < |w.pending|
      then Watch(VisitItem(l, w.st, w.pending[i], stamp), w.pending[..i] + w.pending[i + 1..])
      else w
  }

  predicate Enabled(w: Watch, m: Move) {
    match m
    case Act(a) => Possible(w.st, a) && !a.Sweep?
    case Begin(_) => true
    case Visit(i, _) => i < |w.pending|
  }

  function Watched(l: Limits, ms: seq<Move>): Watch {
    if ms == [] then Watch(Empty, []) else Next(l, Watched(l, ms[..|ms| - 1]), ms[|ms| - 1])
  }

  ghost predicate PossibleMoves(l: Limits, ms: seq<Move>) {
    ms == [] || (PossibleMoves(l, ms[..|ms| - 1]) && Enabled(Watched(l, ms[..|ms| - 1]), ms[|ms| - 1]))
  }

  // ---------------------------------------------------------------- one record

  /** Writing a record of a snapshot back as failed keeps the invariant exactly when the stored
      run is still active. */
  lemma LateSettleExactly(l: Limits, st: State, run: RunRecord, stamp: int)
    requires Invariant(l, st)
    requires Get(st.runs, run.sessionId).Some? && Get(st.runs, run.sessionId).value.status != Queued429
    ensures Invariant(l, Settle(st, run, Failed, stamp)) <==> Active(Get(st.runs, run.sessionId).value.status)
  {
    if Active(Get(st.runs, run.sessionId).value.status) {
      SettleKeeps(l, st, run, Failed, stamp);
    } else {
      assert SessionOk(st, run.sessionId);
      UpsertIs(st.runs, run.(status := Failed, lastFrameAt := stamp), run.sessionId);
      DoneCountSnoc(st.events, SubworkerDone(run.sessionId, Failed), run.sessionId);
      assert !SessionOk(Settle(st, run, Failed, stamp), run.sessionId);
    }
  }

  /** A visit writes the record as the snapshot had it, failed, and announces it, exactly when the
      snapshot has it active and, at the start of the sweep, silent or old enough. */
  lemma VisitIs(l: Limits, w: Watch, i: nat, stamp: int, other: string)
    requires i < |w.pending|
    ensures var run, at := w.pending[i].run, w.pending[i].sweptAt;
      var expires := run.status in {Running, Continued}
        && (at - run.lastFrameAt >= 1000 * l.stallS || at - run.startedAt >= 1000 * l.maxRunS);
      var next := Next(l, w, Visit(i, stamp));
      && Get(next.st.runs, run.sessionId)
         == (if expires then Some(run.(status := Failed, lastFrameAt := stamp)) else Get(w.st.runs, run.sessionId))
      && (other != run.sessionId ==> Get(next.st.runs, other) == Get(w.st.runs, other))
      && next.st.events == w.st.events + (if expires then [SubworkerDone(run.sessionId, Failed)] else [])
      && next.st.upstreams == w.st.upstreams && next.pending == w.pending[..i] + w.pending[i + 1..]
  {
    var run := w.pending[i].run;
    UpsertIs(w.st.runs, run.(status := Failed, lastFrameAt := stamp), run.sessionId);
    UpsertIs(w.st.runs, run.(status := Failed, lastFrameAt := stamp), other);
  }

  /** A snapshot holds every stored record, with the time of the sweep. */
  lemma BeginIs(l: Limits, w: Watch, now: int, k: nat)
    requires k < |w.st.runs|
    ensures var next := Next(l, w, Begin(now));
      && next.st == w.st && next.pending[..|w.pending|] == w.pending && |next.pending| == |w.pending| + |w.st.runs|
      && next.pending[|w.pending| + k] == Item(w.st.runs[k], now)
  {
  }

  /** Every stored run has developed from what the snapshots still say of it. */
  ghost predicate UpToDate(w: Watch) {
    forall item <- w.pending :: RecordEvolves(Some(item.run), Get(w.st.runs, item.run.sessionId))
  }

  /** A sweep reaches a record it finds expired after the run has ended otherwise. */
  predicate Late(l: Limits, w: Watch, m: Move) {
    m.Visit? && m.i < |w.pending| && Expires(l, w.pending[m.i]) &&
    match Get(w.st.runs, w.pending[m.i].run.sessionId)
    case None => false
    case Some(stored) => !Active(stored.status)
  }

  lemma EvolvesOn(a: Option<RunRecord>, b: Option<RunRecord>, c: Option<RunRecord>)
    requires RecordEvolves(a, b) && RecordEvolves(b, c)
    ensures RecordEvolves(a, c)
  {
  }

  lemma UpToDateOn(w: Watch, st: State)
    requires UpToDate(w) && Evolves(w.st, st)
    ensures UpToDate(w.(st := st))
  {
    hide RecordEvolves;
    forall item | item in w.pending ensures RecordEvolves(Some(item.run), Get(st.runs, item.run.sessionId)) {
      EvolvesOn(Some(item.run), Get(w.st.runs, item.run.sessionId), Get(st.runs, item.run.sessionId));
    }
  }

  lemma BeginUpToDate(l: Limits, w: Watch, now: int)
    requires Invariant(l, w.st) && UpToDate(w)
    ensures UpToDate(Next(l, w, Begin(now)))
  {
    SnapshotCurrent(l, w.st);
    var next := Next(l, w, Begin(now));
    forall item | item in next.pending ensures RecordEvolves(Some(item.run), Get(next.st.runs, item.run.sessionId)) {
      if item !in w.pending {
        var i :| 0 <= i < |w.st.runs| && item == Item(w.st.runs[i], now);
      }
    }
  }

  /** A visit that is not late settles an active run, if any. */
  lemma VisitEvolves(l: Limits, w: Watch, i: nat, stamp: int)
    requires UpToDate(w) && i < |w.pending| && !Late(l, w, Visit(i, stamp))
    ensures Evolves(w.st, VisitItem(l, w.st, w.pending[i], stamp))
  {
    var item := w.pending[i];
    var st := VisitItem(l, w.st, item, stamp);
    assert RecordEvolves(Some(item.run), Get(w.st.runs, item.run.sessionId));
    forall sessionId ensures RecordEvolves(Get(w.st.runs, sessionId), Get(st.runs, sessionId)) {
      UpsertIs(w.st.runs, item.run.(status := Failed, lastFrameAt := stamp), sessionId);
    }
  }

  /** Any move but a late visit loses no record, moves no start time and changes no status but
      that of an active run. */
  lemma NextEvolves(l: Limits, w: Watch, m: Move)
    requires Invariant(l, w.st) && UpToDate(w) && Enabled(w, m) && !Late(l, w, m)
    ensures Evolves(w.st, Next(l, w, m).st) && UpToDate(Next(l, w, m))
  {
    match m
    case Act(a) =>
      StepEvolves(l, w.st, a);
      UpToDateOn(w, Step(l, w.st, a));
    case Begin(now) =>
      BeginUpToDate(l, w, now);
      Unchanged(w.st);
    case Visit(i, stamp) =>
      VisitEvolves(l, w, i, stamp);
      UpToDateOn(w, VisitItem(l, w.st, w.pending[i], stamp));
      assert forall item | item in Next(l, w, m).pending :: item in w.pending;
  }

  lemma Unchanged(st: State)
    ensures Evolves(st, st)
  {
  }

  /** One move keeps the invariant exactly when it is not a late visit. */
  lemma NextExactly(l: Limits, w: Watch, m: Move)
    requires Invariant(l, w.st) && UpToDate(w) && Enabled(w, m)
    ensures Invariant(l, Next(l, w, m).st) <==> !Late(l, w, m)
  {
    match m
    case Act(a) =>
      StepKeeps(l, w.st, a);
    case Begin(now) =>
    case Visit(i, stamp) =>
      if Expires(l, w.pending[i]) {
        assert RecordEvolves(Some(w.pending[i].run), Get(w.st.runs, w.pending[i].run.sessionId));
        LateSettleExactly(l, w.st, w.pending[i].run, stamp);
      }
  }

  // ---------------------------------------------------------------- whole runs

  ghost predicate SafeThroughout(l: Limits, ms: seq<Move>) {
    Invariant(l, Watched(l, ms).st) && (ms == [] || SafeThroughout(l, ms[..|ms| - 1]))
  }

  predicate NeverLate(l: Limits, ms: seq<Move>) {
    ms == [] || (NeverLate(l, ms[..|ms| - 1]) && !Late(l, Watched(l, ms[..|ms| - 1]), ms[|ms| - 1]))
  }

  lemma EmptyIsSafe(l: Limits)
    ensures Invariant(l, Empty)
  {
    ReachableInvariant(l, []);
  }

  lemma {:induction false} SafeUpToDate(l: Limits, ms: seq<Move>)
    requires PossibleMoves(l, ms) && NeverLate(l, ms)
    ensures SafeThroughout(l, ms) && UpToDate(Watched(l, ms))
  {
    if ms == [] {
      EmptyIsSafe(l);
    } else {
      hide Invariant, Enabled, Next, UpToDate, Late;
      SafeUpToDate(l, ms[..|ms| - 1]);
      NextExactly(l, Watched(l, ms[..|ms| - 1]), ms[|ms| - 1]);
      NextEvolves(l, Watched(l, ms[..|ms| - 1]), ms[|ms| - 1]);
    }
  }

  /** The main law, for any interleaving of the actors with any number of sweeps: the cap, the
      single record and the single completion event of every session hold all along exactly
      when no sweep visits an expired record of a run that has ended since. */
  lemma {:induction false} SafeExactlyWhenNeverLate(l: Limits, ms: seq<Move>)
    requires PossibleMoves(l, ms)
    ensures SafeThroughout(l, ms) <==> NeverLate(l, ms)
  {
    if NeverLate(l, ms) {
      SafeUpToDate(l, ms);
    } else {
      hide Invariant, Enabled, Next, UpToDate, Late;
      var front := ms[..|ms| - 1];
      SafeExactlyWhenNeverLate(l, front);
      if SafeThroughout(l, front) {
        SafeUpToDate(l, front);
        NextExactly(l, Watched(l, front), ms[|ms| - 1]);
      }
    }
  }

  /** ... and then terminal and queued records keep their status for good. */
  lemma {:induction false} WatchedEvolves(l: Limits, ms: seq<Move>, k: nat)
    requires PossibleMoves(l, ms) && NeverLate(l, ms) && k <= |ms|
    ensures Evolves(Watched(l, ms[..k]).st, Watched(l, ms).st)
  {
    hide Enabled, Next, Late, Invariant, UpToDate;
    if k == |ms| {
      assert ms[..k] == ms;
      Unchanged(Watched(l, ms).st);
    } else {
      var front := ms[..|ms| - 1];
      assert front[..k] == ms[..k];
      WatchedEvolves(l, front, k);
      SafeUpToDate(l, front);
      NextEvolves(l, Watched(l, front), ms[|ms| - 1]);
      EvolvesTogether(Watched(l, ms[..k]).st, Watched(l, front).st, Watched(l, ms).st);
    }
  }

  lemma EvolvesTogether(a: State, b: State, c: State)
    requires Evolves(a, b) && Evolves(b, c)
    ensures Evolves(a, c)
  {
    hide RecordEvolves;
    forall sessionId ensures RecordEvolves(Get(a.runs, sessionId), Get(c.runs, sessionId)) {
      EvolvesOn(Get(a.runs, sessionId), Get(b.runs, sessionId), Get(c.runs, sessionId));
    }
  }

  // ---------------------------------------------------------------- no eternal runs

  function TimeOf(m: Move): int {
    match m
    case Act(a) => a.now
    case Begin(now) => now
    case Visit(_, stamp) => stamp
  }

  predicate Timely(ms: seq<Move>, start: int) {
    ms == [] ||
    var front := ms[..|ms| - 1];
    Timely(front, start) && (if front == [] then start else TimeOf(front[|front| - 1])) <= TimeOf(ms[|ms| - 1])
  }

  predicate Waits(l: Limits, item: Item, sessionId: string, sweep: int) {
    item.sweptAt == sweep && item.run.sessionId == sessionId && Expires(l, item)
  }

  ghost predicate FreshOrWaiting(l: Limits, w: Watch, sessionId: string, sweep: int) {
    var run := Get(w.st.runs, sessionId);
    run.Some? && Active(run.value.status) && Expired(l, run.value, sweep)
    ==> exists item <- w.pending :: Waits(l, item, sessionId, sweep)
  }

  /** What a sweep that began at `sweep` has left to do: each active run that is not fresh is
      still to be visited. */
  ghost predicate Swept(l: Limits, w: Watch, sweep: int) {
    forall sessionId :: FreshOrWaiting(l, w, sessionId, sweep)
  }

  lemma {:induction false} GetIsStored(runs: seq<RunRecord>, sessionId: string)
    ensures Get(runs, sessionId).Some? ==> Get(runs, sessionId).value in runs && Get(runs, sessionId).value.sessionId == sessionId
  {
    if runs != [] {
      GetIsStored(runs[1..], sessionId);
    }
  }

  lemma BeginSwept(l: Limits, w: Watch, sweep: int)
    ensures Swept(l, Next(l, w, Begin(sweep)), sweep)
  {
    var next := Next(l, w, Begin(sweep));
    forall sessionId ensures FreshOrWaiting(l, next, sessionId, sweep) {
      GetIsStored(w.st.runs, sessionId);
      var run := Get(w.st.runs, sessionId);
      if run.Some? && Active(run.value.status) && Expired(l, run.value, sweep) {
        var i :| 0 <= i < |w.st.runs| && w.st.runs[i] == run.value;
        var item := Items(w.st.runs, sweep)[i];
        assert item in next.pending && Waits(l, item, sessionId, sweep);
      }
    }
  }

  lemma BeginKeepsSwept(l: Limits, w: Watch, now: int, sweep: int)
    requires Swept(l, w, sweep)
    ensures Swept(l, Next(l, w, Begin(now)), sweep)
  {
    var next := Next(l, w, Begin(now));
    forall sessionId ensures FreshOrWaiting(l, next, sessionId, sweep) {
      assert FreshOrWaiting(l, w, sessionId, sweep);
      assert forall item | item in w.pending :: item in next.pending;
    }
  }

  lemma VisitKeepsSwept(l: Limits, w: Watch, i: nat, stamp: int, sweep: int)
    requires Swept(l, w, sweep) && i < |w.pending|
    ensures Swept(l, Next(l, w, Visit(i, stamp)), sweep)
  {
    var next, visited := Next(l, w, Visit(i, stamp)), w.pending[i];
    forall sessionId ensures FreshOrWaiting(l, next, sessionId, sweep) {
      assert FreshOrWaiting(l, w, sessionId, sweep);
      UpsertIs(w.st.runs, visited.run.(status := Failed, lastFrameAt := stamp), sessionId);
      assert forall item | item in w.pending && item != visited :: item in next.pending;
    }
  }

  /** An action leaves a run of its session fresh, ended, or as old as it was. */
  lemma ActLeaves(l: Limits, st: State, a: Action, sessionId: string, sweep: int)
    requires Possible(st, a) && !a.Sweep? && sweep <= a.now && l.stallS > 0 && l.maxRunS > 0
    ensures var was, now := Get(st.runs, sessionId), Get(Step(l, st, a).runs, sessionId);
      now.Some? && Active(now.value.status) && Expired(l, now.value, sweep)
      ==> was.Some? && Active(was.value.status) && Expired(l, was.value, sweep)
  {
    UpsertIs(st.runs, RunRecord("", "", Failed, 0, 0, 0), sessionId);
    match a
    case Admit(name, s, now) =>
      UpsertIs(st.runs, RunRecord(name, s, Queued429, now, now, now), sessionId);
      UpsertIs(st.runs, RunRecord(name, s, Running, now, now, now), sessionId);
    case Touch(s, now) =>
      if Get(st.runs, s).Some? {
        UpsertIs(st.runs, Get(st.runs, s).value.(lastFrameAt := now), sessionId);
        UpsertIs(st.runs, Get(st.runs, s).value, s);
      }
    case Finish(s, ok, now) =>
      SettleLeaves(st, s, if ok then Completed else Failed, now, sessionId);
    case EngineError(s, now) =>
      SettleLeaves(st, s, Failed, now, sessionId);
    case Seed(_, _, _, _, _) =>
  }

  lemma SettleLeaves(st: State, s: string, status: Status, now: int, sessionId: string)
    requires Terminal(status)
    ensures var next := Get(SettleIfActive(st, s, status, now).runs, sessionId);
      next == Get(st.runs, sessionId) || (next.Some? && !Active(next.value.status))
  {
    if Get(st.runs, s).Some? {
      UpsertIs(st.runs, Get(st.runs, s).value.(status := status, lastFrameAt := now), sessionId);
    }
  }

  lemma ActKeepsSwept(l: Limits, w: Watch, a: Action, sweep: int)
    requires Swept(l, w, sweep) && Possible(w.st, a) && !a.Sweep? && sweep <= a.now && l.stallS > 0 && l.maxRunS > 0
    ensures Swept(l, Next(l, w, Act(a)), sweep)
  {
    forall sessionId ensures FreshOrWaiting(l, Next(l, w, Act(a)), sessionId, sweep) {
      assert FreshOrWaiting(l, w, sessionId, sweep);
      ActLeaves(l, w.st, a, sessionId, sweep);
    }
  }

  lemma NextKeepsSwept(l: Limits, w: Watch, m: Move, sweep: int)
    requires Enabled(w, m) && l.stallS > 0 && l.maxRunS > 0 && sweep <= TimeOf(m)
    requires m == Begin(sweep) || Swept(l, w, sweep)
    ensures Swept(l, Next(l, w, m), sweep)
  {
    if m == Begin(sweep) {
      BeginSwept(l, w, sweep);
    } else {
      match m
      case Act(a) => ActKeepsSwept(l, w, a, sweep);
      case Begin(now) => BeginKeepsSwept(l, w, now, sweep);
      case Visit(i, stamp) => VisitKeepsSwept(l, w, i, stamp, sweep);
    }
  }

  lemma {:induction false} SweptSince(l: Limits, ms: seq<Move>, start: int, sweep: int)
    requires PossibleMoves(l, ms) && Timely(ms, start) && l.stallS > 0 && l.maxRunS > 0 && Begin(sweep) in ms
    ensures Swept(l, Watched(l, ms), sweep) && sweep <= TimeOf(ms[|ms| - 1])
  {
    hide Swept, Enabled, Next;
    var front, m := ms[..|ms| - 1], ms[|ms| - 1];
    if Begin(sweep) in front {
      SweptSince(l, front, start, sweep);
    } else {
      assert ms == front + [m];
    }
    NextKeepsSwept(l, Watched(l, front), m, sweep);
  }

  /** No run is eternal, however the actors and sweeps interleave: once a sweep that began at
      `sweep` has visited its snapshot, at any time `t` no active run is older than the maximum
      plus the time since `sweep`, however many frames have arrived, and none has been silent
      for longer than the stall limit plus that time. */
  lemma NoEternalRun(l: Limits, ms: seq<Move>, start: int, sweep: int, t: int, sessionId: string)
    requires PossibleMoves(l, ms) && Timely(ms, start) && l.stallS > 0 && l.maxRunS > 0
    requires Begin(sweep) in ms && forall item <- Watched(l, ms).pending :: item.sweptAt != sweep
    requires Get(Watched(l, ms).st.runs, sessionId).Some?
    ensures var run := Get(Watched(l, ms).st.runs, sessionId).value;
      Active(run.status) ==>
        && t - run.startedAt < 1000 * l.maxRunS + (t - sweep)
        && t - run.lastFrameAt < 1000 * l.stallS + (t - sweep)
  {
    SweptSince(l, ms, start, sweep);
    assert FreshOrWaiting(l, Watched(l, ms), sessionId, sweep);
  }

  // ---------------------------------------------------------------- one sweep

  function VisitAll(l: Limits, w: Watch, now: int): Watch
    decreases |w.pending|
  {
    if w.pending == [] then w else VisitAll(l, Next(l, w, Visit(0, now)), now)
  }

  /** A sweep that nothing interrupts is the single step of the registry. */
  lemma {:induction false} UninterruptedIsSweep(l: Limits, st: State, snapshot: seq<RunRecord>, now: int)
    ensures VisitAll(l, Watch(st, Items(snapshot, now)), now) == Watch(ExpireAll(l, st, snapshot, now), [])
    decreases |snapshot|
  {
    if snapshot != [] {
      assert Items(snapshot, now)[1..] == Items(snapshot[1..], now);
      UninterruptedIsSweep(l, ExpireRun(l, st, snapshot[0], now), snapshot[1..], now);
    }
  }

  /** A run that ends between the start of the sweep and its visit is turned into a failed one,
      and its end is announced a second time. */
  lemma LateVisitOverwrites(l: Limits, st: State, run: RunRecord, sweptAt: int, ended: int, stamp: int)
    requires Invariant(l, st) && Get(st.runs, run.sessionId) == Some(run) && Expires(l, Item(run, sweptAt))
    ensures var finished := Step(l, st, Finish(run.sessionId, true, ended));
      var resumed := VisitItem(l, finished, Item(run, sweptAt), stamp);
      && Get(finished.runs, run.sessionId) == Some(run.(status := Completed, lastFrameAt := ended))
      && Get(resumed.runs, run.sessionId) == Some(run.(status := Failed, lastFrameAt := stamp))
      && DoneCount(resumed.events, run.sessionId) == 2
  {
    var id := run.sessionId;
    assert SessionOk(st, id);
    var finished := Step(l, st, Finish(id, true, ended));
    UpsertIs(st.runs, run.(status := Completed, lastFrameAt := ended), id);
    DoneCountSnoc(st.events, SubworkerDone(id, Completed), id);
    UpsertIs(finished.runs, run.(status := Failed, lastFrameAt := stamp), id);
    DoneCountSnoc(finished.events, SubworkerDone(id, Failed), id);
  }

  lemma OneMore(l: Limits, ms: seq<Move>, m: Move)
    ensures Watched(l, ms + [m]) == Next(l, Watched(l, ms), m)
    ensures PossibleMoves(l, ms + [m]) <==> PossibleMoves(l, ms) && Enabled(Watched(l, ms), m)
    ensures NeverLate(l, ms + [m]) <==> NeverLate(l, ms) && !Late(l, Watched(l, ms), m)
  {
    assert (ms + [m])[..|ms|] == ms;
  }

  function Admitted(id: string): RunRecord {
    RunRecord("", id, Running, 0, 0, 0)
  }

  /** Two runs are admitted, a sweep finds both silent and expires the first. */
  function UpToFirstVisit(a: string, b: string, now: int): seq<Move> {
    [] + [Act(Admit("", a, 0))] + [Act(Admit("", b, 0))] + [Begin(now)] + [Visit(0, now)]
  }

  lemma FirstVisit(l: Limits, a: string, b: string, now: int)
    requires a != b && l.cap >= 2 && now >= 1000 * l.stallS
    ensures var w := Watched(l, UpToFirstVisit(a, b, now));
      && PossibleMoves(l, UpToFirstVisit(a, b, now)) && NeverLate(l, UpToFirstVisit(a, b, now))
      && Get(w.st.runs, b) == Some(Admitted(b)) && w.pending == [Item(Admitted(b), now)]
  {
    var ra, rb := Admitted(a), Admitted(b);
    hide Watched, PossibleMoves, NeverLate;
    NoMoves(l);
    OneMore(l, [], Act(Admit("", a, 0)));
    OneMore(l, [] + [Act(Admit("", a, 0))], Act(Admit("", b, 0)));
    OneMore(l, [] + [Act(Admit("", a, 0))] + [Act(Admit("", b, 0))], Begin(now));
    OneMore(l, [] + [Act(Admit("", a, 0))] + [Act(Admit("", b, 0))] + [Begin(now)], Visit(0, now));
    TwoAdmitted(l, a, b);
    assert Items([ra, rb], now) == [Item(ra, now), Item(rb, now)];
    UpsertIs([ra, rb], ra.(status := Failed, lastFrameAt := now), b);
  }

  lemma NoMoves(l: Limits)
    ensures Watched(l, []) == Watch(Empty, []) && PossibleMoves(l, []) && NeverLate(l, [])
  {
  }

  lemma TwoAdmitted(l: Limits, a: string, b: string)
    requires a != b && l.cap >= 2
    ensures Possible(Empty, Admit("", a, 0))
    ensures var st := Step(l, Empty, Admit("", a, 0));
      && Possible(st, Admit("", b, 0)) && Step(l, st, Admit("", b, 0)).runs == [Admitted(a), Admitted(b)]
    ensures Get([Admitted(a), Admitted(b)], a) == Some(Admitted(a)) && Get([Admitted(a), Admitted(b)], b) == Some(Admitted(b))
  {
    var ra, rb := Admitted(a), Admitted(b);
    assert Upsert([], ra) == [ra] && Upsert([ra][1..], rb) == [rb];
    assert [ra, rb][1..] == [rb];
  }

  lemma LateEnding(l: Limits, w: Watch, run: RunRecord, now: int)
    requires Invariant(l, w.st) && Get(w.st.runs, run.sessionId) == Some(run) && Expires(l, Item(run, now))
    requires w.pending == [Item(run, now)]
    ensures var ended := Next(l, w, Act(Finish(run.sessionId, true, now)));
      var last := Next(l, ended, Visit(0, now));
      && Enabled(w, Act(Finish(run.sessionId, true, now))) && Enabled(ended, Visit(0, now))
      && Late(l, ended, Visit(0, now))
      && Get(last.st.runs, run.sessionId) == Some(run.(status := Failed, lastFrameAt := now))
      && DoneCount(last.st.events, run.sessionId) == 2
  {
    hide Invariant, Step, VisitItem;
    LateVisitOverwrites(l, w.st, run, now, now, now);
  }

  /** That does happen: while the sweep reports the first of two silent runs the second
      completes, and then the sweep reaches it. */
  lemma LateVisitHappens(l: Limits, a: string, b: string, now: int)
    requires a != b && l.cap >= 2 && now >= 1000 * l.stallS
    ensures var ms := UpToFirstVisit(a, b, now) + [Act(Finish(b, true, now))] + [Visit(0, now)];
      && PossibleMoves(l, ms) && !NeverLate(l, ms)
      && Get(Watched(l, ms).st.runs, b).Some? && Get(Watched(l, ms).st.runs, b).value.status == Failed
      && DoneCount(Watched(l, ms).st.events, b) == 2
  {
    var before := UpToFirstVisit(a, b, now);
    FirstVisit(l, a, b, now);
    hide Watched, PossibleMoves, NeverLate, UpToFirstVisit, SafeThroughout, Next, Late, Enabled, Invariant;
    OneMore(l, before, Act(Finish(b, true, now)));
    OneMore(l, before + [Act(Finish(b, true, now))], Visit(0, now));
    SafeUpToDate(l, before);
    SafeNow(l, before);
    LateEnding(l, Watched(l, before), Admitted(b), now);
  }

  lemma SafeNow(l: Limits, ms: seq<Move>)
    requires SafeThroughout(l, ms)
    ensures Invariant(l, Watched(l, ms).st)
  {
  }

  /** A frame that arrives after the snapshot does not save a run: the visit fails it although
      it is not silent, exactly when the snapshot found it expired. */
  lemma FrameTooLate(l: Limits, st: State, run: RunRecord, sweptAt: int, framed: int, stamp: int)
    requires Invariant(l, st) && Get(st.runs, run.sessionId) == Some(run) && Active(run.status)
    ensures var touched := Step(l, st, Touch(run.sessionId, framed));
      var visited := VisitItem(l, touched, Item(run, sweptAt), stamp);
      && Get(touched.runs, run.sessionId) == Some(run.(lastFrameAt := framed))
      && Get(visited.runs, run.sessionId).Some?
      && (Get(visited.runs, run.sessionId).value.status == Failed <==> Expired(l, run, sweptAt))
  {
    assert SessionOk(st, run.sessionId);
    var touched := Step(l, st, Touch(run.sessionId, framed));
    UpsertIs(st.runs, run.(lastFrameAt := framed), run.sessionId);
    UpsertIs(touched.runs, run.(status := Failed, lastFrameAt := stamp), run.sessionId);
  }

  // ---------------------------------------------------------------- the watchdog in place

  /** The registry together with the sweeps that are under way. */
  class Watchdog {
    const server: Server
    var pending: seq<Item>

    constructor (server: Server)
      ensures this.server == server && pending == []
    {
      this.server, pending := server, [];
    }

    ghost function State(): Watch
      reads this, server
    {
      Watch(server.Contents(), pending)
    }

    /** `checkOnce` up to its loop: the snapshot. */
    method BeginSweep(now: int)
      modifies this
      ensures State() == Next(server.limits, old(State()), Begin(now))
    {
      pending := pending + Items(server.runs, now);
    }

    /** The loop body of `checkOnce`, up to the notification it awaits. */
    method VisitRecord(i: nat, stamp: int) returns (expired: bool)
      requires i < |pending|
      modifies this, server
      ensures State() == Next(server.limits, old(State()), Visit(i, stamp))
      ensures expired == Expires(server.limits, old(pending[i]))
    {
      var run, sweptAt := pending[i].run, pending[i].sweptAt;
      pending := pending[..i] + pending[i + 1..];
      if !Active(run.status) || !Expired(server.limits, run, sweptAt) {
        return false;
      }
      server.UpsertRun(run.(status := Failed, lastFrameAt := stamp));
      server.Announce(SubworkerDone(run.sessionId, Failed));
      return true;
    }

    /** Whichever actor or sweep it is that moves. */
    method Perform(m: Move)
      modifies this, server
      ensures State() == Next(server.limits, old(State()), m)
    {
      match m
      case Act(a) =>
        server.Perform(a);
      case Begin(now) =>
        BeginSweep(now);
      case Visit(i, stamp) =>
        if i < |pending| {
          var expired := VisitRecord(i, stamp);
        }
    }
  }
}
