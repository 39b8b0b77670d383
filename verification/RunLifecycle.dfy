/** The run registry and the actors that change it: admission, the worker stream, engine
    failures and the stall watchdog.  Each synchronous block of the server is one action.
 */
module RunLifecycle {
  import opened Basics
  import opened Wrappers

  datatype Status = Running | Queued429 | Completed | Failed | Continued | Cancelled

  /** Times are milliseconds; the stored ISO strings are assumed to read back unchanged. */
  datatype RunRecord = RunRecord(
    name: string, sessionId: string, status: Status, createdAt: int, lastFrameAt: int, startedAt: int)

  /** What listeners are told. */
  datatype Event = SubworkerStarted(name: string) | SubworkerDone(sessionId: string, status: Status)

  /** The stored runs, the events emitted so far, the upstream label each live worker session
      has been given, and the stored position in the pool of upstreams. */
  datatype State = State(runs: seq<RunRecord>, events: seq<Event>, upstreams: map<string, string>, poolIndex: nat)

  datatype Limits = Limits(cap: nat, stallS: nat, maxRunS: nat)

  datatype Action =
    | Admit(name: string, sessionId: string, now: int)
    | Touch(sessionId: string, now: int)
    | Finish(sessionId: string, ok: bool, now: int)
    | EngineError(sessionId: string, now: int)
    | Sweep(now: int)
    | Seed(sessionId: string, pool: seq<string>, indexWritable: bool, confWritable: bool, now: int)

  predicate Active(s: Status) {
    s == Running || s == Continued
  }

  predicate Terminal(s: Status) {
    s == Completed || s == Failed
  }

  // ---------------------------------------------------------------- the stored list

  function Get(runs: seq<RunRecord>, sessionId: string): Option<RunRecord> {
    if runs == [] then None
    else if runs[0].sessionId == sessionId then Some(runs[0])
    else Get(runs[1..], sessionId)
  }

  function Upsert(runs: seq<RunRecord>, record: RunRecord): seq<RunRecord> {
    if runs == [] then [record]
    else if runs[0].sessionId == record.sessionId then [record] + runs[1..]
    else [runs[0]] + Upsert(runs[1..], record)
  }

  function ActiveCount(runs: seq<RunRecord>): nat {
    if runs == [] then 0 else (if Active(runs[0].status) then 1 else 0) + ActiveCount(runs[1..])
  }

  /** How many records carry a session id. */
  function Copies(runs: seq<RunRecord>, sessionId: string): nat {
    if runs == [] then 0 else (if runs[0].sessionId == sessionId then 1 else 0) + Copies(runs[1..], sessionId)
  }

  function Weight(r: Option<RunRecord>): nat {
    if r.Some? && Active(r.value.status) then 1 else 0
  }

  lemma {:induction false} UpsertIs(runs: seq<RunRecord>, record: RunRecord, sessionId: string)
    ensures Get(Upsert(runs, record), sessionId)
         == if sessionId == record.sessionId then Some(record) else Get(runs, sessionId)
    ensures Copies(Upsert(runs, record), sessionId)
         == if sessionId == record.sessionId && Get(runs, sessionId).None? then 1 else Copies(runs, sessionId)
    ensures Get(runs, sessionId).None? <==> Copies(runs, sessionId) == 0
    ensures Get(runs, sessionId).Some? ==> Get(runs, sessionId).value.sessionId == sessionId
  {
    if runs != [] {
      UpsertIs(runs[1..], record, sessionId);
      var u := Upsert(runs, record);
      assert u[1..] == if runs[0].sessionId == record.sessionId then runs[1..] else Upsert(runs[1..], record);
    }
  }

  lemma {:induction false} UpsertCount(runs: seq<RunRecord>, record: RunRecord)
    ensures ActiveCount(Upsert(runs, record)) + Weight(Get(runs, record.sessionId))
         == ActiveCount(runs) + Weight(Some(record))
  {
    if runs != [] {
      UpsertCount(runs[1..], record);
      var u := Upsert(runs, record);
      assert u[1..] == if runs[0].sessionId == record.sessionId then runs[1..] else Upsert(runs[1..], record);
    }
  }

  // ---------------------------------------------------------------- the actions

  function Emit(st: State, e: Event): State {
    st.(events := st.events + [e])
  }

  function Write(st: State, record: RunRecord): State {
    st.(runs := Upsert(st.runs, record))
  }

  /** The end of a run, as `finish`, the engine error handler and the watchdog record it. */
  function Settle(st: State, run: RunRecord, status: Status, now: int): State {
    Emit(Write(st, run.(status := status, lastFrameAt := now)), SubworkerDone(run.sessionId, status))
  }

  function SettleIfActive(st: State, sessionId: string, status: Status, now: int): State {
    match Get(st.runs, sessionId)
    case None => st
    case Some(run) => if Active(run.status) then Settle(st, run, status, now) else st
  }

  predicate Expired(l: Limits, run: RunRecord, now: int) {
    now - run.lastFrameAt >= 1000 * l.stallS || now - run.startedAt >= 1000 * l.maxRunS
  }

  /** The loop body of `checkOnce` for one record of the snapshot. */
  function ExpireRun(l: Limits, st: State, run: RunRecord, now: int): State {
    if Active(run.status) && Expired(l, run, now) then Settle(st, run, Failed, now) else st
  }

  function ExpireAll(l: Limits, st: State, snapshot: seq<RunRecord>, now: int): State
    decreases |snapshot|
  {
    if snapshot == [] then st else ExpireAll(l, ExpireRun(l, st, snapshot[0], now), snapshot[1..], now)
  }

  /** Entry `i` of the circular walk over the pool that starts at `idx`. */
  function PoolAt(pool: seq<string>, idx: nat, i: nat): string
    requires pool != []
  {
    pool[(idx + i) % |pool|]
  }

  /** The first step, from step `i` of the walk on, whose label no session uses. */
  function FreeStep(used: set<string>, pool: seq<string>, idx: nat, i: nat): (r: Option<nat>)
    requires i <= |pool|
    ensures r.Some? ==> r.value < |pool|
    decreases |pool| - i
  {
    if i == |pool| then None
    else if PoolAt(pool, idx, i) !in used then Some(i)
    else FreeStep(used, pool, idx, i + 1)
  }

  function FreeLabel(used: set<string>, pool: seq<string>, idx: nat): Option<string> {
    match FreeStep(used, pool, idx, 0)
    case None => None
    case Some(i) => if pool == [] then None else Some(PoolAt(pool, idx, i))
  }

  function Release(st: State, sessionId: string): State {
    st.(upstreams := st.upstreams - {sessionId})
  }

  function Step(l: Limits, st: State, a: Action): State {
    match a
    case Admit(name, sessionId, now) =>
      if ActiveCount(st.runs) >= l.cap
      then Write(st, RunRecord(name, sessionId, Queued429, now, now, now))
      else Emit(Write(st, RunRecord(name, sessionId, Running, now, now, now)), SubworkerStarted(name))
    case Touch(sessionId, now) =>
      (match Get(st.runs, sessionId)
       case None => st
       case Some(run) => Write(st, run.(lastFrameAt := now)))
    case Finish(sessionId, ok, now) =>
      SettleIfActive(Release(st, sessionId), sessionId, if ok then Completed else Failed, now)
    case EngineError(sessionId, now) =>
      SettleIfActive(st, sessionId, Failed, now)
    case Sweep(now) => ExpireAll(l, st, st.runs, now)
    case Seed(sessionId, pool, indexWritable, confWritable, _) =>
      (match FreeStep(st.upstreams.Values, pool, st.poolIndex, 0)
       case None => st
       case Some(i) =>
         if !indexWritable then st
         else
           st.(poolIndex := (st.poolIndex + i + 1) % |pool|,
               upstreams := if confWritable then st.upstreams[sessionId := PoolAt(pool, st.poolIndex, i)] else st.upstreams))
  }

  /** Session ids are fresh when a run is admitted. */
  predicate Possible(st: State, a: Action) {
    a.Admit? ==> Get(st.runs, a.sessionId).None?
  }

  const Empty := State([], [], map[], 0)

  /** The state after a run of the server, from an empty registry. */
  function Run(l: Limits, history: seq<Action>): State {
    if history == [] then Empty
    else Step(l, Run(l, history[..|history| - 1]), history[|history| - 1])
  }

  ghost predicate PossibleRun(l: Limits, history: seq<Action>) {
    history == [] ||
    var before := history[..|history| - 1];
    PossibleRun(l, before) && Possible(Run(l, before), history[|history| - 1])
  }

  // ---------------------------------------------------------------- the invariant

  function DoneCount(events: seq<Event>, sessionId: string): nat {
    if events == [] then 0
    else
      var e := events[|events| - 1];
      DoneCount(events[..|events| - 1], sessionId) + if e.SubworkerDone? && e.sessionId == sessionId then 1 else 0
  }

  lemma DoneCountSnoc(events: seq<Event>, e: Event, sessionId: string)
    ensures DoneCount(events + [e], sessionId)
         == DoneCount(events, sessionId) + if e.SubworkerDone? && e.sessionId == sessionId then 1 else 0
  {
    assert (events + [e])[..|events|] == events;
  }

  /** The bookkeeping of one session: at most one record, and one completion event, bearing the
      status of the record, exactly when the record is terminal. */
  ghost predicate SessionOk(st: State, sessionId: string) {
    var run := Get(st.runs, sessionId);
    && Copies(st.runs, sessionId) <= 1
    && (run.Some? ==> run.value.status in {Running, Queued429, Completed, Failed})
    && DoneCount(st.events, sessionId) == (if run.Some? && Terminal(run.value.status) then 1 else 0)
    && (run.Some? && Terminal(run.value.status) ==> SubworkerDone(sessionId, run.value.status) in st.events)
  }

  ghost predicate Injective(m: map<string, string>) {
    forall a, b | a in m && b in m && m[a] == m[b] :: a == b
  }

  ghost predicate Invariant(l: Limits, st: State) {
    && ActiveCount(st.runs) <= l.cap
    && (forall sessionId :: SessionOk(st, sessionId))
    && Injective(st.upstreams)
  }

  lemma SettleKeeps(l: Limits, st: State, run: RunRecord, status: Status, now: int)
    requires Invariant(l, st) && Get(st.runs, run.sessionId).Some? && Terminal(status)
    requires Active(Get(st.runs, run.sessionId).value.status)
    ensures Invariant(l, Settle(st, run, status, now))
  {
    var settled := run.(status := status, lastFrameAt := now);
    UpsertCount(st.runs, settled);
    forall sessionId ensures SessionOk(Settle(st, run, status, now), sessionId) {
      assert SessionOk(st, sessionId);
      UpsertIs(st.runs, settled, sessionId);
      DoneCountSnoc(st.events, SubworkerDone(run.sessionId, status), sessionId);
    }
  }

  lemma WriteKeeps(l: Limits, st: State, record: RunRecord)
    requires Invariant(l, st)
    requires var known := Get(st.runs, record.sessionId);
      if known.Some? then record.status == known.value.status
      else record.status == Queued429 || (record.status == Running && ActiveCount(st.runs) < l.cap)
    ensures Invariant(l, Write(st, record))
  {
    UpsertCount(st.runs, record);
    forall sessionId ensures SessionOk(Write(st, record), sessionId) {
      assert SessionOk(st, sessionId);
      UpsertIs(st.runs, record, sessionId);
    }
  }

  lemma StartedKeeps(l: Limits, st: State, name: string)
    requires Invariant(l, st)
    ensures Invariant(l, Emit(st, SubworkerStarted(name)))
  {
    forall sessionId ensures SessionOk(Emit(st, SubworkerStarted(name)), sessionId) {
      assert SessionOk(st, sessionId);
      DoneCountSnoc(st.events, SubworkerStarted(name), sessionId);
    }
  }

  /** The records of the snapshot that a sweep has not reached yet are still current. */
  ghost predicate Current(st: State, snapshot: seq<RunRecord>) {
    && (forall i | 0 <= i < |snapshot| :: Get(st.runs, snapshot[i].sessionId) == Some(snapshot[i]))
    && (forall i, j | 0 <= i < j < |snapshot| :: snapshot[i].sessionId != snapshot[j].sessionId)
  }

  lemma ExpireRunKeeps(l: Limits, st: State, snapshot: seq<RunRecord>, now: int)
    requires Invariant(l, st) && Current(st, snapshot) && snapshot != []
    ensures var st' := ExpireRun(l, st, snapshot[0], now);
      Invariant(l, st') && Current(st', snapshot[1..])
  {
    var run := snapshot[0];
    var settled := run.(status := Failed, lastFrameAt := now);
    if Active(run.status) && Expired(l, run, now) {
      SettleKeeps(l, st, run, Failed, now);
    }
    forall i | 0 <= i < |snapshot[1..]|
      ensures Get(ExpireRun(l, st, run, now).runs, snapshot[1..][i].sessionId) == Some(snapshot[1..][i])
    {
      UpsertIs(st.runs, settled, snapshot[i + 1].sessionId);
    }
  }

  lemma {:induction false} ExpireAllKeeps(l: Limits, st: State, snapshot: seq<RunRecord>, now: int)
    requires Invariant(l, st) && Current(st, snapshot)
    ensures Invariant(l, ExpireAll(l, st, snapshot, now))
    decreases |snapshot|
  {
    if snapshot != [] {
      ExpireRunKeeps(l, st, snapshot, now);
      ExpireAllKeeps(l, ExpireRun(l, st, snapshot[0], now), snapshot[1..], now);
    }
  }

  lemma {:induction false} OwnRecordsCurrent(runs: seq<RunRecord>, i: nat)
    requires i < |runs| && Copies(runs, runs[i].sessionId) <= 1
    ensures Get(runs, runs[i].sessionId) == Some(runs[i])
    ensures forall j | 0 <= j < |runs| && j != i :: runs[j].sessionId != runs[i].sessionId
  {
    if i > 0 {
      if runs[0].sessionId == runs[i].sessionId {
        CopiesPositive(runs[1..], i - 1);
      }
      OwnRecordsCurrent(runs[1..], i - 1);
      assert forall j | 1 <= j < |runs| :: runs[j] == runs[1..][j - 1];
    } else {
      forall j | 0 < j < |runs| ensures runs[j].sessionId != runs[0].sessionId {
        if runs[j].sessionId == runs[0].sessionId {
          CopiesPositive(runs[1..], j - 1);
        }
      }
    }
  }

  lemma {:induction false} CopiesPositive(runs: seq<RunRecord>, i: nat)
    requires i < |runs|
    ensures Copies(runs, runs[i].sessionId) >= 1
  {
    if i > 0 {
      CopiesPositive(runs[1..], i - 1);
    }
  }

  lemma SnapshotCurrent(l: Limits, st: State)
    requires Invariant(l, st)
    ensures Current(st, st.runs)
  {
    forall i | 0 <= i < |st.runs|
      ensures Get(st.runs, st.runs[i].sessionId) == Some(st.runs[i])
      ensures forall j | 0 <= j < |st.runs| && j != i :: st.runs[j].sessionId != st.runs[i].sessionId
    {
      assert SessionOk(st, st.runs[i].sessionId);
      OwnRecordsCurrent(st.runs, i);
    }
  }

  lemma {:induction false} FreeStepIs(used: set<string>, pool: seq<string>, idx: nat, i: nat)
    requires i <= |pool|
    ensures match FreeStep(used, pool, idx, i)
      case Some(k) =>
        i <= k < |pool| && PoolAt(pool, idx, k) !in used && forall j: nat | i <= j < k :: PoolAt(pool, idx, j) in used
      case None => forall k: nat | i <= k < |pool| :: PoolAt(pool, idx, k) in used
    decreases |pool| - i
  {
    if i < |pool| {
      FreeStepIs(used, pool, idx, i + 1);
    }
  }

  /** The circular walk meets every entry of the pool. */
  lemma WalkMeets(pool: seq<string>, idx: nat, p: nat) returns (i: nat)
    requires p < |pool|
    ensures i < |pool| && PoolAt(pool, idx, i) == pool[p]
  {
    var n := |pool|;
    var r := idx % n;
    i := if r <= p then p - r else p + n - r;
    var q := idx / n;
    assert (q + 1) * n == q * n + n;
    UniqueRemainder(idx + i, n, if r <= p then q else q + 1, p);
  }

  /** Seeding finds a label exactly when the pool holds one that no live session uses; it
      always does while fewer labels are in use than the pool holds. */
  lemma SeedingSucceedsExactly(used: set<string>, pool: seq<string>, idx: nat)
    ensures FreeLabel(used, pool, idx).Some? <==> exists x <- pool :: x !in used
    ensures FreeLabel(used, pool, idx).Some? ==>
      FreeLabel(used, pool, idx).value in pool && FreeLabel(used, pool, idx).value !in used
    ensures |used| < |(set x <- pool)| ==> FreeLabel(used, pool, idx).Some?
  {
    FreeStepIs(used, pool, idx, 0);
    if FreeLabel(used, pool, idx).None? {
      forall x | x in pool ensures x in used {
        var p :| 0 <= p < |pool| && pool[p] == x;
        var i := WalkMeets(pool, idx, p);
      }
      SubsetSize((set x <- pool), used);
    }
  }

  lemma StepKeeps(l: Limits, st: State, a: Action)
    requires Invariant(l, st) && Possible(st, a)
    ensures Invariant(l, Step(l, st, a))
  {
    match a
    case Admit(name, sessionId, now) =>
      assert SessionOk(st, sessionId);
      if ActiveCount(st.runs) >= l.cap {
        WriteKeeps(l, st, RunRecord(name, sessionId, Queued429, now, now, now));
      } else {
        var record := RunRecord(name, sessionId, Running, now, now, now);
        WriteKeeps(l, st, record);
        StartedKeeps(l, Write(st, record), name);
      }
    case Touch(sessionId, now) =>
      UpsertIs(st.runs, RunRecord("", "", Failed, 0, 0, 0), sessionId);
      if Get(st.runs, sessionId).Some? {
        WriteKeeps(l, st, Get(st.runs, sessionId).value.(lastFrameAt := now));
      }
    case Finish(sessionId, ok, now) =>
      ReleaseKeeps(l, st, sessionId);
      SettleIfActiveKeeps(l, Release(st, sessionId), sessionId, if ok then Completed else Failed, now);
    case EngineError(sessionId, now) =>
      SettleIfActiveKeeps(l, st, sessionId, Failed, now);
    case Sweep(now) =>
      SnapshotCurrent(l, st);
      ExpireAllKeeps(l, st, st.runs, now);
    case Seed(_, _, _, _, _) =>
      SeedKeeps(l, st, a);
  }

  lemma SettleIfActiveKeeps(l: Limits, st: State, sessionId: string, status: Status, now: int)
    requires Invariant(l, st) && Terminal(status)
    ensures Invariant(l, SettleIfActive(st, sessionId, status, now))
  {
    UpsertIs(st.runs, RunRecord("", "", Failed, 0, 0, 0), sessionId);
    if Get(st.runs, sessionId).Some? && Active(Get(st.runs, sessionId).value.status) {
      SettleKeeps(l, st, Get(st.runs, sessionId).value, status, now);
    }
  }

  lemma ReleaseKeeps(l: Limits, st: State, sessionId: string)
    requires Invariant(l, st)
    ensures Invariant(l, Release(st, sessionId))
  {
    forall s ensures SessionOk(Release(st, sessionId), s) {
      assert SessionOk(st, s);
    }
  }

  lemma SeedKeeps(l: Limits, st: State, a: Action)
    requires Invariant(l, st) && a.Seed?
    ensures Invariant(l, Step(l, st, a))
  {
    FreeStepIs(st.upstreams.Values, a.pool, st.poolIndex, 0);
    forall s ensures SessionOk(Step(l, st, a), s) {
      assert SessionOk(st, s);
    }
    assert forall s | s in st.upstreams :: st.upstreams[s] in st.upstreams.Values;
  }

  /** The main law: in every reachable state the cap holds, every session has at most one
      record and one completion event exactly when it has ended, queued runs emit none, and no
      two live workers share an upstream. */
  lemma {:induction false} ReachableInvariant(l: Limits, history: seq<Action>)
    requires PossibleRun(l, history)
    ensures Invariant(l, Run(l, history))
  {
    if history != [] {
      var before := history[..|history| - 1];
      ReachableInvariant(l, before);
      StepKeeps(l, Run(l, before), history[|history| - 1]);
    }
  }

  // ---------------------------------------------------------------- what each action does

  /** The record of a session is the first one in the list. */
  lemma {:induction false} GetIs(runs: seq<RunRecord>, sessionId: string) returns (i: nat)
    ensures match Get(runs, sessionId)
      case Some(r) => i < |runs| && runs[i] == r && r.sessionId == sessionId && forall k | 0 <= k < i :: runs[k].sessionId != sessionId
      case None => forall k | 0 <= k < |runs| :: runs[k].sessionId != sessionId
  {
    i := 0;
    if runs != [] && runs[0].sessionId != sessionId {
      i := GetIs(runs[1..], sessionId);
      i := i + 1;
      assert forall k | 1 <= k < |runs| :: runs[k] == runs[1..][k - 1];
    }
  }

  function ActivePlaces(runs: seq<RunRecord>): set<nat> {
    set i: nat | i < |runs| && runs[i].status in {Running, Continued}
  }

  lemma ActivePlacesSnoc(front: seq<RunRecord>, last: RunRecord)
    ensures ActivePlaces(front + [last]) == ActivePlaces(front) + if Active(last.status) then {|front|} else {}
  {
    var all := front + [last];
    forall i: nat ensures i in ActivePlaces(all) <==> i in ActivePlaces(front) || (i == |front| && Active(last.status)) {
      if i < |front| {
        assert all[i] == front[i];
      }
    }
  }

  /** Active runs are those running or continued. */
  lemma {:induction false} ActiveCountIs(runs: seq<RunRecord>)
    ensures ActiveCount(runs) == |ActivePlaces(runs)|
  {
    if runs != [] {
      hide ActiveCount;
      var k: nat := |runs| - 1;
      ActiveCountIs(runs[..k]);
      ActiveCountSnoc(runs, k);
      assert runs[..k + 1] == runs && runs == runs[..k] + [runs[k]];
      ActivePlacesSnoc(runs[..k], runs[k]);
    }
  }

  /** An admission below the cap starts a run and says so; at the cap it is put on record as
      queued, and nobody is told. */
  lemma AdmitIs(l: Limits, st: State, name: string, sessionId: string, now: int)
    requires Get(st.runs, sessionId).None?
    ensures var next := Step(l, st, Admit(name, sessionId, now));
      var full := ActiveCount(st.runs) >= l.cap;
      && next.runs == st.runs + [RunRecord(name, sessionId, if full then Queued429 else Running, now, now, now)]
      && next.events == st.events + (if full then [] else [SubworkerStarted(name)])
      && next.upstreams == st.upstreams && next.poolIndex == st.poolIndex
  {
    var i := GetIs(st.runs, sessionId);
    UpsertAt(st.runs, RunRecord(name, sessionId, Queued429, now, now, now), |st.runs|);
    UpsertAt(st.runs, RunRecord(name, sessionId, Running, now, now, now), |st.runs|);
    Unit(st.events);
  }

  /** A frame moves the time of the last frame of its session and nothing else. */
  lemma FrameIs(l: Limits, st: State, sessionId: string, now: int, other: string)
    ensures var next := Step(l, st, Touch(sessionId, now));
      && (Get(st.runs, sessionId).Some? ==> Get(next.runs, sessionId) == Some(Get(st.runs, sessionId).value.(lastFrameAt := now)))
      && (Get(st.runs, sessionId).None? ==> next == st)
      && (other != sessionId ==> Get(next.runs, other) == Get(st.runs, other))
      && next.events == st.events && next.upstreams == st.upstreams && next.poolIndex == st.poolIndex
  {
    if Get(st.runs, sessionId).Some? {
      var record := Get(st.runs, sessionId).value;
      UpsertIs(st.runs, record, sessionId);
      UpsertIs(st.runs, record.(lastFrameAt := now), sessionId);
      UpsertIs(st.runs, record.(lastFrameAt := now), other);
    }
  }

  /** The end of a run, by its worker or by the error handler of the engine: an active run gets
      the final status and is announced with it, any other is left alone; the worker's end also
      frees the upstream. */
  lemma EndIs(l: Limits, st: State, sessionId: string, byWorker: bool, ok: bool, now: int, other: string)
    ensures var was := Get(st.runs, sessionId);
      var ends := was.Some? && was.value.status in {Running, Continued};
      var status := if byWorker && ok then Completed else Failed;
      var next := Step(l, st, if byWorker then Finish(sessionId, ok, now) else EngineError(sessionId, now));
      && Get(next.runs, sessionId) == (if ends then Some(was.value.(status := status, lastFrameAt := now)) else was)
      && (other != sessionId ==> Get(next.runs, other) == Get(st.runs, other))
      && next.events == st.events + (if ends then [SubworkerDone(sessionId, status)] else [])
      && next.upstreams == (if byWorker then st.upstreams - {sessionId} else st.upstreams)
      && next.poolIndex == st.poolIndex
  {
    hide SettleIfActive;
    SettleIs(if byWorker then Release(st, sessionId) else st, sessionId, if byWorker && ok then Completed else Failed, now, other);
  }

  lemma SettleIs(st: State, sessionId: string, status: Status, now: int, other: string)
    ensures var was := Get(st.runs, sessionId);
      var ends := was.Some? && was.value.status in {Running, Continued};
      var next := SettleIfActive(st, sessionId, status, now);
      && Get(next.runs, sessionId) == (if ends then Some(was.value.(status := status, lastFrameAt := now)) else was)
      && (other != sessionId ==> Get(next.runs, other) == Get(st.runs, other))
      && next.events == st.events + (if ends then [SubworkerDone(sessionId, status)] else [])
      && next.upstreams == st.upstreams && next.poolIndex == st.poolIndex
  {
    Unit(st.events);
    if Get(st.runs, sessionId).Some? {
      var record := Get(st.runs, sessionId).value;
      UpsertIs(st.runs, record, sessionId);
      UpsertIs(st.runs, record.(status := status, lastFrameAt := now), sessionId);
      UpsertIs(st.runs, record.(status := status, lastFrameAt := now), other);
    }
  }

  /** A sweep fails exactly the active runs that have been silent for the stall limit or have
      reached the maximum age; a run inside both limits survives it. */
  lemma SweepIs(l: Limits, st: State, now: int, sessionId: string)
    requires Invariant(l, st)
    ensures var was := Get(st.runs, sessionId);
      var expires := was.Some? && was.value.status in {Running, Continued}
        && (now - was.value.lastFrameAt >= 1000 * l.stallS || now - was.value.startedAt >= 1000 * l.maxRunS);
      Get(Step(l, st, Sweep(now)).runs, sessionId)
        == if expires then Some(was.value.(status := Failed, lastFrameAt := now)) else was
  {
    SnapshotCurrent(l, st);
    ExpireAllIs(l, st, st.runs, now, sessionId);
  }

  function Announced(ids: seq<string>): seq<Event> {
    seq(|ids|, k requires 0 <= k < |ids| => SubworkerDone(ids[k], Failed))
  }

  /** ... and announces each of them as failed, in the order of the list. */
  lemma {:induction false} SweepAnnounces(l: Limits, st: State, snapshot: seq<RunRecord>, now: int)
    ensures var next := ExpireAll(l, st, snapshot, now);
      && next.events == st.events + Announced(ExpiredIds(l, snapshot, now))
      && next.upstreams == st.upstreams && next.poolIndex == st.poolIndex
    decreases |snapshot|
  {
    if snapshot == [] {
      Unit(st.events);
    } else {
      var run, rest := snapshot[0], ExpiredIds(l, snapshot[1..], now);
      var st' := ExpireRun(l, st, run, now);
      SweepAnnounces(l, st', snapshot[1..], now);
      if Active(run.status) && Expired(l, run, now) {
        assert Announced([run.sessionId] + rest) == [SubworkerDone(run.sessionId, Failed)] + Announced(rest);
        Associative(st.events, [SubworkerDone(run.sessionId, Failed)], Announced(rest));
      } else {
        assert [] + rest == rest;
      }
    }
  }

  lemma {:induction false} ExpiredAre(l: Limits, runs: seq<RunRecord>, now: int, sessionId: string)
    ensures sessionId in ExpiredIds(l, runs, now)
      <==> exists r <- runs ::
             && r.sessionId == sessionId && r.status in {Running, Continued}
             && (now - r.lastFrameAt >= 1000 * l.stallS || now - r.startedAt >= 1000 * l.maxRunS)
  {
    if runs != [] {
      ExpiredAre(l, runs[1..], now, sessionId);
      assert runs == [runs[0]] + runs[1..];
    }
  }

  /** Seeding takes the first label of the circular walk, from the stored position on, that no
      session uses.  The position moves behind it once it can be written; the label is the
      session's once its conf file can be written too. */
  lemma SeedIs(l: Limits, st: State, sessionId: string, pool: seq<string>, indexWritable: bool, confWritable: bool, now: int)
    returns (i: nat)
    ensures var next := Step(l, st, Seed(sessionId, pool, indexWritable, confWritable, now));
      && i <= |pool| && next.runs == st.runs && next.events == st.events
      && (forall j: nat | j < i :: PoolAt(pool, st.poolIndex, j) in st.upstreams.Values)
      && (i == |pool| || !indexWritable ==> next == st)
      && (i < |pool| && indexWritable ==>
            var free := pool[(st.poolIndex + i) % |pool|];
            && free !in st.upstreams.Values && next.poolIndex == (st.poolIndex + i + 1) % |pool|
            && next.upstreams == if confWritable then st.upstreams[sessionId := free] else st.upstreams)
  {
    FreeStepIs(st.upstreams.Values, pool, st.poolIndex, 0);
    i := match FreeStep(st.upstreams.Values, pool, st.poolIndex, 0) case Some(k) => k case None => |pool|;
  }

  function DonePlaces(events: seq<Event>, sessionId: string): set<nat> {
    set i: nat | i < |events| && events[i].SubworkerDone? && events[i].sessionId == sessionId
  }

  lemma DonePlacesSnoc(front: seq<Event>, last: Event, sessionId: string)
    ensures DonePlaces(front + [last], sessionId)
         == DonePlaces(front, sessionId) + if last.SubworkerDone? && last.sessionId == sessionId then {|front|} else {}
  {
    var all := front + [last];
    forall i: nat
      ensures i in DonePlaces(all, sessionId)
        <==> i in DonePlaces(front, sessionId) || (i == |front| && last.SubworkerDone? && last.sessionId == sessionId)
    {
      if i < |front| {
        assert all[i] == front[i];
      }
    }
  }

  lemma {:induction false} DoneCountIs(events: seq<Event>, sessionId: string)
    ensures DoneCount(events, sessionId) == |DonePlaces(events, sessionId)|
  {
    if events != [] {
      var front, last := events[..|events| - 1], events[|events| - 1];
      assert events == front + [last];
      DoneCountIs(front, sessionId);
      DonePlacesSnoc(front, last, sessionId);
    }
  }

  /** What the invariant says of the two lists: at most `cap` runs are active, session ids are
      distinct, and a run that has ended was announced once, with its final status, any other
      not at all. */
  lemma InvariantIs(l: Limits, st: State, i: nat)
    requires Invariant(l, st) && i < |st.runs|
    ensures |ActivePlaces(st.runs)| <= l.cap
    ensures forall j | 0 <= j < |st.runs| && j != i :: st.runs[j].sessionId != st.runs[i].sessionId
    ensures var run, done := st.runs[i], DonePlaces(st.events, st.runs[i].sessionId);
      && run.status in {Running, Queued429, Completed, Failed}
      && (run.status in {Completed, Failed} ==> |done| == 1 && SubworkerDone(run.sessionId, run.status) in st.events)
      && (run.status in {Running, Queued429} ==> done == {})
    ensures forall a, b | a in st.upstreams && b in st.upstreams && st.upstreams[a] == st.upstreams[b] :: a == b
  {
    ActiveCountIs(st.runs);
    var id := st.runs[i].sessionId;
    assert SessionOk(st, id);
    OwnRecordsCurrent(st.runs, i);
    DoneCountIs(st.events, id);
  }

  // ---------------------------------------------------------------- what never changes

  /** No record is lost, start times stay, a run that is not active keeps its status, and a
      run that was let in is not queued later. */
  ghost predicate Evolves(st: State, later: State) {
    forall sessionId :: RecordEvolves(Get(st.runs, sessionId), Get(later.runs, sessionId))
  }

  predicate RecordEvolves(was: Option<RunRecord>, now: Option<RunRecord>) {
    was.Some? ==>
      && now.Some? && now.value.startedAt == was.value.startedAt && now.value.name == was.value.name
      && (!Active(was.value.status) ==> now.value.status == was.value.status)
      && (now.value.status == Queued429 ==> was.value.status == Queued429)
  }

  /** A sweep over a current snapshot, session by session. */
  lemma {:induction false} ExpireAllIs(l: Limits, st: State, snapshot: seq<RunRecord>, now: int, sessionId: string)
    requires Current(st, snapshot)
    ensures Get(ExpireAll(l, st, snapshot, now).runs, sessionId)
         == match Get(snapshot, sessionId)
            case None => Get(st.runs, sessionId)
            case Some(run) =>
              if Active(run.status) && Expired(l, run, now)
              then Some(run.(status := Failed, lastFrameAt := now)) else Some(run)
    decreases |snapshot|
  {
    if snapshot != [] {
      var run, st' := snapshot[0], ExpireRun(l, st, snapshot[0], now);
      var settled := run.(status := Failed, lastFrameAt := now);
      forall i | 0 <= i < |snapshot[1..]|
        ensures Get(st'.runs, snapshot[1..][i].sessionId) == Some(snapshot[1..][i])
      {
        UpsertIs(st.runs, settled, snapshot[i + 1].sessionId);
      }
      UpsertIs(st.runs, settled, sessionId);
      ExpireAllIs(l, st', snapshot[1..], now, sessionId);
      if run.sessionId == sessionId {
        NotLater(snapshot[1..], sessionId);
      }
    }
  }

  lemma {:induction false} NotLater(runs: seq<RunRecord>, sessionId: string)
    requires forall i | 0 <= i < |runs| :: runs[i].sessionId != sessionId
    ensures Get(runs, sessionId).None?
  {
    if runs != [] {
      NotLater(runs[1..], sessionId);
    }
  }

  lemma StepEvolves(l: Limits, st: State, a: Action)
    requires Invariant(l, st) && Possible(st, a)
    ensures Evolves(st, Step(l, st, a))
  {
    forall sessionId
      ensures RecordEvolves(Get(st.runs, sessionId), Get(Step(l, st, a).runs, sessionId))
    {
      UpsertIs(st.runs, RunRecord("", "", Failed, 0, 0, 0), sessionId);
      match a
      case Admit(name, s, now) =>
        UpsertIs(st.runs, RunRecord(name, s, Queued429, now, now, now), sessionId);
        UpsertIs(st.runs, RunRecord(name, s, Running, now, now, now), sessionId);
      case Touch(s, now) =>
        TouchEvolves(st, s, sessionId, now);
      case Finish(s, ok, now) =>
        SettleEvolves(st, s, sessionId, if ok then Completed else Failed, now);
      case EngineError(s, now) =>
        SettleEvolves(st, s, sessionId, Failed, now);
      case Sweep(now) =>
        SnapshotCurrent(l, st);
        ExpireAllIs(l, st, st.runs, now, sessionId);
      case Seed(_, _, _, _, _) =>
    }
  }

  lemma TouchEvolves(st: State, s: string, sessionId: string, now: int)
    ensures Get(st.runs, s).Some? ==>
      RecordEvolves(Get(st.runs, sessionId), Get(Upsert(st.runs, Get(st.runs, s).value.(lastFrameAt := now)), sessionId))
  {
    if Get(st.runs, s).Some? {
      UpsertIs(st.runs, Get(st.runs, s).value.(lastFrameAt := now), sessionId);
      UpsertIs(st.runs, Get(st.runs, s).value, s);
    }
  }

  lemma SettleEvolves(st: State, s: string, sessionId: string, status: Status, now: int)
    requires Terminal(status)
    ensures RecordEvolves(Get(st.runs, sessionId), Get(SettleIfActive(st, s, status, now).runs, sessionId))
  {
    if Get(st.runs, s).Some? {
      var run := Get(st.runs, s).value;
      UpsertIs(st.runs, run.(status := status, lastFrameAt := now), sessionId);
      UpsertIs(st.runs, run, s);
    }
  }

  // ---------------------------------------------------------------- the registry in place

  /** Replacing the first record of the session, or appending, is `Upsert`. */
  lemma {:induction false} UpsertAt(runs: seq<RunRecord>, record: RunRecord, idx: nat)
    requires idx <= |runs| && forall k | 0 <= k < idx :: runs[k].sessionId != record.sessionId
    requires idx < |runs| ==> runs[idx].sessionId == record.sessionId
    ensures Upsert(runs, record) == if idx < |runs| then runs[idx := record] else runs + [record]
    ensures Get(runs, record.sessionId) == if idx < |runs| then Some(runs[idx]) else None
  {
    if idx > 0 {
      assert runs[0].sessionId != record.sessionId;
      UpsertAt(runs[1..], record, idx - 1);
      assert [runs[0]] + runs[1..] == runs;
    }
  }

  lemma {:induction false} ActiveCountSnoc(runs: seq<RunRecord>, k: nat)
    requires k < |runs|
    ensures ActiveCount(runs[..k + 1]) == ActiveCount(runs[..k]) + if Active(runs[k].status) then 1 else 0
  {
    if k > 0 {
      ActiveCountSnoc(runs[1..], k - 1);
      assert runs[..k + 1][1..] == runs[1..][..k] && runs[..k][1..] == runs[1..][..k - 1];
    }
  }

  /** The sessions a sweep reports. */
  function ExpiredIds(l: Limits, runs: seq<RunRecord>, now: int): seq<string> {
    if runs == [] then []
    else (if Active(runs[0].status) && Expired(l, runs[0], now) then [runs[0].sessionId] else [])
         + ExpiredIds(l, runs[1..], now)
  }

  class Server {
    const limits: Limits
    var runs: seq<RunRecord>
    var events: seq<Event>
    var upstreams: map<string, string>
    var poolIndex: nat

    constructor (limits: Limits)
      ensures this.limits == limits && Contents() == Empty
    {
      this.limits := limits;
      runs, events, upstreams, poolIndex := [], [], map[], 0;
    }

    ghost function Contents(): State
      reads this
    {
      State(runs, events, upstreams, poolIndex)
    }

    /** `runs.findIndex(...)`, or the length when there is none. */
    method FindIndex(sessionId: string) returns (idx: nat)
      ensures idx <= |runs| && (idx < |runs| ==> runs[idx].sessionId == sessionId)
      ensures forall k | 0 <= k < idx :: runs[k].sessionId != sessionId
    {
      idx := 0;
      while idx < |runs| && runs[idx].sessionId != sessionId
        invariant idx <= |runs| && forall k | 0 <= k < idx :: runs[k].sessionId != sessionId
      {
        idx := idx + 1;
      }
    }

    /** `upsertRun`. */
    method UpsertRun(record: RunRecord)
      modifies this`runs
      ensures Contents() == Write(old(Contents()), record)
    {
      var idx := FindIndex(record.sessionId);
      UpsertAt(runs, record, idx);
      if idx < |runs| {
        runs := runs[idx := record];
      } else {
        runs := runs + [record];
      }
    }

    /** `getRun`. */
    method GetRun(sessionId: string) returns (r: Option<RunRecord>)
      ensures r == Get(runs, sessionId)
    {
      var idx := FindIndex(sessionId);
      UpsertAt(runs, RunRecord("", sessionId, Failed, 0, 0, 0), idx);
      r := if idx < |runs| then Some(runs[idx]) else None;
    }

    /** `activeRunCount`. */
    method ActiveRunCount() returns (n: nat)
      ensures n == ActiveCount(runs)
    {
      n := 0;
      var k := 0;
      while k < |runs|
        invariant k <= |runs| && n == ActiveCount(runs[..k])
      {
        ActiveCountSnoc(runs, k);
        if Active(runs[k].status) {
          n := n + 1;
        }
        k := k + 1;
      }
      assert runs[..k] == runs;
    }

    /** Tell the listeners. */
    method Announce(e: Event)
      modifies this`events
      ensures Contents() == Emit(old(Contents()), e)
    {
      events := events + [e];
    }

    /** `admitRun`; `known` says whether an entry of that name is configured. */
    method AdmitRun(name: string, known: bool, sessionId: string, now: int) returns (httpStatus: int)
      modifies this
      ensures Contents() == if known then Step(limits, old(Contents()), Admit(name, sessionId, now)) else old(Contents())
      ensures httpStatus == if !known then 404 else if ActiveCount(old(runs)) >= limits.cap then 202 else 200
    {
      if !known {
        return 404;
      }
      var active := ActiveRunCount();
      if active >= limits.cap {
        UpsertRun(RunRecord(name, sessionId, Queued429, now, now, now));
        return 202;
      }
      UpsertRun(RunRecord(name, sessionId, Running, now, now, now));
      Announce(SubworkerStarted(name));
      return 200;
    }

    /** `touchRun`. */
    method TouchRun(sessionId: string, now: int)
      modifies this`runs
      ensures Contents() == Step(limits, old(Contents()), Touch(sessionId, now))
    {
      var run := GetRun(sessionId);
      if run.Some? {
        UpsertRun(run.value.(lastFrameAt := now));
      }
    }

    method SettleRun(sessionId: string, status: Status, now: int)
      modifies this`runs, this`events
      ensures Contents() == SettleIfActive(old(Contents()), sessionId, status, now)
    {
      var run := GetRun(sessionId);
      if run.Some? && Active(run.value.status) {
        UpsertIs(runs, run.value, sessionId);
        UpsertRun(run.value.(status := status, lastFrameAt := now));
        Announce(SubworkerDone(sessionId, status));
      }
    }

    /** `finish` of `spawnWorkerAndWait`. */
    method FinishRun(sessionId: string, ok: bool, now: int)
      modifies this
      ensures Contents() == Step(limits, old(Contents()), Finish(sessionId, ok, now))
    {
      ReleaseWorkerConf(sessionId);
      SettleRun(sessionId, if ok then Completed else Failed, now);
    }

    /** The error handler of `startEngine`. */
    method EngineFailed(sessionId: string, now: int)
      modifies this
      ensures Contents() == Step(limits, old(Contents()), EngineError(sessionId, now))
    {
      SettleRun(sessionId, Failed, now);
    }

    /** `checkOnce`, not interrupted. */
    method CheckOnce(now: int) returns (expired: seq<string>)
      modifies this
      ensures Contents() == Step(limits, old(Contents()), Sweep(now))
      ensures expired == ExpiredIds(limits, old(runs), now)
    {
      expired := [];
      var snapshot := runs;
      var k := 0;
      while k < |snapshot|
        invariant k <= |snapshot|
        invariant ExpireAll(limits, Contents(), snapshot[k..], now) == Step(limits, old(Contents()), Sweep(now))
        invariant expired + ExpiredIds(limits, snapshot[k..], now) == ExpiredIds(limits, snapshot, now)
      {
        var run := snapshot[k];
        if Active(run.status) && Expired(limits, run, now) {
          UpsertRun(run.(status := Failed, lastFrameAt := now));
          Announce(SubworkerDone(run.sessionId, Failed));
          Associative(expired, [run.sessionId], ExpiredIds(limits, snapshot[k + 1..], now));
          expired := expired + [run.sessionId];
        }
        assert snapshot[k..][1..] == snapshot[k + 1..];
        k := k + 1;
      }
    }

    /** `seedWorkerConf`; the two flags say whether the index and the conf file can be
        written. */
    method SeedWorkerConf(sessionId: string, pool: seq<string>, indexWritable: bool, confWritable: bool)
      returns (seeded: bool)
      modifies this
      ensures Contents() == Step(limits, old(Contents()),
                                 Seed(sessionId, pool, indexWritable, confWritable, 0))
      ensures seeded <==> indexWritable && confWritable && exists x <- pool :: x !in old(upstreams).Values
      ensures seeded ==> pool != [] && sessionId in upstreams
      ensures seeded ==> PoolAt(pool, poolIndex, |pool| - 1) == upstreams[sessionId]
    {
      SeedingSucceedsExactly(upstreams.Values, pool, poolIndex);
      var used := upstreams.Values;
      var i := 0;
      while i < |pool|
        invariant i <= |pool| && FreeStep(used, pool, poolIndex, 0) == FreeStep(used, pool, poolIndex, i)
        invariant Contents() == old(Contents()) && poolIndex == old(poolIndex)
      {
        var candidate := PoolAt(pool, poolIndex, i);
        if candidate in used {
          i := i + 1;
          continue;
        }
        if !indexWritable {
          return false;
        }
        NextIndex(pool, poolIndex, i);
        poolIndex := (poolIndex + i + 1) % |pool|;
        if !confWritable {
          return false;
        }
        upstreams := upstreams[sessionId := candidate];
        return true;
      }
      return false;
    }

    /** `releaseWorkerConf`. */
    method ReleaseWorkerConf(sessionId: string)
      modifies this`upstreams
      ensures Contents() == Release(old(Contents()), sessionId)
    {
      upstreams := upstreams - {sessionId};
    }

    /** Whichever actor it is that acts. */
    method Perform(a: Action)
      modifies this
      ensures Contents() == Step(limits, old(Contents()), a)
    {
      match a
      case Admit(name, sessionId, now) =>
        var status := AdmitRun(name, true, sessionId, now);
      case Touch(sessionId, now) =>
        TouchRun(sessionId, now);
      case Finish(sessionId, ok, now) =>
        FinishRun(sessionId, ok, now);
      case EngineError(sessionId, now) =>
        EngineFailed(sessionId, now);
      case Sweep(now) =>
        var expired := CheckOnce(now);
      case Seed(sessionId, pool, indexWritable, confWritable, _) =>
        var seeded := SeedWorkerConf(sessionId, pool, indexWritable, confWritable);
    }
  }

  /** The stored index moves to just behind the label that was taken: it is tried last next
      time. */
  lemma NextIndex(pool: seq<string>, idx: nat, i: nat)
    requires i < |pool|
    ensures PoolAt(pool, (idx + i + 1) % |pool|, |pool| - 1) == PoolAt(pool, idx, i)
  {
    var n := |pool|;
    var x := idx + i + 1;
    var r := x % n;
    var q := x / n;
    if r == 0 {
      UniqueRemainder(idx + i, n, q - 1, n - 1);
      UniqueRemainder(n - 1, n, 0, n - 1);
    } else {
      UniqueRemainder(idx + i, n, q, r - 1);
      UniqueRemainder(r + n - 1, n, 1, r - 1);
    }
  }
}
