/** `runGraph` of the build script: a dependency scheduler with a concurrency limit.  The
    child processes are the environment: at every `Promise.race` any non-empty part of the
    running steps may have finished, or one of them may have failed.
 */
module BuildGraph {
  import opened Basics

  datatype BuildNode = BuildNode(id: string, deps: seq<string>)

  function Ids(graph: seq<BuildNode>): set<string> {
    set n <- graph :: n.id
  }

  ghost predicate UniqueIds(graph: seq<BuildNode>) {
    forall i, j | 0 <= i < j < |graph| :: graph[i].id != graph[j].id
  }

  /** `new Map(graph.map(node => [node.id, node]))`: the last node of an id wins. */
  function ById(graph: seq<BuildNode>): (m: map<string, BuildNode>)
    ensures m.Keys == Ids(graph)
  {
    if graph == [] then map[]
    else
      var last := graph[|graph| - 1];
      assert graph == graph[..|graph| - 1] + [last];
      ById(graph[..|graph| - 1])[last.id := last]
  }

  /** Each id is mapped to the last node that carries it. */
  lemma {:induction false} ByIdIsLast(graph: seq<BuildNode>, i: nat)
    requires i < |graph| && forall j | i < j < |graph| :: graph[j].id != graph[i].id
    ensures graph[i].id in ById(graph) && ById(graph)[graph[i].id] == graph[i]
  {
    if i < |graph| - 1 {
      ByIdIsLast(graph[..|graph| - 1], i);
    }
  }

  /** `new Set(graph.map(node => node.id))`, in insertion order. */
  function PendingIds(graph: seq<BuildNode>): (ids: seq<string>)
    ensures forall id :: id in ids <==> id in Ids(graph)
    ensures forall i, j | 0 <= i < j < |ids| :: ids[i] != ids[j]
  {
    if graph == [] then []
    else
      var front, last := graph[..|graph| - 1], graph[|graph| - 1];
      assert graph == front + [last];
      var ids := PendingIds(front);
      if last.id in ids then ids else ids + [last.id]
  }

  /** Ids come in the order in which they first occur in the graph. */
  lemma {:induction false} PendingInOrder(graph: seq<BuildNode>, a: nat, b: nat) returns (i: nat)
    requires a < b < |PendingIds(graph)|
    ensures i < |graph| && graph[i].id == PendingIds(graph)[a]
    ensures forall k | 0 <= k <= i :: graph[k].id != PendingIds(graph)[b]
  {
    var front, last := graph[..|graph| - 1], graph[|graph| - 1];
    var ids := PendingIds(front);
    if b < |ids| {
      i := PendingInOrder(front, a, b);
    } else {
      assert ids[a] in ids;
      i := FirstWithId(front, ids[a]);
      assert forall k | 0 <= k < |front| :: front[k] in front;
    }
  }

  lemma FirstWithId(graph: seq<BuildNode>, id: string) returns (i: nat)
    requires id in Ids(graph)
    ensures i < |graph| && graph[i].id == id
  {
    var n :| n in graph && n.id == id;
    i :| i < |graph| && graph[i] == n;
  }

  function Deps(graph: seq<BuildNode>, id: string): seq<string> {
    if id in ById(graph) then ById(graph)[id].deps else []
  }

  // ---------------------------------------------------------------- what can be built

  predicate Ready(graph: seq<BuildNode>, id: string, done: set<string>) {
    id in ById(graph) && forall d <- ById(graph)[id].deps :: d in done
  }

  /** The nodes all of whose dependencies lie in `s`. */
  function Enabled(graph: seq<BuildNode>, s: set<string>): set<string> {
    set id <- Ids(graph) | Ready(graph, id, s)
  }

  function Layer(graph: seq<BuildNode>, k: nat): set<string> {
    if k == 0 then {} else Enabled(graph, Layer(graph, k - 1))
  }

  /** The least set closed under "all dependencies are in the set". */
  function Buildable(graph: seq<BuildNode>): set<string> {
    Layer(graph, |Ids(graph)|)
  }

  lemma {:induction false} LayersGrow(graph: seq<BuildNode>, k: nat)
    ensures Layer(graph, k) <= Layer(graph, k + 1) <= Ids(graph)
  {
    if k > 0 {
      LayersGrow(graph, k - 1);
    }
  }

  lemma {:induction false} LayerSize(graph: seq<BuildNode>, k: nat)
    ensures |Layer(graph, k)| >= k || Layer(graph, k + 1) == Layer(graph, k)
  {
    if k > 0 {
      LayerSize(graph, k - 1);
      LayersGrow(graph, k - 1);
      if Layer(graph, k) != Layer(graph, k - 1) {
        StrictSubsetSize(Layer(graph, k - 1), Layer(graph, k));
      }
    }
  }

  lemma {:induction false} LayerWithin(graph: seq<BuildNode>, s: set<string>, k: nat)
    requires Enabled(graph, s) <= s
    ensures Layer(graph, k) <= s
  {
    if k > 0 {
      LayerWithin(graph, s, k - 1);
    }
  }

  /** `Buildable` is a fixed point, and lies inside every closed set. */
  lemma BuildableIsLeast(graph: seq<BuildNode>)
    ensures Enabled(graph, Buildable(graph)) == Buildable(graph) <= Ids(graph)
    ensures forall s | Enabled(graph, s) <= s :: Buildable(graph) <= s
  {
    var n := |Ids(graph)|;
    LayerSize(graph, n);
    LayersGrow(graph, n);
    if |Layer(graph, n)| >= n {
      if Layer(graph, n) != Ids(graph) {
        StrictSubsetSize(Layer(graph, n), Ids(graph));
      }
    }
    forall s | Enabled(graph, s) <= s ensures Buildable(graph) <= s {
      LayerWithin(graph, s, n);
    }
  }

  // ---------------------------------------------------------------- cycles

  ghost predicate HasMissingDep(graph: seq<BuildNode>, id: string) {
    id in Ids(graph) && exists d <- Deps(graph, id) :: d !in Ids(graph)
  }

  /** Every node of `p` depends on the next one, and the last one on the first. */
  ghost predicate IsCycle(graph: seq<BuildNode>, p: seq<string>) {
    && p != []
    && (forall i | 0 <= i < |p| :: p[i] in Ids(graph))
    && (forall i | 0 <= i < |p| - 1 :: p[i + 1] in Deps(graph, p[i]))
    && p[0] in Deps(graph, p[|p| - 1])
  }

  ghost predicate ClosedAndAcyclic(graph: seq<BuildNode>) {
    && (forall id :: !HasMissingDep(graph, id))
    && (forall p :: !IsCycle(graph, p))
  }

  lemma {:induction false} CycleNeverLayered(graph: seq<BuildNode>, p: seq<string>, k: nat, i: nat)
    requires IsCycle(graph, p) && i < |p|
    ensures p[i] !in Layer(graph, k)
  {
    if k > 0 {
      CycleNeverLayered(graph, p, k - 1, if i < |p| - 1 then i + 1 else 0);
    }
  }

  /** A dependency that keeps `id` from being buildable. */
  lemma Blocker(graph: seq<BuildNode>, id: string) returns (d: string)
    requires id in Ids(graph) && id !in Buildable(graph)
    ensures d in Deps(graph, id) && d !in Buildable(graph)
  {
    BuildableIsLeast(graph);
    assert id !in Enabled(graph, Buildable(graph));
    d :| d in Deps(graph, id) && d !in Buildable(graph);
  }

  /** From one such dependency to the next, as far as one likes. */
  lemma {:induction false} BlockedWalk(graph: seq<BuildNode>, id: string, n: nat) returns (w: seq<string>)
    requires forall x :: !HasMissingDep(graph, x)
    requires id in Ids(graph) && id !in Buildable(graph)
    ensures |w| == n + 1 && w[0] == id
    ensures forall i | 0 <= i < |w| :: w[i] in Ids(graph) - Buildable(graph)
    ensures forall i | 0 <= i < |w| - 1 :: w[i + 1] in Deps(graph, w[i])
    decreases n
  {
    if n == 0 {
      w := [id];
    } else {
      var d := Blocker(graph, id);
      assert !HasMissingDep(graph, id);
      var rest := BlockedWalk(graph, d, n - 1);
      w := [id] + rest;
      assert forall i | 1 <= i < |w| :: w[i] == rest[i - 1];
    }
  }

  /** Each node of `w` depends on the next one. */
  ghost predicate IsWalk(graph: seq<BuildNode>, w: seq<string>) {
    && (forall k | 0 <= k < |w| :: w[k] in Ids(graph))
    && (forall k: nat, l: nat | l == k + 1 < |w| :: w[l] in Deps(graph, w[k]))
  }

  /** A walk that comes back to a node has gone round a cycle. */
  lemma WalkClosesCycle(graph: seq<BuildNode>, w: seq<string>, i: nat, j: nat)
    requires i < j < |w|
    ensures IsWalk(graph, w) && w[i] == w[j] ==> IsCycle(graph, w[i..j])
  {
    var p := w[i..j];
    if IsWalk(graph, w) && w[i] == w[j] {
      forall k: nat | k < |p| - 1 ensures p[k + 1] in Deps(graph, p[k]) {
        assert p[k] == w[i + k] && p[k + 1] == w[i + k + 1];
      }
      assert w[j - 1 + 1] in Deps(graph, w[j - 1]);
    }
  }

  lemma BlockedCycle(graph: seq<BuildNode>, id: string) returns (p: seq<string>)
    requires forall x :: !HasMissingDep(graph, x)
    requires id in Ids(graph) && id !in Buildable(graph)
    ensures IsCycle(graph, p) && forall x <- p :: x !in Buildable(graph)
  {
    var blocked := Ids(graph) - Buildable(graph);
    var w := BlockedWalk(graph, id, |blocked|);
    var i, j := Pigeonhole(w, blocked);
    WalkClosesCycle(graph, w, i, j);
    p := w[i..j];
    assert forall k | 0 <= k < |p| :: p[k] == w[i + k];
  }

  /** Whatever is not buildable is so for a reason among the unbuildable nodes themselves:
      one of them names a node that does not exist, or some of them form a cycle. */
  lemma UnbuildableHasCause(graph: seq<BuildNode>)
    requires Buildable(graph) != Ids(graph)
    ensures (exists id :: HasMissingDep(graph, id) && id !in Buildable(graph))
         || (exists p :: IsCycle(graph, p) && forall x <- p :: x !in Buildable(graph))
  {
    BuildableIsLeast(graph);
    if id :| HasMissingDep(graph, id) {
      MissingNeverBuildable(graph, id);
    } else {
      var id :| id in Ids(graph) && id !in Buildable(graph);
      var p := BlockedCycle(graph, id);
    }
  }

  lemma MissingNeverBuildable(graph: seq<BuildNode>, id: string)
    requires HasMissingDep(graph, id)
    ensures id !in Buildable(graph)
  {
    BuildableIsLeast(graph);
  }

  /** Everything can be built exactly when every dependency exists and none is circular. */
  lemma AllBuildableExactlyWhenAcyclic(graph: seq<BuildNode>)
    ensures Buildable(graph) == Ids(graph) <==> ClosedAndAcyclic(graph)
  {
    if Buildable(graph) == Ids(graph) {
      forall id ensures !HasMissingDep(graph, id) {
        if HasMissingDep(graph, id) {
          MissingNeverBuildable(graph, id);
        }
      }
      forall p ensures !IsCycle(graph, p) {
        if IsCycle(graph, p) {
          CycleNeverLayered(graph, p, |Ids(graph)|, 0);
        }
      }
    } else {
      UnbuildableHasCause(graph);
    }
  }

  // ---------------------------------------------------------------- traces

  datatype Event = Start(id: string) | Finish(id: string)

  function Started(trace: seq<Event>): set<string> {
    if trace == [] then {}
    else
      var e := trace[|trace| - 1];
      Started(trace[..|trace| - 1]) + if e.Start? then {e.id} else {}
  }

  function Finished(trace: seq<Event>): set<string> {
    if trace == [] then {}
    else
      var e := trace[|trace| - 1];
      Finished(trace[..|trace| - 1]) + if e.Finish? then {e.id} else {}
  }

  ghost predicate LegalEvent(graph: seq<BuildNode>, limit: nat, started: set<string>, finished: set<string>, e: Event) {
    match e
    case Start(id) =>
      id !in started && Ready(graph, id, finished) && |started - finished| < limit
    case Finish(id) =>
      id in started - finished
  }

  /** A schedule: each step is started at most once, after all its dependencies have
      finished and while fewer than `limit` steps are running, and finishes at most once. */
  ghost predicate Schedule(graph: seq<BuildNode>, limit: nat, trace: seq<Event>) {
    trace == [] ||
    var before, e := trace[..|trace| - 1], trace[|trace| - 1];
    Schedule(graph, limit, before) && LegalEvent(graph, limit, Started(before), Finished(before), e)
  }

  /** `trace` is a schedule in which `started` have been started and `finished` finished. */
  ghost predicate History(graph: seq<BuildNode>, limit: nat, trace: seq<Event>, started: set<string>, finished: set<string>) {
    Schedule(graph, limit, trace) && Started(trace) == started && Finished(trace) == finished
  }

  lemma HistoryExtends(graph: seq<BuildNode>, limit: nat, trace: seq<Event>,
                       started: set<string>, finished: set<string>, e: Event)
    requires History(graph, limit, trace, started, finished) && LegalEvent(graph, limit, started, finished, e)
    ensures History(graph, limit, trace + [e], started + (if e.Start? then {e.id} else {}),
                    finished + (if e.Finish? then {e.id} else {}))
  {
    hide LegalEvent;
    assert (trace + [e])[..|trace|] == trace;
  }

  lemma {:induction false} ScheduleAt(graph: seq<BuildNode>, limit: nat, trace: seq<Event>, k: nat)
    requires Schedule(graph, limit, trace) && k < |trace|
    ensures LegalEvent(graph, limit, Started(trace[..k]), Finished(trace[..k]), trace[k])
  {
    var before := trace[..|trace| - 1];
    if k < |before| {
      ScheduleAt(graph, limit, before, k);
      assert before[..k] == trace[..k];
    }
  }

  lemma {:induction false} EventsAre(trace: seq<Event>)
    ensures forall id :: id in Started(trace) <==> Start(id) in trace
    ensures forall id :: id in Finished(trace) <==> Finish(id) in trace
  {
    if trace != [] {
      EventsAre(trace[..|trace| - 1]);
      assert trace == trace[..|trace| - 1] + [trace[|trace| - 1]];
    }
  }

  /** What a schedule means, position by position: a step starts once, and each of its
      dependencies finished earlier. */
  lemma ScheduleOrder(graph: seq<BuildNode>, limit: nat, trace: seq<Event>, k: nat)
    requires Schedule(graph, limit, trace) && k < |trace| && trace[k].Start?
    ensures forall j | 0 <= j < |trace| && j != k :: trace[j] != trace[k]
    ensures trace[k].id in Ids(graph) && forall d <- Deps(graph, trace[k].id) :: Finish(d) in trace[..k]
  {
    ScheduleAt(graph, limit, trace, k);
    EventsAre(trace[..k]);
    forall j | 0 <= j < |trace| && j != k ensures trace[j] != trace[k] {
      if j < k {
        assert trace[j] in trace[..k];
      } else {
        ScheduleAt(graph, limit, trace, j);
        EventsAre(trace[..j]);
        assert trace[k] in trace[..j];
      }
    }
  }

  /** At no moment are more than `limit` steps running. */
  lemma {:induction false} ScheduleWidth(graph: seq<BuildNode>, limit: nat, trace: seq<Event>, k: nat)
    requires Schedule(graph, limit, trace) && k <= |trace|
    ensures |Started(trace[..k]) - Finished(trace[..k])| <= limit
  {
    hide Schedule, Ready;
    if k > 0 {
      ScheduleWidth(graph, limit, trace, k - 1);
      ScheduleAt(graph, limit, trace, k - 1);
      var before, e := trace[..k - 1], trace[k - 1];
      assert trace[..k] == before + [e];
      assert (before + [e])[..k - 1] == before;
      RunningStep(Started(before), Finished(before), e, limit);
    }
  }

  lemma RunningStep(started: set<string>, finished: set<string>, e: Event, limit: nat)
    requires |started - finished| <= limit && (e.Start? ==> |started - finished| < limit)
    ensures |(started + if e.Start? then {e.id} else {}) - (finished + if e.Finish? then {e.id} else {})| <= limit
  {
    var r := started - finished;
    var r' := (started + if e.Start? then {e.id} else {}) - (finished + if e.Finish? then {e.id} else {});
    SubsetSize(r', if e.Start? then r + {e.id} else r);
  }

  // ---------------------------------------------------------------- the scheduler

  datatype Outcome = Completed | Unresolved(pending: seq<string>) | StepFailed(id: string)

  /** `pending` lists, without repetition, the nodes that have not been started. */
  ghost predicate Lists(pending: seq<string>, ids: set<string>) {
    NoRepeats(pending) && forall id :: id in pending <==> id in ids
  }

  /** What every step of the scheduler keeps; `ids` are the nodes of the graph and `buildable`
      the ones that can be built. */
  ghost predicate Consistent(graph: seq<BuildNode>, limit: nat, ids: set<string>, buildable: set<string>,
                             done: set<string>, running: set<string>, pending: seq<string>, trace: seq<Event>)
  {
    && running !! done && |running| <= limit && running + done <= buildable <= ids
    && Lists(pending, ids - running - done)
    && History(graph, limit, trace, running + done, done)
  }

  lemma RemoveAt(ids: seq<string>, i: nat)
    requires NoRepeats(ids) && i < |ids|
    ensures var rest := ids[..i] + ids[i + 1..];
      NoRepeats(rest) && forall x :: x in rest <==> x in ids && x != ids[i]
  {
    var rest := ids[..i] + ids[i + 1..];
    assert forall k | 0 <= k < |rest| :: rest[k] == if k < i then ids[k] else ids[k + 1];
    forall x | x in ids && x != ids[i] ensures x in rest {
      var k :| 0 <= k < |ids| && ids[k] == x;
      assert rest[if k < i then k else k - 1] == x;
    }
  }

  lemma ReadyIsBuildable(graph: seq<BuildNode>, id: string, done: set<string>)
    requires Ready(graph, id, done) && done <= Buildable(graph)
    ensures id in Buildable(graph)
  {
    BuildableIsLeast(graph);
    assert id in Enabled(graph, Buildable(graph));
  }

  lemma StartKeepsConsistent(graph: seq<BuildNode>, limit: nat, ids: set<string>, buildable: set<string>,
                             done: set<string>, running: set<string>, pending: seq<string>, trace: seq<Event>, i: nat)
    requires Consistent(graph, limit, ids, buildable, done, running, pending, trace)
    requires i < |pending| && |running| < limit && pending[i] in buildable && Ready(graph, pending[i], done)
    ensures Consistent(graph, limit, ids, buildable, done, running + {pending[i]}, pending[..i] + pending[i + 1..],
                       trace + [Start(pending[i])])
  {
    hide History, Ready;
    var id := pending[i];
    assert id in pending;
    assert (running + done) - done == running;
    HistoryExtends(graph, limit, trace, running + done, done, Start(id));
    assert (running + done) + {id} == (running + {id}) + done && done + {} == done;
    RemoveAt(pending, i);
  }

  lemma FinishKeepsConsistent(graph: seq<BuildNode>, limit: nat, ids: set<string>, buildable: set<string>,
                              done: set<string>, running: set<string>, pending: seq<string>, trace: seq<Event>,
                              id: string)
    requires Consistent(graph, limit, ids, buildable, done, running, pending, trace) && id in running
    ensures Consistent(graph, limit, ids, buildable, done + {id}, running - {id}, pending, trace + [Finish(id)])
  {
    hide History;
    HistoryExtends(graph, limit, trace, running + done, done, Finish(id));
    assert running + done + {} == (running - {id}) + (done + {id});
    assert ids - running - done == ids - (running - {id}) - (done + {id});
  }

  /** With no step running and none ready to start, what is done is exactly what can be
      built. */
  lemma StuckMeansUnbuildable(graph: seq<BuildNode>, done: set<string>)
    requires done <= Buildable(graph) && forall id <- Ids(graph) - done :: !Ready(graph, id, done)
    ensures done == Buildable(graph)
    ensures |done| < |graph| ==> !(UniqueIds(graph) && ClosedAndAcyclic(graph))
  {
    hide ClosedAndAcyclic, UniqueIds;
    BuildableIsLeast(graph);
    assert Enabled(graph, done) <= done;
    AllBuildableExactlyWhenAcyclic(graph);
    DistinctIds(graph);
  }

  lemma FullMeansComplete(graph: seq<BuildNode>, done: set<string>)
    requires done <= Buildable(graph) && |done| >= |graph|
    ensures done == Ids(graph) && UniqueIds(graph) && ClosedAndAcyclic(graph)
  {
    hide ClosedAndAcyclic, UniqueIds, Buildable;
    BuildableIsLeast(graph);
    AllBuildableExactlyWhenAcyclic(graph);
    DistinctIds(graph);
    if done != Ids(graph) {
      StrictSubsetSize(done, Ids(graph));
    }
  }

  class Runner {
    const graph: seq<BuildNode>
    const limit: nat
    var done: set<string>
    var running: set<string>
    var pending: seq<string>
    ghost var trace: seq<Event>

    ghost predicate Valid()
      reads this
    {
      1 <= limit && Consistent(graph, limit, Ids(graph), Buildable(graph), done, running, pending, trace)
    }

    constructor (graph: seq<BuildNode>, limit: nat)
      requires 1 <= limit
      ensures Valid() && this.graph == graph && this.limit == limit
      ensures done == {} && running == {} && trace == [] && pending == PendingIds(graph)
    {
      this.graph := graph;
      this.limit := limit;
      done, running, trace := {}, {}, [];
      pending := PendingIds(graph);
      BuildableIsLeast(graph);
    }

    lemma CanBuild(i: nat)
      requires Valid() && i < |pending| && Ready(graph, pending[i], done)
      ensures pending[i] in Buildable(graph)
    {
      ReadyIsBuildable(graph, pending[i], done);
    }

    lemma Accounts()
      requires Valid()
      ensures running <= Ids(graph) - done && done <= Buildable(graph) && running <= Buildable(graph)
      ensures forall id :: id in pending <==> id in Ids(graph) - running - done
    {
    }

    /** The `for` loop over `pending`: in order, start every node that is ready, until the limit
        is reached or the list is at an end. */
    method Launch() returns (scanned: nat)
      requires Valid()
      modifies this
      ensures Valid() && done == old(done) && old(trace) <= trace
      ensures scanned <= |old(pending)| && (|running| >= limit || scanned == |old(pending)|)
      ensures running == old(running) + ReadyAmong(graph, old(pending)[..scanned], done)
      ensures pending == Unready(graph, old(pending)[..scanned], done) + old(pending)[scanned..]
      ensures scanned == |old(pending)| ==> forall id <- pending :: !Ready(graph, id, done)
    {
      hide Consistent, Ready, Unready, ReadyAmong, Ids, Buildable;
      ghost var listed := pending;
      var i := 0;
      scanned := 0;
      NothingScanned(graph, listed, done);
      while i < |pending| && |running| < limit
        invariant Valid() && done == old(done) && old(trace) <= trace
        invariant Scan(graph, listed, done, scanned, pending, i)
        invariant running == old(running) + ReadyAmong(graph, listed[..scanned], done)
        decreases |pending| - i
      {
        OneMoreScanned(graph, listed, done, scanned, pending, i);
        if Ready(graph, pending[i], done) {
          CanBuild(i);
          StartKeepsConsistent(graph, limit, Ids(graph), Buildable(graph), done, running, pending, trace, i);
          running := running + {pending[i]};
          trace := trace + [Start(pending[i])];
          pending := pending[..i] + pending[i + 1..];
        } else {
          i := i + 1;
        }
        scanned := scanned + 1;
      }
      UnreadyAre(graph, listed[..scanned], done);
    }

    /** The `then` callbacks of the steps that finished: `running.delete`, `done.add`. */
    method Settle(finished: set<string>)
      requires Valid() && finished <= running
      modifies this
      ensures Valid() && done == old(done) + finished && running == old(running) - finished
      ensures pending == old(pending) && old(trace) <= trace
    {
      hide Consistent;
      var rest := finished;
      while rest != {}
        invariant Valid() && rest <= running && rest <= finished && pending == old(pending) && old(trace) <= trace
        invariant done == old(done) + (finished - rest) && running == old(running) - (finished - rest)
        decreases |rest|
      {
        var id :| id in rest;
        FinishKeepsConsistent(graph, limit, Ids(graph), Buildable(graph), done, running, pending, trace, id);
        running := running - {id};
        done := done + {id};
        trace := trace + [Finish(id)];
        rest := rest - {id};
      }
    }

    /** `runGraph`; `fails` are the steps that fail when they run.  The kind of the outcome does
        not depend on which steps finish when: a failing step that can be built is always reached,
        and without one the run completes exactly when the ids are unique and the graph is closed
        and acyclic, and otherwise has done all that can be built. */
    method Run(fails: set<string>) returns (outcome: Outcome)
      requires Valid() && done == {} && running == {} && trace == []
      modifies this
      ensures Valid() && done !! fails
      ensures outcome.StepFailed? <==> fails * Buildable(graph) != {}
      ensures outcome.StepFailed? ==> outcome.id in fails && outcome.id in running
      ensures outcome.Completed? <==> !outcome.StepFailed? && UniqueIds(graph) && ClosedAndAcyclic(graph)
      ensures outcome.Completed? ==> done == Ids(graph) && running == {}
      ensures outcome.Unresolved? ==> done == Buildable(graph) && running == {}
      ensures outcome.Unresolved? ==> forall id :: id in outcome.pending <==> id in Ids(graph) - Buildable(graph)
    {
      hide Consistent, UniqueIds, ClosedAndAcyclic, Buildable, Ready, Unready, ReadyAmong;
      while |done| < |graph|
        invariant Valid() && done !! fails
        decreases |Ids(graph) - done|
      {
        var scanned := Launch();
        Accounts();
        if running == {} {
          assert forall id :: id in pending ==> !Ready(graph, id, done);
          StuckMeansUnbuildable(graph, done);
          return Unresolved(pending);
        }
        var settled :| settled in running;
        if settled in fails {
          return StepFailed(settled);
        }
        var finished: set<string> :| finished <= running - fails && finished != {};
        ghost var before := Ids(graph) - done;
        Settle(finished);
        StrictSubsetSize(Ids(graph) - done, before);
      }
      Accounts();
      FullMeansComplete(graph, done);
      BuildableIsLeast(graph);
      return Completed;
    }
  }

  /** What one scan of `ids` starts, and what it leaves. */
  function ReadyAmong(graph: seq<BuildNode>, ids: seq<string>, done: set<string>): set<string> {
    set id <- ids | Ready(graph, id, done)
  }

  function Unready(graph: seq<BuildNode>, ids: seq<string>, done: set<string>): seq<string> {
    if ids == [] then []
    else
      var last := ids[|ids| - 1];
      Unready(graph, ids[..|ids| - 1], done) + if Ready(graph, last, done) then [] else [last]
  }

  /** The scan of `listed` has come to position `scanned`, which is position `i` of what is
      still pending. */
  ghost predicate Scan(graph: seq<BuildNode>, listed: seq<string>, done: set<string>, scanned: nat, pending: seq<string>, i: nat) {
    && scanned <= |listed| && i == |Unready(graph, listed[..scanned], done)|
    && pending == Unready(graph, listed[..scanned], done) + listed[scanned..]
  }

  lemma NothingScanned(graph: seq<BuildNode>, listed: seq<string>, done: set<string>)
    ensures Scan(graph, listed, done, 0, listed, 0) && ReadyAmong(graph, listed[..0], done) == {}
  {
    assert listed[..0] == [] && [] + listed[0..] == listed;
  }

  lemma OneMore(graph: seq<BuildNode>, listed: seq<string>, done: set<string>, k: nat)
    requires k < |listed|
    ensures Unready(graph, listed[..k + 1], done)
         == Unready(graph, listed[..k], done) + if Ready(graph, listed[k], done) then [] else [listed[k]]
    ensures ReadyAmong(graph, listed[..k + 1], done)
         == ReadyAmong(graph, listed[..k], done) + if Ready(graph, listed[k], done) then {listed[k]} else {}
  {
    hide Ready;
    assert listed[..k + 1][..k] == listed[..k] && listed[..k + 1] == listed[..k] + [listed[k]];
  }

  lemma OneMoreScanned(graph: seq<BuildNode>, listed: seq<string>, done: set<string>, scanned: nat, pending: seq<string>, i: nat)
    requires Scan(graph, listed, done, scanned, pending, i) && i < |pending|
    ensures scanned < |listed| && pending[i] == listed[scanned]
    ensures if Ready(graph, pending[i], done)
      then Scan(graph, listed, done, scanned + 1, pending[..i] + pending[i + 1..], i)
      else Scan(graph, listed, done, scanned + 1, pending, i + 1)
    ensures ReadyAmong(graph, listed[..scanned + 1], done)
         == ReadyAmong(graph, listed[..scanned], done) + if Ready(graph, pending[i], done) then {pending[i]} else {}
  {
    hide Ready, Unready, ReadyAmong;
    OneMore(graph, listed, done, scanned);
    var left := Unready(graph, listed[..scanned], done);
    assert pending[..i] == left && pending[i + 1..] == listed[scanned + 1..];
    assert listed[scanned..] == [listed[scanned]] + listed[scanned + 1..];
    Associative(left, [listed[scanned]], listed[scanned + 1..]);
  }

  lemma {:induction false} UnreadyAre(graph: seq<BuildNode>, ids: seq<string>, done: set<string>)
    ensures forall id :: id in Unready(graph, ids, done) <==> id in ids && !Ready(graph, id, done)
  {
    hide Ready;
    if ids != [] {
      UnreadyAre(graph, ids[..|ids| - 1], done);
      assert ids == ids[..|ids| - 1] + [ids[|ids| - 1]];
    }
  }

  /** The number of distinct ids tells whether all are distinct. */
  lemma {:induction false} DistinctIds(graph: seq<BuildNode>)
    ensures |Ids(graph)| <= |graph|
    ensures |Ids(graph)| == |graph| <==> UniqueIds(graph)
  {
    if graph != [] {
      var front, last := graph[..|graph| - 1], graph[|graph| - 1];
      DistinctIds(front);
      assert graph == front + [last];
      assert Ids(graph) == Ids(front) + {last.id};
    }
  }
}
