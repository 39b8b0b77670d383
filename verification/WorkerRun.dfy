/** `spawnWorkerAndWait`: seeding and releasing the upstream, cutting the worker's output into
    lines and recording the end of the run, while the other actors keep changing the registry
    between one await and the next.
 */
module WorkerRun {
  import opened Basics
  import opened Strings
  import opened Wrappers
  import opened RunLifecycle
  import opened InterruptedSweeps

  /** What a protocol line means; anything that is not a frame or a done message is ignored. */
  datatype Message = Ignored | Frame | Done(failed: bool)

  /** One result of `reader.read()`: what the other actors and the sweeps did while it was awaited, the
      decoded text, and the time at which it is handled. */
  datatype Chunk = Chunk(others: seq<Move>, text: string, now: int)

  /** What happens after the last chunk: the end of the stream, or a read that fails, then the
      exit of the process. */
  datatype Ending = Ending(
    othersBeforeEof: seq<Move>, eof: int, readFails: bool, othersBeforeExit: seq<Move>, exit: int)

  // ---------------------------------------------------------------- specification

  datatype WorkerEvent = Other(move: Move) | Line(text: string, now: int)

  /** The registry with the sweeps under way, and whether a done line has been seen. */
  datatype Progress = Progress(w: Watch, done: bool)

  function MessageOf(classify: string -> Message, line: string): Message {
    if Blank(line) then Ignored else classify(line)
  }

  /** `handleLine`. */
  function HandleLine(l: Limits, id: string, p: Progress, m: Message, now: int): Progress {
    match m
    case Ignored => p
    case Frame => p.(w := Next(l, p.w, Act(Touch(id, now))))
    case Done(failed) => Progress(Next(l, p.w, Act(Finish(id, !failed, now))), true)
  }

  function Handle(l: Limits, id: string, classify: string -> Message, p: Progress, e: WorkerEvent): Progress {
    match e
    case Other(m) => p.(w := Next(l, p.w, m))
    case Line(text, now) => HandleLine(l, id, p, MessageOf(classify, text), now)
  }

  function HandleAll(l: Limits, id: string, classify: string -> Message, p: Progress, es: seq<WorkerEvent>): Progress {
    if es == [] then p
    else Handle(l, id, classify, HandleAll(l, id, classify, p, es[..|es| - 1]), es[|es| - 1])
  }

  /** After the exit: a run without a done line has failed. */
  function Conclude(l: Limits, id: string, p: Progress, now: int): Watch {
    if p.done then p.w else Next(l, p.w, Act(Finish(id, false, now)))
  }

  function Others(moves: seq<Move>): seq<WorkerEvent> {
    seq(|moves|, i requires 0 <= i < |moves| => Other(moves[i]))
  }

  function Lines(parts: seq<string>, now: int): seq<WorkerEvent> {
    seq(|parts|, i requires 0 <= i < |parts| => Line(parts[i], now))
  }

  function Buffer(chunks: seq<Chunk>): string {
    if chunks == [] then ""
    else
      var parts := Split(Buffer(chunks[..|chunks| - 1]) + chunks[|chunks| - 1].text, '\n');
      parts[|parts| - 1]
  }

  /** The events in the order in which the reader meets them. */
  function EventsOf(chunks: seq<Chunk>): seq<WorkerEvent> {
    if chunks == [] then []
    else
      var front, c := chunks[..|chunks| - 1], chunks[|chunks| - 1];
      var parts := Split(Buffer(front) + c.text, '\n');
      EventsOf(front) + Others(c.others) + Lines(parts[..|parts| - 1], c.now)
  }

  /** What is left in the buffer is a last line, unless a read has failed. */
  function LastLine(chunks: seq<Chunk>, ending: Ending): seq<WorkerEvent> {
    if ending.readFails then [] else [Line(Buffer(chunks), ending.eof)]
  }

  function AllEvents(chunks: seq<Chunk>, ending: Ending): seq<WorkerEvent> {
    EventsOf(chunks) + Others(ending.othersBeforeEof) + LastLine(chunks, ending) + Others(ending.othersBeforeExit)
  }

  // ---------------------------------------------------------------- framing

  function Stream(chunks: seq<Chunk>): string {
    if chunks == [] then "" else Stream(chunks[..|chunks| - 1]) + chunks[|chunks| - 1].text
  }

  /** The lines handed to `handleLine`, in order. */
  function LinesOf(es: seq<WorkerEvent>): seq<string> {
    if es == [] then []
    else
      var e := es[|es| - 1];
      LinesOf(es[..|es| - 1]) + if e.Line? then [e.text] else []
  }

  lemma {:induction false} LinesOfAppend(a: seq<WorkerEvent>, b: seq<WorkerEvent>)
    ensures LinesOf(a + b) == LinesOf(a) + LinesOf(b)
  {
    if b == [] {
      assert a + b == a;
    } else {
      LinesOfAppend(a, b[..|b| - 1]);
      assert (a + b)[..|a + b| - 1] == a + b[..|b| - 1];
      Associative(LinesOf(a), LinesOf(b[..|b| - 1]), if b[|b| - 1].Line? then [b[|b| - 1].text] else []);
    }
  }

  lemma {:induction false} LinesOfOthers(moves: seq<Move>)
    ensures LinesOf(Others(moves)) == []
  {
    if moves != [] {
      LinesOfOthers(moves[..|moves| - 1]);
      assert Others(moves)[..|moves| - 1] == Others(moves[..|moves| - 1]);
    }
  }

  lemma {:induction false} LinesOfLines(parts: seq<string>, now: int)
    ensures LinesOf(Lines(parts, now)) == parts
  {
    if parts != [] {
      LinesOfLines(parts[..|parts| - 1], now);
      assert Lines(parts, now)[..|parts| - 1] == Lines(parts[..|parts| - 1], now);
    }
  }

  lemma LinesOfChunk(before: seq<WorkerEvent>, others: seq<Move>, parts: seq<string>, now: int)
    ensures LinesOf(before + Others(others) + Lines(parts, now)) == LinesOf(before) + parts
  {
    hide LinesOf, Others, Lines;
    LinesOfAppend(before + Others(others), Lines(parts, now));
    LinesOfAppend(before, Others(others));
    LinesOfOthers(others);
    LinesOfLines(parts, now);
    Unit(LinesOf(before));
  }

  lemma {:induction false} FramingSoFar(chunks: seq<Chunk>)
    ensures LinesOf(EventsOf(chunks)) + [Buffer(chunks)] == Split(Stream(chunks), '\n')
  {
    hide Split;
    if chunks == [] {
      SplitUnfolds("", '\n');
    } else {
      var front, c := chunks[..|chunks| - 1], chunks[|chunks| - 1];
      FramingSoFar(front);
      SplitAppend(Stream(front), c.text, '\n');
      var done, parts := LinesOf(EventsOf(front)), Split(Buffer(front) + c.text, '\n');
      var complete, rest := parts[..|parts| - 1], parts[|parts| - 1];
      LinesOfChunk(EventsOf(front), c.others, complete, c.now);
      hide LinesOf;
      assert (done + [Buffer(front)])[..|done|] == done;
      Associative(done, complete, [rest]);
      assert parts == complete + [rest];
    }
  }

  lemma LinesOfLast(chunks: seq<Chunk>, ending: Ending)
    ensures LinesOf(LastLine(chunks, ending)) == if ending.readFails then [] else [Buffer(chunks)]
  {
  }

  /** However the output is cut into chunks, the lines handled are those of the whole stream
      split at newlines; when a read fails, those that were complete by then. */
  lemma FramingIgnoresCuts(chunks: seq<Chunk>, ending: Ending)
    ensures var parts := Split(Stream(chunks), '\n');
      LinesOf(AllEvents(chunks, ending)) == if ending.readFails then parts[..|parts| - 1] else parts
  {
    hide EventsOf, Buffer, LinesOf, Others, Lines, LastLine;
    var a, b, c, d := EventsOf(chunks), Others(ending.othersBeforeEof), LastLine(chunks, ending),
                      Others(ending.othersBeforeExit);
    FramingSoFar(chunks);
    LinesOfAppend(a + b + c, d);
    LinesOfAppend(a + b, c);
    LinesOfAppend(a, b);
    LinesOfOthers(ending.othersBeforeEof);
    LinesOfOthers(ending.othersBeforeExit);
    LinesOfLast(chunks, ending);
    Unit(LinesOf(a));
    Unit(LinesOf(a) + LinesOf(c));
    assert (LinesOf(a) + [Buffer(chunks)])[..|LinesOf(a)|] == LinesOf(a);
  }

  // ---------------------------------------------------------------- the final status

  predicate IsDone(classify: string -> Message, e: WorkerEvent) {
    e.Line? && MessageOf(classify, e.text).Done?
  }

  function FirstDone(classify: string -> Message, es: seq<WorkerEvent>): Option<nat> {
    if es == [] then None
    else
      match FirstDone(classify, es[..|es| - 1])
      case Some(k) => Some(k)
      case None => if IsDone(classify, es[|es| - 1]) then Some(|es| - 1) else None
  }

  /** What the others may do: they admit fresh sessions, the worker of this session is the only
      one that finishes or seeds it, and no sweep visits an expired record whose run has ended
      since. */
  predicate Foreign(l: Limits, id: string, w: Watch, m: Move) {
    Enabled(w, m) && !Late(l, w, m) && (m.Act? && (m.action.Finish? || m.action.Seed?) ==> m.action.sessionId != id)
  }

  ghost predicate ForeignOthers(l: Limits, id: string, classify: string -> Message, p: Progress, es: seq<WorkerEvent>) {
    es == [] ||
    var before, e := es[..|es| - 1], es[|es| - 1];
    ForeignOthers(l, id, classify, p, before)
    && (e.Other? ==> Foreign(l, id, HandleAll(l, id, classify, p, before).w, e.move))
  }

  /** The first line that is a done message. */
  lemma {:induction false} FirstDoneIs(classify: string -> Message, es: seq<WorkerEvent>)
    ensures match FirstDone(classify, es)
      case Some(k) =>
        && k < |es| && es[k].Line? && !Blank(es[k].text) && classify(es[k].text).Done?
        && forall j | 0 <= j < k :: !(es[j].Line? && !Blank(es[j].text) && classify(es[j].text).Done?)
      case None => forall j | 0 <= j < |es| :: !(es[j].Line? && !Blank(es[j].text) && classify(es[j].text).Done?)
  {
    hide Blank;
    if es != [] {
      FirstDoneIs(classify, es[..|es| - 1]);
    }
  }

  predicate Known(st: State, id: string) {
    Get(st.runs, id).Some?
  }

  function StatusOf(st: State, id: string): Status
    requires Known(st, id)
  {
    Get(st.runs, id).value.status
  }

  /** The run was active when the first done line arrived, and that line reports success. */
  ghost predicate DoneWhileActive(l: Limits, id: string, classify: string -> Message, p: Progress, es: seq<WorkerEvent>) {
    var first := FirstDone(classify, es);
    first.Some? && first.value < |es| && es[first.value].Line? &&
    var before := HandleAll(l, id, classify, p, es[..first.value]).w.st;
    Known(before, id) && Active(StatusOf(before, id)) && MessageOf(classify, es[first.value].text) == Done(false)
  }

  /** The registry is sound, the snapshots are up to date, and the session has a record. */
  ghost predicate Fit(l: Limits, id: string, w: Watch) {
    Invariant(l, w.st) && UpToDate(w) && Known(w.st, id)
  }

  ghost predicate Sound(l: Limits, id: string, p: Progress) {
    Fit(l, id, p.w) && (p.done ==> !Active(StatusOf(p.w.st, id)) && id !in p.w.st.upstreams)
  }

  lemma NextSound(l: Limits, id: string, w: Watch, m: Move)
    requires Fit(l, id, w) && Enabled(w, m) && !Late(l, w, m)
    ensures Fit(l, id, Next(l, w, m))
    ensures !Active(StatusOf(w.st, id)) ==> StatusOf(Next(l, w, m).st, id) == StatusOf(w.st, id)
  {
    NextExactly(l, w, m);
    NextEvolves(l, w, m);
    assert RecordEvolves(Get(w.st.runs, id), Get(Next(l, w, m).st.runs, id));
  }

  lemma ForeignStep(l: Limits, id: string, w: Watch, m: Move)
    requires Fit(l, id, w) && Foreign(l, id, w, m)
    ensures var next := Next(l, w, m);
      && Known(next.st, id)
      && (StatusOf(next.st, id) == Completed <==> StatusOf(w.st, id) == Completed)
      && (id in next.st.upstreams <==> id in w.st.upstreams)
  {
    NextSound(l, id, w, m);
    match m
    case Act(a) => ForeignAct(l, id, w.st, a);
    case Begin(now) =>
    case Visit(i, stamp) =>
      UpsertIs(w.st.runs, w.pending[i].run.(status := Failed, lastFrameAt := stamp), id);
  }

  lemma ForeignAct(l: Limits, id: string, st: State, a: Action)
    requires Invariant(l, st) && Known(st, id) && Possible(st, a) && !a.Sweep?
    requires a.Finish? || a.Seed? ==> a.sessionId != id
    ensures var next := Step(l, st, a);
      && Known(next, id)
      && (StatusOf(next, id) == Completed <==> StatusOf(st, id) == Completed)
      && (id in next.upstreams <==> id in st.upstreams)
  {
    match a
    case Admit(name, s, now) =>
      UpsertIs(st.runs, RunRecord(name, s, Queued429, now, now, now), id);
      UpsertIs(st.runs, RunRecord(name, s, Running, now, now, now), id);
    case Touch(s, now) =>
      TouchKeepsStatus(l, st, s, id, now);
    case Finish(s, ok, now) =>
      SettleSets(Release(st, s), s, if ok then Completed else Failed, now, id);
    case EngineError(s, now) =>
      SettleSets(st, s, Failed, now, id);
    case Seed(_, _, _, _, _) =>
  }

  lemma TouchKeepsStatus(l: Limits, st: State, s: string, id: string, now: int)
    requires Known(st, id)
    ensures Known(Step(l, st, Touch(s, now)), id) && StatusOf(Step(l, st, Touch(s, now)), id) == StatusOf(st, id)
  {
    if Get(st.runs, s).Some? {
      UpsertIs(st.runs, Get(st.runs, s).value.(lastFrameAt := now), id);
      UpsertIs(st.runs, Get(st.runs, s).value, s);
    }
  }

  lemma SettleSets(st: State, s: string, status: Status, now: int, id: string)
    requires Known(st, id)
    ensures var next := SettleIfActive(st, s, status, now);
      && Known(next, id) && next.upstreams == st.upstreams
      && StatusOf(next, id) == if s == id && Active(StatusOf(st, id)) then status else StatusOf(st, id)
  {
    if Get(st.runs, s).Some? {
      UpsertIs(st.runs, Get(st.runs, s).value.(status := status, lastFrameAt := now), id);
      UpsertIs(st.runs, Get(st.runs, s).value, s);
    }
  }

  /** The worker's own finish: the run has ended, its upstream is free again, and it counts as
      completed exactly when it was active and succeeded, or had been completed before. */
  lemma FinishIs(l: Limits, id: string, w: Watch, ok: bool, now: int)
    requires Fit(l, id, w)
    ensures var next := Next(l, w, Act(Finish(id, ok, now)));
      && Fit(l, id, next) && !Active(StatusOf(next.st, id)) && id !in next.st.upstreams
      && (StatusOf(next.st, id) == Completed
          <==> (Active(StatusOf(w.st, id)) && ok) || StatusOf(w.st, id) == Completed)
  {
    NextSound(l, id, w, Act(Finish(id, ok, now)));
    SettleSets(Release(w.st, id), id, if ok then Completed else Failed, now, id);
  }

  lemma FirstDoneSnoc(classify: string -> Message, es: seq<WorkerEvent>, e: WorkerEvent)
    ensures FirstDone(classify, es + [e])
         == if FirstDone(classify, es).Some? then FirstDone(classify, es)
            else if IsDone(classify, e) then Some(|es|) else None
  {
    assert (es + [e])[..|es|] == es;
  }

  lemma {:induction false} FirstDoneBound(classify: string -> Message, es: seq<WorkerEvent>)
    ensures FirstDone(classify, es).Some? ==> FirstDone(classify, es).value < |es|
  {
    if es != [] {
      FirstDoneBound(classify, es[..|es| - 1]);
    }
  }

  lemma DoneWhileActiveSnoc(l: Limits, id: string, classify: string -> Message, p: Progress,
                            es: seq<WorkerEvent>, e: WorkerEvent)
    ensures DoneWhileActive(l, id, classify, p, es + [e])
      <==> if FirstDone(classify, es).Some? then DoneWhileActive(l, id, classify, p, es)
           else var st := HandleAll(l, id, classify, p, es).w.st;
             e.Line? && MessageOf(classify, e.text) == Done(false) && Known(st, id) && Active(StatusOf(st, id))
  {
    hide HandleAll, FirstDone;
    FirstDoneSnoc(classify, es, e);
    FirstDoneBound(classify, es);
    var first := FirstDone(classify, es + [e]);
    if first.Some? {
      assert (es + [e])[..first.value] == if first.value < |es| then es[..first.value] else es;
    }
  }

  lemma {:induction false} HandledSoFar(l: Limits, id: string, classify: string -> Message, p: Progress, es: seq<WorkerEvent>)
    requires Sound(l, id, p) && !p.done && StatusOf(p.w.st, id) != Completed
    requires ForeignOthers(l, id, classify, p, es)
    ensures var q := HandleAll(l, id, classify, p, es);
      && Sound(l, id, q)
      && (q.done <==> FirstDone(classify, es).Some?)
      && (StatusOf(q.w.st, id) == Completed <==> DoneWhileActive(l, id, classify, p, es))
  {
    if es != [] {
      var before, e := es[..|es| - 1], es[|es| - 1];
      HandledSoFar(l, id, classify, p, before);
      assert es == before + [e];
      FirstDoneSnoc(classify, before, e);
      DoneWhileActiveSnoc(l, id, classify, p, before, e);
      var q := HandleAll(l, id, classify, p, before);
      hide HandleAll, FirstDone, DoneWhileActive, Fit;
      HandledStep(l, id, classify, q, e);
    }
  }

  lemma HandledStep(l: Limits, id: string, classify: string -> Message, q: Progress, e: WorkerEvent)
    requires Sound(l, id, q) && (e.Other? ==> Foreign(l, id, q.w, e.move))
    ensures var r := Handle(l, id, classify, q, e);
      && Sound(l, id, r)
      && (r.done <==> q.done || IsDone(classify, e))
      && (StatusOf(r.w.st, id) == Completed <==>
            StatusOf(q.w.st, id) == Completed
            || (e.Line? && MessageOf(classify, e.text) == Done(false) && Active(StatusOf(q.w.st, id))))
  {
    hide Invariant, Step, UpToDate;
    match e
    case Other(m) =>
      NextSound(l, id, q.w, m);
      ForeignStep(l, id, q.w, m);
    case Line(text, now) =>
      match MessageOf(classify, text)
      case Ignored =>
      case Frame =>
        NextSound(l, id, q.w, Act(Touch(id, now)));
        TouchKeepsStatus(l, q.w.st, id, id, now);
        TouchKeepsUpstreams(l, q.w.st, id, now);
      case Done(failed) =>
        FinishIs(l, id, q.w, !failed, now);
  }

  lemma TouchKeepsUpstreams(l: Limits, st: State, id: string, now: int)
    ensures Step(l, st, Touch(id, now)).upstreams == st.upstreams
  {
  }

  /** The main law: when the worker has exited, its run has ended and its upstream has been
      released, whatever the other actors and the sweeps did meanwhile, short of a late visit; the
      run is completed exactly when it was active at the first done line and that line does not
      say failed. */
  lemma RunEndsOnce(l: Limits, id: string, classify: string -> Message, w: Watch, es: seq<WorkerEvent>, exit: int)
    requires Fit(l, id, w) && StatusOf(w.st, id) != Completed
    requires ForeignOthers(l, id, classify, Progress(w, false), es)
    ensures var last := Conclude(l, id, HandleAll(l, id, classify, Progress(w, false), es), exit);
      && Fit(l, id, last)
      && !Active(StatusOf(last.st, id)) && id !in last.st.upstreams
      && (StatusOf(last.st, id) == Completed <==> DoneWhileActive(l, id, classify, Progress(w, false), es))
  {
    hide DoneWhileActive, HandleAll, FirstDone, Invariant, UpToDate, Next;
    HandledSoFar(l, id, classify, Progress(w, false), es);
    var q := HandleAll(l, id, classify, Progress(w, false), es);
    if !q.done {
      FinishIs(l, id, q.w, false, exit);
    }
  }

  // ---------------------------------------------------------------- frames keep a run alive

  /** The time of the last frame line of the worker, or of a later touch of its session. */
  function LastHeard(id: string, classify: string -> Message, es: seq<WorkerEvent>, start: int): int {
    if es == [] then start
    else
      match es[|es| - 1]
      case Line(text, now) =>
        if !Blank(text) && classify(text) == Frame then now else LastHeard(id, classify, es[..|es| - 1], start)
      case Other(m) =>
        if m.Act? && m.action.Touch? && m.action.sessionId == id then m.action.now
        else LastHeard(id, classify, es[..|es| - 1], start)
  }

  /** As long as the run is active, the time of its last frame is that of the last frame line, so
      a sweep before that time plus the stall limit does not find it stalled. */
  lemma {:induction false} HeardUntil(l: Limits, id: string, classify: string -> Message, p: Progress, es: seq<WorkerEvent>)
    requires Sound(l, id, p) && !p.done && StatusOf(p.w.st, id) != Completed
    requires ForeignOthers(l, id, classify, p, es)
    ensures var q := HandleAll(l, id, classify, p, es);
      Known(q.w.st, id) && (Active(StatusOf(q.w.st, id)) ==>
        var heard := LastHeard(id, classify, es, Get(p.w.st.runs, id).value.lastFrameAt);
        && Get(q.w.st.runs, id).value.lastFrameAt == heard
        && forall sweep: int | sweep < heard + 1000 * l.stallS ::
             Expired(l, Get(q.w.st.runs, id).value, sweep) ==> sweep - Get(q.w.st.runs, id).value.startedAt >= 1000 * l.maxRunS)
  {
    if es != [] {
      var before, e := es[..|es| - 1], es[|es| - 1];
      HeardUntil(l, id, classify, p, before);
      HandledSoFar(l, id, classify, p, before);
      var q := HandleAll(l, id, classify, p, before);
      hide HandleAll, FirstDone, DoneWhileActive, Invariant, UpToDate;
      HeardStep(l, id, classify, q, e);
    }
  }

  lemma HeardStep(l: Limits, id: string, classify: string -> Message, q: Progress, e: WorkerEvent)
    requires Sound(l, id, q) && (e.Other? ==> Foreign(l, id, q.w, e.move))
    ensures var r := Handle(l, id, classify, q, e);
      var was := Get(q.w.st.runs, id).value;
      Known(r.w.st, id) && (Active(StatusOf(r.w.st, id)) ==>
        && Active(was.status)
        && Get(r.w.st.runs, id).value.lastFrameAt == LastHeard(id, classify, [e], was.lastFrameAt))
  {
    hide Invariant, Step, UpToDate, Blank;
    HandledStep(l, id, classify, q, e);
    assert [e][..0] == [];
    match e
    case Other(m) =>
      NextSound(l, id, q.w, m);
      ForeignHeard(l, id, q.w, m);
    case Line(text, now) =>
      match MessageOf(classify, text)
      case Ignored =>
      case Frame =>
        FrameIs(l, q.w.st, id, now, id);
      case Done(failed) =>
        EndIs(l, q.w.st, id, true, !failed, now, id);
  }

  lemma ForeignHeard(l: Limits, id: string, w: Watch, m: Move)
    requires Fit(l, id, w) && Foreign(l, id, w, m)
    ensures var next := Next(l, w, m).st;
      Known(next, id) && (Active(StatusOf(next, id)) ==>
        Get(next.runs, id).value.lastFrameAt
        == if m.Act? && m.action.Touch? && m.action.sessionId == id then m.action.now else Get(w.st.runs, id).value.lastFrameAt)
  {
    match m
    case Begin(now) =>
    case Visit(i, stamp) =>
      VisitIs(l, w, i, stamp, id);
    case Act(a) =>
      match a
      case Admit(name, s, now) =>
        UpsertIs(w.st.runs, RunRecord(name, s, Queued429, now, now, now), id);
        UpsertIs(w.st.runs, RunRecord(name, s, Running, now, now, now), id);
      case Touch(s, now) =>
        FrameIs(l, w.st, s, now, id);
      case Finish(s, ok, now) =>
        EndIs(l, w.st, s, true, ok, now, id);
      case EngineError(s, now) =>
        EndIs(l, w.st, s, false, false, now, id);
      case Seed(_, _, _, _, _) =>
  }

  // ---------------------------------------------------------------- the reader in place

  lemma {:induction false} HandleAllAppend(l: Limits, id: string, classify: string -> Message, p: Progress,
                                           a: seq<WorkerEvent>, b: seq<WorkerEvent>)
    ensures HandleAll(l, id, classify, p, a + b) == HandleAll(l, id, classify, HandleAll(l, id, classify, p, a), b)
  {
    if b == [] {
      assert a + b == a;
    } else {
      HandleAllAppend(l, id, classify, p, a, b[..|b| - 1]);
      assert (a + b)[..|a + b| - 1] == a + b[..|b| - 1];
    }
  }

  lemma HandleOne(l: Limits, id: string, classify: string -> Message, p: Progress, es: seq<WorkerEvent>, e: WorkerEvent)
    ensures HandleAll(l, id, classify, p, es + [e]) == Handle(l, id, classify, HandleAll(l, id, classify, p, es), e)
  {
    assert (es + [e])[..|es|] == es;
  }

  lemma LinesSnoc(parts: seq<string>, line: string, now: int)
    ensures Lines(parts + [line], now) == Lines(parts, now) + [Line(line, now)]
  {
  }

  class Worker {
    const watchdog: Watchdog
    const id: string
    const classify: string -> Message
    var done: bool
    var buf: string

    constructor (watchdog: Watchdog, id: string, classify: string -> Message)
      ensures this.watchdog == watchdog && this.id == id && this.classify == classify
      ensures !done && buf == ""
    {
      this.watchdog, this.id, this.classify := watchdog, id, classify;
      done, buf := false, "";
    }

    /** The shared registry, and whether a done line has been seen. */
    ghost function State(): Progress
      reads this, watchdog, watchdog.server
    {
      Progress(watchdog.State(), done)
    }

    /** `handleLine`. */
    method HandleText(line: string, now: int)
      modifies this`done, watchdog.server
      ensures State() == Handle(watchdog.server.limits, id, classify, old(State()), Line(line, now))
      ensures Blank(line) || classify(line) == Ignored ==> State() == old(State())
      ensures !Blank(line) && classify(line) == Frame ==>
        && done == old(done) && watchdog.server.events == old(watchdog.server.events)
        && (forall s | s != id :: Get(watchdog.server.runs, s) == old(Get(watchdog.server.runs, s)))
        && (old(Get(watchdog.server.runs, id)).Some? ==>
              Get(watchdog.server.runs, id) == Some(old(Get(watchdog.server.runs, id)).value.(lastFrameAt := now)))
      ensures !Blank(line) && classify(line).Done? ==>
        var was := old(Get(watchdog.server.runs, id));
        var ends := was.Some? && was.value.status in {Running, Continued};
        var status := if classify(line).failed then Failed else Completed;
        && done && watchdog.server.upstreams == old(watchdog.server.upstreams) - {id}
        && Get(watchdog.server.runs, id) == (if ends then Some(was.value.(status := status, lastFrameAt := now)) else was)
        && watchdog.server.events == old(watchdog.server.events) + (if ends then [SubworkerDone(id, status)] else [])
    {
      hide Blank;
      ghost var l, st := watchdog.server.limits, watchdog.server.Contents();
      if Blank(line) {
        return;
      }
      match classify(line)
      case Ignored =>
      case Frame =>
        forall s ensures s != id ==> Get(Step(l, st, Touch(id, now)).runs, s) == Get(st.runs, s) {
          FrameIs(l, st, id, now, s);
        }
        FrameIs(l, st, id, now, id);
        watchdog.server.TouchRun(id, now);
      case Done(failed) =>
        EndIs(l, st, id, true, !failed, now, id);
        done := true;
        watchdog.server.FinishRun(id, !failed, now);
    }

    /** The others run while something is awaited. */
    method Await(others: seq<Move>)
      modifies watchdog, watchdog.server
      ensures State() == HandleAll(watchdog.server.limits, id, classify, old(State()), Others(others))
    {
      var k := 0;
      while k < |others|
        invariant k <= |others|
        invariant State() == HandleAll(watchdog.server.limits, id, classify, old(State()), Others(others)[..k])
      {
        HandleOne(watchdog.server.limits, id, classify, old(State()), Others(others)[..k], Other(others[k]));
        assert Others(others)[..k + 1] == Others(others)[..k] + [Other(others[k])];
        watchdog.Perform(others[k]);
        k := k + 1;
      }
      assert Others(others)[..k] == Others(others);
    }

    /** `buf.indexOf("\n")`, or the length when there is none. */
    method NewlineIndex() returns (idx: nat)
      ensures idx <= |buf| && (idx < |buf| ==> buf[idx] == '\n') && '\n' !in buf[..idx]
    {
      idx := 0;
      while idx < |buf| && buf[idx] != '\n'
        invariant idx <= |buf| && '\n' !in buf[..idx]
      {
        idx := idx + 1;
      }
    }

    /** The inner loop of the reader: handle every complete line in the buffer. */
    method Drain(now: int)
      modifies this, watchdog.server
      ensures var parts := Split(old(buf), '\n');
        && buf == parts[|parts| - 1]
        && State() == HandleAll(watchdog.server.limits, id, classify, old(State()), Lines(parts[..|parts| - 1], now))
    {
      ghost var p0 := State();
      ghost var handled: seq<string> := [];
      var idx := NewlineIndex();
      while idx < |buf|
        invariant 0 <= idx <= |buf| && (idx < |buf| ==> buf[idx] == '\n') && '\n' !in buf[..idx]
        invariant Split(old(buf), '\n') == handled + Split(buf, '\n')
        invariant State() == HandleAll(watchdog.server.limits, id, classify, p0, Lines(handled, now))
        decreases |buf|
      {
        var line := buf[..idx];
        DrainStep(old(buf), handled, buf, idx);
        LinesSnoc(handled, line, now);
        HandleOne(watchdog.server.limits, id, classify, p0, Lines(handled, now), Line(line, now));
        HandleText(line, now);
        buf := buf[idx + 1..];
        handled := handled + [line];
        idx := NewlineIndex();
      }
      assert buf[..idx] == buf;
      SplitNone(buf, '\n');
    }

    /** `spawnWorkerAndWait`. */
    method SpawnAndWait(pool: seq<string>, indexWritable: bool, confWritable: bool, waiting: seq<Move>, spawns: bool,
                        chunks: seq<Chunk>, ending: Ending) returns (threw: bool)
      requires !done && buf == ""
      modifies this, watchdog, watchdog.server
      ensures threw <==> !spawns
      ensures var seed := Seed(id, pool, indexWritable, confWritable, 0);
        watchdog.State() == SpawnOutcome(watchdog.server.limits, id, classify, old(watchdog.State()), seed, waiting, spawns,
                                         AllEvents(chunks, ending), ending.exit)
    {
      var seeded := watchdog.server.SeedWorkerConf(id, pool, indexWritable, confWritable);
      OthersKeepDone(watchdog.server.limits, id, classify, State(), waiting);
      Await(waiting);
      if !spawns {
        watchdog.server.ReleaseWorkerConf(id);
        return true;
      }
      RunToEnd(chunks, ending);
      return false;
    }

    /** ... from the first read to the end. */
    method RunToEnd(chunks: seq<Chunk>, ending: Ending)
      requires !done && buf == ""
      modifies this, watchdog, watchdog.server
      ensures watchdog.State()
           == Conclude(watchdog.server.limits, id,
                       HandleAll(watchdog.server.limits, id, classify, Progress(old(watchdog.State()), false), AllEvents(chunks, ending)),
                       ending.exit)
    {
      ghost var p0 := State();
      var k := 0;
      while k < |chunks|
        invariant k <= |chunks| && buf == Buffer(chunks[..k])
        invariant State() == HandleAll(watchdog.server.limits, id, classify, p0, EventsOf(chunks[..k]))
      {
        ChunkEvents(watchdog.server.limits, id, classify, p0, chunks, k);
        Await(chunks[k].others);
        buf := buf + chunks[k].text;
        Drain(chunks[k].now);
        k := k + 1;
      }
      assert chunks[..k] == chunks;
      EndingEvents(watchdog.server.limits, id, classify, p0, chunks, ending);
      Await(ending.othersBeforeEof);
      if !ending.readFails && !Blank(buf) {
        HandleText(buf, ending.eof);
      }
      Await(ending.othersBeforeExit);
      if !done {
        watchdog.server.FinishRun(id, false, ending.exit);
      }
    }
  }

  lemma DrainStep(full: string, handled: seq<string>, buf: string, idx: nat)
    requires idx < |buf| && buf[idx] == '\n' && '\n' !in buf[..idx]
    requires Split(full, '\n') == handled + Split(buf, '\n')
    ensures Split(full, '\n') == handled + [buf[..idx]] + Split(buf[idx + 1..], '\n')
  {
    assert buf == buf[..idx] + ['\n'] + buf[idx + 1..];
    SplitFirst(buf[..idx], '\n', buf[idx + 1..]);
    Associative(handled, [buf[..idx]], Split(buf[idx + 1..], '\n'));
  }

  lemma ChunkEvents(l: Limits, id: string, classify: string -> Message, p: Progress, chunks: seq<Chunk>, k: nat)
    requires k < |chunks|
    ensures var parts := Split(Buffer(chunks[..k]) + chunks[k].text, '\n');
      && Buffer(chunks[..k + 1]) == parts[|parts| - 1]
      && HandleAll(l, id, classify, p, EventsOf(chunks[..k + 1]))
         == HandleAll(l, id, classify,
                      HandleAll(l, id, classify, HandleAll(l, id, classify, p, EventsOf(chunks[..k])), Others(chunks[k].others)),
                      Lines(parts[..|parts| - 1], chunks[k].now))
  {
    hide HandleAll;
    assert chunks[..k + 1][..k] == chunks[..k];
    var parts := Split(Buffer(chunks[..k]) + chunks[k].text, '\n');
    HandleAllAppend(l, id, classify, p, EventsOf(chunks[..k]) + Others(chunks[k].others),
                    Lines(parts[..|parts| - 1], chunks[k].now));
    HandleAllAppend(l, id, classify, p, EventsOf(chunks[..k]), Others(chunks[k].others));
  }

  lemma EndingEvents(l: Limits, id: string, classify: string -> Message, p: Progress, chunks: seq<Chunk>, ending: Ending)
    ensures HandleAll(l, id, classify, p, AllEvents(chunks, ending))
         == var q := HandleAll(l, id, classify, HandleAll(l, id, classify, p, EventsOf(chunks)), Others(ending.othersBeforeEof));
            var r := if ending.readFails then q else Handle(l, id, classify, q, Line(Buffer(chunks), ending.eof));
            HandleAll(l, id, classify, r, Others(ending.othersBeforeExit))
  {
    var a, b, c, d := EventsOf(chunks), Others(ending.othersBeforeEof), LastLine(chunks, ending),
                      Others(ending.othersBeforeExit);
    if ending.readFails {
      assert a + b + c == a + b;
    } else {
      HandleOne(l, id, classify, p, a + b, c[0]);
    }
    hide HandleAll, Handle;
    HandleAllAppend(l, id, classify, p, a + b + c, d);
    HandleAllAppend(l, id, classify, p, a, b);
  }

  // ---------------------------------------------------------------- from seeding to the exit

  /** `spawnWorkerAndWait` as a whole: the upstream is seeded, others act while the spawn slot is
      awaited, and the spawn fails or the worker runs. */
  function SpawnOutcome(l: Limits, id: string, classify: string -> Message, w: Watch, seed: Action,
                        waiting: seq<Move>, spawns: bool, es: seq<WorkerEvent>, exit: int): Watch
  {
    var ready := HandleAll(l, id, classify, Progress(Next(l, w, Act(seed)), false), Others(waiting)).w;
    if !spawns then ready.(st := Release(ready.st, id))
    else Conclude(l, id, HandleAll(l, id, classify, Progress(ready, false), es), exit)
  }

  lemma {:induction false} OthersKeepDone(l: Limits, id: string, classify: string -> Message, p: Progress, moves: seq<Move>)
    ensures HandleAll(l, id, classify, p, Others(moves)).done == p.done
    ensures FirstDone(classify, Others(moves)).None?
  {
    if moves != [] {
      var front := moves[..|moves| - 1];
      assert Others(moves) == Others(front) + [Other(moves[|moves| - 1])];
      assert Others(moves)[..|moves| - 1] == Others(front);
      OthersKeepDone(l, id, classify, p, front);
    }
  }

  lemma SeedFits(l: Limits, id: string, w: Watch, seed: Action)
    requires Fit(l, id, w) && seed.Seed?
    ensures Fit(l, id, Next(l, w, Act(seed))) && StatusOf(Next(l, w, Act(seed)).st, id) == StatusOf(w.st, id)
  {
    NextSound(l, id, w, Act(seed));
  }

  lemma ReleaseFits(l: Limits, id: string, w: Watch)
    requires Fit(l, id, w)
    ensures Fit(l, id, w.(st := Release(w.st, id)))
  {
    ReleaseKeeps(l, w.st, id);
  }

  /** Every exit after seeding has released the upstream.  When the worker was spawned, its run
      has ended and is completed exactly when it was active at a first done line that reports
      success; when not, it is not completed, and the error handler of the engine ends it. */
  lemma EveryExitReleases(l: Limits, id: string, classify: string -> Message, w: Watch, seed: Action,
                          waiting: seq<Move>, spawns: bool, es: seq<WorkerEvent>, exit: int)
    requires Fit(l, id, w) && StatusOf(w.st, id) != Completed && seed.Seed?
    requires ForeignOthers(l, id, classify, Progress(Next(l, w, Act(seed)), false), Others(waiting))
    requires var ready := HandleAll(l, id, classify, Progress(Next(l, w, Act(seed)), false), Others(waiting)).w;
      ForeignOthers(l, id, classify, Progress(ready, false), es)
    ensures var ready := HandleAll(l, id, classify, Progress(Next(l, w, Act(seed)), false), Others(waiting)).w;
      var last := SpawnOutcome(l, id, classify, w, seed, waiting, spawns, es, exit);
      && Fit(l, id, last) && id !in last.st.upstreams
      && (spawns ==> !Active(StatusOf(last.st, id)))
      && (StatusOf(last.st, id) == Completed <==> spawns && DoneWhileActive(l, id, classify, Progress(ready, false), es))
  {
    SeedFits(l, id, w, seed);
    var p := Progress(Next(l, w, Act(seed)), false);
    OthersKeepDone(l, id, classify, p, waiting);
    hide Next, HandleAll, Invariant, UpToDate, ForeignOthers;
    HandledSoFar(l, id, classify, p, Others(waiting));
    var ready := HandleAll(l, id, classify, p, Others(waiting)).w;
    if spawns {
      RunEndsOnce(l, id, classify, ready, es, exit);
    } else {
      ReleaseFits(l, id, ready);
    }
  }
}
