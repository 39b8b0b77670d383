/** The egress rotation of the forward proxy: least recently used by timestamp.
 */
module ProxyRotation {
  import opened Basics
  import opened Wrappers

  /** The `host:port` under which a proxy's last use is recorded. */
  datatype Key = Key(host: string, port: int)

  datatype Entry = Entry(key: Key, user: string, pass: string)

  /** A pool object.  Every load of the pool file creates new objects; `load` tells the
      objects of one load from those of another. */
  datatype Proxy = Proxy(entry: Entry, load: nat)

  /** The module variables; `loads` counts the loads so far. */
  datatype Egress = Egress(pool: seq<Proxy>, lastUsed: map<Key, int>, current: Option<Proxy>, loads: nat)

  /** `file` is what the pool file holds, or None when it cannot be read. */
  datatype Op =
    | Rotate(file: Option<seq<Entry>>, now: int)
    | RotateOnError(file: Option<seq<Entry>>, now: int)
    | Use(now: int)

  // ---------------------------------------------------------------- specification

  function Stamp(lastUsed: map<Key, int>, p: Proxy): int {
    if p.entry.key in lastUsed then lastUsed[p.entry.key] else 0
  }

  predicate Candidate(pool: seq<Proxy>, exclude: Option<Key>, p: Proxy) {
    !(exclude == Some(p.entry.key) && |pool| > 1)
  }

  /** The position `pickLRU` has settled on after the first `n` entries of the pool. */
  function PickFrom(pool: seq<Proxy>, lastUsed: map<Key, int>, exclude: Option<Key>, n: nat): (r: Option<nat>)
    requires n <= |pool|
    ensures r.Some? ==> r.value < n
  {
    if n == 0 then None
    else
      var best := PickFrom(pool, lastUsed, exclude, n - 1);
      if !Candidate(pool, exclude, pool[n - 1]) then best
      else if best.None? || Stamp(lastUsed, pool[n - 1]) < Stamp(lastUsed, pool[best.value]) then Some(n - 1)
      else best
  }

  function Pick(st: Egress, exclude: Option<Key>): Option<Proxy> {
    match PickFrom(st.pool, st.lastUsed, exclude, |st.pool|)
    case None => None
    case Some(i) => Some(st.pool[i])
  }

  /** What is picked: the first candidate in pool order among the least recently used. */
  lemma {:induction false} PickIsLeast(pool: seq<Proxy>, lastUsed: map<Key, int>, exclude: Option<Key>, n: nat)
    requires n <= |pool|
    ensures match PickFrom(pool, lastUsed, exclude, n)
      case None => forall i | 0 <= i < n :: !Candidate(pool, exclude, pool[i])
      case Some(b) =>
        && b < n && Candidate(pool, exclude, pool[b])
        && (forall i | 0 <= i < n && Candidate(pool, exclude, pool[i]) :: Stamp(lastUsed, pool[b]) <= Stamp(lastUsed, pool[i]))
        && (forall i | 0 <= i < b && Candidate(pool, exclude, pool[i]) :: Stamp(lastUsed, pool[b]) < Stamp(lastUsed, pool[i]))
  {
    if n > 0 {
      PickIsLeast(pool, lastUsed, exclude, n - 1);
    }
  }

  function Loaded(entries: seq<Entry>, load: nat): seq<Proxy> {
    seq(|entries|, i requires 0 <= i < |entries| => Proxy(entries[i], load))
  }

  /** `loadPool`. */
  function Load(st: Egress, file: Option<seq<Entry>>): Egress {
    match file
    case None => st
    case Some(entries) => st.(pool := Loaded(entries, st.loads + 1), loads := st.loads + 1)
  }

  function CurrentKey(st: Egress): Option<Key> {
    match st.current case None => None case Some(p) => Some(p.entry.key)
  }

  /** Make `p`, or else the current egress, the current egress and stamp it. */
  function Switch(st: Egress, p: Option<Proxy>, now: int): Egress {
    var next := if p.Some? then p else st.current;
    if next.None? then st
    else st.(current := next, lastUsed := st.lastUsed[next.value.entry.key := now])
  }

  /** Forget the stamps of proxies that are no longer in the pool. */
  function Prune(st: Egress): Egress {
    var valid := set p <- st.pool :: p.entry.key;
    st.(lastUsed := map k <- st.lastUsed | k in valid :: st.lastUsed[k])
  }

  function Step(st: Egress, op: Op): Egress {
    match op
    case Rotate(file, now) =>
      var loaded := Prune(Load(st, file));
      if loaded.pool == [] then loaded else Switch(loaded, Pick(loaded, CurrentKey(loaded)), now)
    case RotateOnError(file, now) =>
      var loaded := Load(st, file);
      Switch(loaded, Pick(loaded, CurrentKey(loaded)), now)
    case Use(now) =>
      if st.pool == [] || (st.current.Some? && st.current.value in st.pool) then st
      else
        var p := Pick(st, None);
        if p.None? then st.(current := None) else Switch(st, p, now)
  }

  /** Start-up: the pool has just been loaded and nothing has been used. */
  function Boot(entries: seq<Entry>, now: int): Egress {
    var st := Egress(Loaded(entries, 1), map[], None, 1);
    Switch(st, Pick(st, None), now)
  }

  function RunOps(st: Egress, ops: seq<Op>): Egress {
    if ops == [] then st else Step(RunOps(st, ops[..|ops| - 1]), ops[|ops| - 1])
  }

  // ---------------------------------------------------------------- one operation on any pool

  /** A rotation, by the timer or by the endpoint. */
  function Rotation(timed: bool, file: Option<seq<Entry>>, now: int): Op {
    if timed then Rotate(file, now) else RotateOnError(file, now)
  }

  /** The pool after a rotation holds what the file holds, as new objects in the order of the file;
      without a file it is the pool as it was. */
  lemma RotationReloads(st: Egress, timed: bool, file: Option<seq<Entry>>, now: int)
    ensures var next := Step(st, Rotation(timed, file, now));
      && (file.None? ==> next.pool == st.pool && next.loads == st.loads)
      && (file.Some? ==>
            && |next.pool| == |file.value| && next.loads == st.loads + 1
            && forall i | 0 <= i < |file.value| :: next.pool[i] == Proxy(file.value[i], st.loads + 1))
  {
  }

  predicate Eligible(pool: seq<Proxy>, current: Option<Proxy>, i: nat)
    requires i < |pool|
  {
    |pool| == 1 || current.None? || current.value.entry.key != pool[i].entry.key
  }

  function UsedAt(st: Egress, k: Key): int {
    if k in st.lastUsed then st.lastUsed[k] else 0
  }

  /** The stamps after a rotation: the new egress bears the time of the rotation, other proxies
      what they bore before; the timer forgets the proxies that are not in the pool. */
  lemma RotationStamps(st: Egress, timed: bool, file: Option<seq<Entry>>, now: int, k: Key)
    ensures var next := Step(st, Rotation(timed, file, now));
      var kept := k in st.lastUsed && (timed ==> exists p <- next.pool :: p.entry.key == k);
      var chosen := next.current.Some? && next.current.value.entry.key == k && !(timed && next.pool == []);
      && (k in next.lastUsed <==> chosen || kept)
      && (k in next.lastUsed ==> next.lastUsed[k] == if chosen then now else st.lastUsed[k])
  {
    hide Pick;
    var loaded := Load(st, file);
    assert timed ==> (k in Prune(loaded).lastUsed <==> k in st.lastUsed && exists p <- loaded.pool :: p.entry.key == k);
  }

  /** When some proxy of the pool is not the current one, or there is only one, the rotation goes
      to a proxy of the pool, not the current one if there is another: the one used longest ago,
      the first in the pool where that is a tie; never used counts as 0. */
  lemma RotationPicks(st: Egress, timed: bool, file: Option<seq<Entry>>, now: int, e: nat) returns (c: nat)
    requires e < |Step(st, Rotation(timed, file, now)).pool| && Eligible(Step(st, Rotation(timed, file, now)).pool, st.current, e)
    ensures var next := Step(st, Rotation(timed, file, now));
      && c < |next.pool| && next.current == Some(next.pool[c]) && Eligible(next.pool, st.current, c)
      && (forall i: nat | i < |next.pool| && Eligible(next.pool, st.current, i) ::
            && UsedAt(st, next.pool[c].entry.key) <= UsedAt(st, next.pool[i].entry.key)
            && (i < c ==> UsedAt(st, next.pool[c].entry.key) < UsedAt(st, next.pool[i].entry.key)))
  {
    var loaded := if timed then Prune(Load(st, file)) else Load(st, file);
    var pool, exclude := loaded.pool, CurrentKey(loaded);
    PickIsLeast(pool, loaded.lastUsed, exclude, |pool|);
    assert forall i: nat | i < |pool| :: Candidate(pool, exclude, pool[i]) <==> Eligible(pool, st.current, i);
    forall i: nat | i < |pool| ensures Stamp(loaded.lastUsed, pool[i]) == UsedAt(st, pool[i].entry.key) {
      assert pool[i] in Load(st, file).pool;
    }
    hide PickFrom, Eligible, Stamp, UsedAt, Candidate;
    assert PickFrom(pool, loaded.lastUsed, exclude, |pool|).Some?;
    c := PickFrom(pool, loaded.lastUsed, exclude, |pool|).value;
  }

  /** So a proxy that was never used comes first, if all times are positive. */
  lemma RotationPicksUnused(st: Egress, timed: bool, file: Option<seq<Entry>>, now: int, e: nat)
    requires var pool := Step(st, Rotation(timed, file, now)).pool;
      && e < |pool| && Eligible(pool, st.current, e) && pool[e].entry.key !in st.lastUsed
      && forall i: nat | i < e && Eligible(pool, st.current, i) :: pool[i].entry.key in st.lastUsed
    requires forall k <- st.lastUsed :: st.lastUsed[k] > 0
    ensures var next := Step(st, Rotation(timed, file, now));
      next.current == Some(next.pool[e])
  {
    hide Step, Eligible;
    var c := RotationPicks(st, timed, file, now, e);
  }

  /** Where no proxy is eligible, the egress stays. */
  lemma RotationStays(st: Egress, timed: bool, file: Option<seq<Entry>>, now: int)
    requires var pool := Step(st, Rotation(timed, file, now)).pool;
      forall i: nat | i < |pool| :: !Eligible(pool, st.current, i)
    ensures Step(st, Rotation(timed, file, now)).current == st.current
  {
    var loaded := if timed then Prune(Load(st, file)) else Load(st, file);
    PickIsLeast(loaded.pool, loaded.lastUsed, CurrentKey(loaded), |loaded.pool|);
    assert forall i: nat | i < |loaded.pool| :: Candidate(loaded.pool, CurrentKey(loaded), loaded.pool[i]) <==> Eligible(loaded.pool, st.current, i);
  }

  /** A use changes nothing while the egress is one of the pool's objects, or the pool is empty;
      otherwise it goes to the proxy of the pool used longest ago, the current key included. */
  lemma UseIs(st: Egress, now: int) returns (c: nat)
    ensures var next := Step(st, Use(now));
      && next.pool == st.pool && next.loads == st.loads
      && (st.pool == [] || (st.current.Some? && st.current.value in st.pool) ==> next == st)
      && (st.pool != [] && !(st.current.Some? && st.current.value in st.pool) ==>
            && c < |st.pool| && next.current == Some(st.pool[c]) && next.lastUsed == st.lastUsed[st.pool[c].entry.key := now]
            && (forall i: nat | i < |st.pool| ::
                  && UsedAt(st, st.pool[c].entry.key) <= UsedAt(st, st.pool[i].entry.key)
                  && (i < c ==> UsedAt(st, st.pool[c].entry.key) < UsedAt(st, st.pool[i].entry.key))))
  {
    PickIsLeast(st.pool, st.lastUsed, None, |st.pool|);
    assert forall i: nat | i < |st.pool| :: Candidate(st.pool, None, st.pool[i]) && Stamp(st.lastUsed, st.pool[i]) == UsedAt(st, st.pool[i].entry.key);
    c := match PickFrom(st.pool, st.lastUsed, None, |st.pool|) case Some(b) => b case None => 0;
  }

  /** The start: the first proxy of the pool, used now, and nothing else. */
  lemma BootIs(entries: seq<Entry>, now: int)
    ensures var st := Boot(entries, now);
      && |st.pool| == |entries| && (forall i | 0 <= i < |entries| :: st.pool[i] == Proxy(entries[i], 1)) && st.loads == 1
      && (entries == [] ==> st.current == None && st.lastUsed == map[])
      && (entries != [] ==> st.current == Some(Proxy(entries[0], 1)) && st.lastUsed == map[entries[0].key := now])
  {
    var pool := Loaded(entries, 1);
    PickIsLeast(pool, map[], None, |pool|);
    if entries != [] {
      assert Candidate(pool, None, pool[0]);
      assert PickFrom(pool, map[], None, |pool|) == Some(0);
    }
  }

  // ---------------------------------------------------------------- the queue

  ghost predicate DistinctKeys(entries: seq<Entry>) {
    forall i, j | 0 <= i < j < |entries| :: entries[i].key != entries[j].key
  }

  /** The pool holds `entries`, in one load. */
  ghost predicate PoolOf(entries: seq<Entry>, st: Egress) {
    exists load :: st.pool == Loaded(entries, load)
  }

  function StampAt(st: Egress, entries: seq<Entry>, p: nat): int
    requires p < |entries|
  {
    if entries[p].key in st.lastUsed then st.lastUsed[entries[p].key] else 0
  }

  /** Position `a` is due before position `b`: it was used earlier, or neither was used and it
      comes first in the pool. */
  predicate Before(st: Egress, entries: seq<Entry>, a: nat, b: nat)
    requires a < |entries| && b < |entries|
  {
    StampAt(st, entries, a) < StampAt(st, entries, b) || (StampAt(st, entries, a) == 0 == StampAt(st, entries, b) && a < b)
  }

  /** The timestamps order the pool positions as the queue `q`: every position occurs, in the
      order in which it is due, and the last one was used at `now`. */
  ghost predicate Ordered(st: Egress, entries: seq<Entry>, q: seq<nat>, now: int) {
    && |q| == |entries| >= 2 && PoolOf(entries, st)
    && (forall i | 0 <= i < |q| :: q[i] < |entries|)
    && (forall p: nat | p < |entries| :: p in q)
    && (forall i, j | 0 <= i < j < |q| :: Before(st, entries, q[i], q[j]))
    && (forall p: nat | p < |entries| :: 0 <= StampAt(st, entries, p) <= now)
    && StampAt(st, entries, q[|q| - 1]) == now > 0
  }

  /** ... and the current egress is the one at the tail. */
  ghost predicate Represents(st: Egress, entries: seq<Entry>, q: seq<nat>, now: int) {
    && Ordered(st, entries, q, now)
    && st.current.Some? && st.current.value in st.pool && st.current.value.entry == entries[q[|q| - 1]]
  }

  function Turn(q: seq<nat>): seq<nat>
    requires q != []
  {
    q[1..] + [q[0]]
  }

  /** A reload of the same file leaves pool and stamps as they are, and so does pruning. */
  lemma ReloadKeeps(st: Egress, entries: seq<Entry>, file: Option<seq<Entry>>)
    requires PoolOf(entries, st) && (file.Some? ==> file.value == entries)
    ensures var loaded := Load(st, file);
      && PoolOf(entries, loaded) && PoolOf(entries, Prune(loaded))
      && loaded.current == Prune(loaded).current == st.current
      && forall p: nat | p < |entries| ::
           StampAt(loaded, entries, p) == StampAt(st, entries, p) == StampAt(Prune(loaded), entries, p)
  {
    var loaded := Load(st, file);
    assert PoolOf(entries, loaded) by {
      if file.Some? {
        assert loaded.pool == Loaded(entries, st.loads + 1);
      }
    }
    var load :| loaded.pool == Loaded(entries, load);
    assert Prune(loaded).pool == Loaded(entries, load);
    forall p: nat | p < |entries|
      ensures StampAt(loaded, entries, p) == StampAt(st, entries, p) == StampAt(Prune(loaded), entries, p)
    {
      assert loaded.pool[p] in loaded.pool && loaded.pool[p].entry == entries[p];
    }
  }

  /** The head of the queue is what `pickLRU` picks when the tail is excluded. */
  lemma PickIsHead(st: Egress, entries: seq<Entry>, q: seq<nat>, now: int)
    requires DistinctKeys(entries) && Ordered(st, entries, q, now)
    ensures PickFrom(st.pool, st.lastUsed, Some(entries[q[|q| - 1]].key), |st.pool|) == Some(q[0])
  {
    var load :| st.pool == Loaded(entries, load);
    var n, head, exclude := |entries|, q[0], Some(entries[q[|q| - 1]].key);
    PickIsLeast(st.pool, st.lastUsed, exclude, n);
    assert forall j | 0 < j < |q| :: Before(st, entries, q[0], q[j]);
    assert forall p: nat | p < n :: Stamp(st.lastUsed, st.pool[p]) == StampAt(st, entries, p);
    assert Candidate(st.pool, exclude, st.pool[head]);
    assert !Candidate(st.pool, exclude, st.pool[q[|q| - 1]]);
    var b := PickFrom(st.pool, st.lastUsed, exclude, n).value;
    assert b in q;
    assert b == q[0];
  }

  /** Rotating takes the head of the queue and puts it at the tail. */
  lemma RotateTurns(st: Egress, entries: seq<Entry>, q: seq<nat>, now: int, op: Op)
    requires DistinctKeys(entries) && Represents(st, entries, q, now)
    requires !op.Use? && now < op.now && (op.file.Some? ==> op.file.value == entries)
    ensures Represents(Step(st, op), entries, Turn(q), op.now)
  {
    var loaded := if op.Rotate? then Prune(Load(st, op.file)) else Load(st, op.file);
    ReloadOrdered(st, entries, q, now, op.file);
    PickIsHead(loaded, entries, q, now);
    SwitchTurns(loaded, entries, q, now, op.now);
  }

  lemma ReloadOrdered(st: Egress, entries: seq<Entry>, q: seq<nat>, now: int, file: Option<seq<Entry>>)
    requires Ordered(st, entries, q, now) && (file.Some? ==> file.value == entries)
    ensures Ordered(Load(st, file), entries, q, now) && Ordered(Prune(Load(st, file)), entries, q, now)
    ensures Load(st, file).current == Prune(Load(st, file)).current == st.current
  {
    ReloadKeeps(st, entries, file);
    hide Load, Prune, StampAt, PoolOf;
    forall i, j | 0 <= i < j < |q|
      ensures Before(Load(st, file), entries, q[i], q[j]) && Before(Prune(Load(st, file)), entries, q[i], q[j])
    {
      assert Before(st, entries, q[i], q[j]);
    }
  }

  lemma SwitchTurns(st: Egress, entries: seq<Entry>, q: seq<nat>, now: int, later: int)
    requires DistinctKeys(entries) && Ordered(st, entries, q, now) && now < later
    ensures |st.pool| == |entries| && Represents(Switch(st, Some(st.pool[q[0]]), later), entries, Turn(q), later)
  {
    var load :| st.pool == Loaded(entries, load);
    var next, turned := Switch(st, Some(st.pool[q[0]]), later), Turn(q);
    assert next.pool == Loaded(entries, load);
    forall p: nat | p < |entries| ensures StampAt(next, entries, p) == if p == q[0] then later else StampAt(st, entries, p) {
      assert p != q[0] ==> entries[p].key != entries[q[0]].key;
    }
    forall p: nat | p < |entries| ensures p in turned {
      assert p in q;
      var i :| 0 <= i < |q| && q[i] == p;
      assert turned[if i == 0 then |q| - 1 else i - 1] == p;
    }
    forall i, j | 0 <= i < j < |turned| ensures Before(next, entries, turned[i], turned[j]) {
      assert turned[i] == q[i + 1];
      assert Before(st, entries, q[0], q[i + 1]);
      if j < |q| - 1 {
        assert turned[j] == q[j + 1] && Before(st, entries, q[i + 1], q[j + 1]) && Before(st, entries, q[0], q[j + 1]);
      }
    }
    assert next.current.value in next.pool;
  }

  // ---------------------------------------------------------------- whole runs

  /** The queue after `k` rotations. */
  function QueueAt(n: nat, k: nat): seq<nat>
    requires n > 0
  {
    seq(n, i requires 0 <= i < n => (k + 1 + i) % n)
  }

  lemma QueueTurns(n: nat, k: nat)
    requires n > 0
    ensures Turn(QueueAt(n, k)) == QueueAt(n, k + 1)
  {
    var q := QueueAt(n, k);
    forall i | 0 <= i < n ensures Turn(q)[i] == QueueAt(n, k + 1)[i] {
      if i == n - 1 {
        var x := k + 1;
        assert (x / n + 1) * n == x / n * n + n;
        UniqueRemainder(x + n, n, x / n + 1, x % n);
      } else {
        assert Turn(q)[i] == q[i + 1];
      }
    }
  }

  lemma BootRepresents(entries: seq<Entry>, now: int)
    requires DistinctKeys(entries) && |entries| >= 2 && now > 0
    ensures Represents(Boot(entries, now), entries, QueueAt(|entries|, 0), now)
  {
    var n := |entries|;
    var blank := Egress(Loaded(entries, 1), map[], None, 1);
    var st, q := Boot(entries, now), QueueAt(n, 0);
    PickIsLeast(blank.pool, blank.lastUsed, None, n);
    assert Candidate(blank.pool, None, blank.pool[0]);
    assert PickFrom(blank.pool, blank.lastUsed, None, n) == Some(0);
    assert st.pool == Loaded(entries, 1) && st.current == Some(st.pool[0]);
    forall i | 0 <= i < n ensures q[i] == if i < n - 1 then i + 1 else 0 {
      UniqueRemainder(1 + i, n, if i < n - 1 then 0 else 1, if i < n - 1 then i + 1 else 0);
    }
    forall p: nat | p < n ensures p in q {
      assert q[if p == 0 then n - 1 else p - 1] == p;
    }
    forall p: nat | p < n ensures StampAt(st, entries, p) == if p == 0 then now else 0 {
      assert p != 0 ==> entries[p].key != entries[0].key;
    }
  }

  function Rotations(ops: seq<Op>): nat {
    if ops == [] then 0 else Rotations(ops[..|ops| - 1]) + if ops[|ops| - 1].Use? then 0 else 1
  }

  /** The time of the last rotation, or of the start. */
  function LastRotation(ops: seq<Op>, boot: int): int {
    if ops == [] then boot
    else if ops[|ops| - 1].Use? then LastRotation(ops[..|ops| - 1], boot)
    else ops[|ops| - 1].now
  }

  /** The pool file keeps its content (or cannot be read), and each rotation bears a later
      time than the one before. */
  predicate Steady(entries: seq<Entry>, ops: seq<Op>, boot: int) {
    ops == [] ||
    var before, op := ops[..|ops| - 1], ops[|ops| - 1];
    Steady(entries, before, boot)
    && (!op.Use? ==> LastRotation(before, boot) < op.now && (op.file.Some? ==> op.file.value == entries))
  }

  lemma LastRun(st: Egress, before: seq<Op>, op: Op)
    ensures RunOps(st, before + [op]) == Step(RunOps(st, before), op)
  {
    hide Step;
    assert (before + [op])[..|before|] == before;
  }

  lemma NoOps(st: Egress, boot: int)
    ensures RunOps(st, []) == st && LastRotation([], boot) == boot && Rotations([]) == 0
  {
  }

  lemma LastSteady(entries: seq<Entry>, before: seq<Op>, op: Op, boot: int)
    requires Steady(entries, before + [op], boot)
    ensures Steady(entries, before, boot)
    ensures !op.Use? ==> LastRotation(before, boot) < op.now && (op.file.Some? ==> op.file.value == entries)
    ensures LastRotation(before + [op], boot) == if op.Use? then LastRotation(before, boot) else op.now
    ensures Rotations(before + [op]) == Rotations(before) + if op.Use? then 0 else 1
  {
    assert (before + [op])[..|before|] == before;
  }

  /** The whole run: each rotation turns the queue once. */
  lemma {:induction false} RunRepresents(entries: seq<Entry>, ops: seq<Op>, boot: int)
    requires DistinctKeys(entries) && |entries| >= 2 && boot > 0 && Steady(entries, ops, boot)
    ensures Represents(RunOps(Boot(entries, boot), ops), entries, QueueAt(|entries|, Rotations(ops)),
                       LastRotation(ops, boot))
  {
    hide Represents, Boot, QueueAt, Step, Turn, DistinctKeys, Steady, RunOps, LastRotation, Rotations;
    if ops == [] {
      BootRepresents(entries, boot);
      NoOps(Boot(entries, boot), boot);
    } else {
      var before, op := ops[..|ops| - 1], ops[|ops| - 1];
      assert ops == before + [op];
      LastRun(Boot(entries, boot), before, op);
      LastSteady(entries, before, op, boot);
      RunRepresents(entries, before, boot);
      var st, k := RunOps(Boot(entries, boot), before), Rotations(before);
      if op.Use? {
        UseKeeps(st, entries, QueueAt(|entries|, k), LastRotation(before, boot), op);
      } else {
        RotateTurns(st, entries, QueueAt(|entries|, k), LastRotation(before, boot), op);
        QueueTurns(|entries|, k);
      }
    }
  }

  lemma UseKeeps(st: Egress, entries: seq<Entry>, q: seq<nat>, now: int, op: Op)
    requires Represents(st, entries, q, now) && op.Use?
    ensures Step(st, op) == st
  {
  }

  /** The entry on which a cycle through the pool stands after `k` steps from the first. */
  function EntryAt(entries: seq<Entry>, k: nat): Entry
    requires entries != []
  {
    entries[k % |entries|]
  }

  // ---------------------------------------------------------------- exactly when it cycles

  /** The times of the start and of the rotations. */
  function Times(ops: seq<Op>, boot: int): (ts: seq<int>)
    ensures |ts| == Rotations(ops) + 1
  {
    if ops == [] then [boot]
    else Times(ops[..|ops| - 1], boot) + if ops[|ops| - 1].Use? then [] else [ops[|ops| - 1].now]
  }

  /** The pool file keeps its content (or cannot be read), and times are positive. */
  predicate FixedPool(entries: seq<Entry>, ops: seq<Op>) {
    forall op <- ops | !op.Use? :: op.now > 0 && (op.file.Some? ==> op.file.value == entries)
  }

  /** The `j`-th choice is due again before the one `i` later: it was made earlier, or at the same
      time and stands before it in the pool. */
  predicate Ahead(ts: seq<int>, n: nat, j: nat, i: nat)
    requires n > 0 && j + i < |ts|
  {
    ts[j] < ts[j + i] || (ts[j] == ts[j + i] && j % n + i < n)
  }

  predicate AheadOfOthers(ts: seq<int>, n: nat, j: nat)
    requires n > 0 && j + n <= |ts|
  {
    forall i: nat | 1 <= i <= n - 2 :: Ahead(ts, n, j, i)
  }

  predicate TurnsInOrder(ts: seq<int>, n: nat)
    requires n > 0
  {
    forall j: nat | j + n < |ts| :: AheadOfOthers(ts, n, j)
  }

  /** The next rotation after the choices at `ts` is in turn. */
  predicate NextInTurn(ts: seq<int>, n: nat)
    requires n > 0
  {
    |ts| >= n ==> AheadOfOthers(ts, n, |ts| - n)
  }

  lemma TurnsSnoc(ts: seq<int>, n: nat, t: int)
    requires n > 0
    ensures TurnsInOrder(ts + [t], n) <==> TurnsInOrder(ts, n) && NextInTurn(ts, n)
  {
    var us := ts + [t];
    forall j: nat | j + n <= |ts| ensures AheadOfOthers(us, n, j) <==> AheadOfOthers(ts, n, j) {
      assert forall i: nat | 1 <= i <= n - 2 :: Ahead(us, n, j, i) <==> Ahead(ts, n, j, i);
    }
    if |ts| >= n {
      assert (|ts| - n) + n < |us|;
    }
  }

  /** The stamp of position `p` while the choices go round: the time of the latest one there. */
  function StampOf(ts: seq<int>, n: nat, p: nat): int
    requires n > 0
  {
    if ts == [] then 0
    else if (|ts| - 1) % n == p then ts[|ts| - 1]
    else StampOf(ts[..|ts| - 1], n, p)
  }

  lemma {:induction false} StampOfAt(ts: seq<int>, n: nat, j: nat)
    requires n > 0 && j < |ts| <= j + n
    ensures StampOf(ts, n, j % n) == ts[j]
  {
    var last := |ts| - 1;
    if j < last {
      Window(j, last - j, n);
      StampOfAt(ts[..last], n, j);
    }
  }

  lemma {:induction false} StampOfNone(ts: seq<int>, n: nat, p: nat)
    requires |ts| <= p < n
    ensures StampOf(ts, n, p) == 0
  {
    if ts != [] {
      UniqueRemainder(|ts| - 1, n, 0, |ts| - 1);
      StampOfNone(ts[..|ts| - 1], n, p);
    }
  }

  /** Going `i < n` positions on from position `j % n` of a ring. */
  lemma Window(j: nat, i: nat, n: nat)
    requires i < n
    ensures (j + i) % n == if j % n + i < n then j % n + i else j % n + i - n
    ensures i > 0 ==> (j + i) % n != j % n
  {
    if j % n + i < n {
      UniqueRemainder(j + i, n, j / n, j % n + i);
    } else {
      assert (j / n + 1) * n == j / n * n + n;
      UniqueRemainder(j + i, n, j / n + 1, j % n + i - n);
    }
  }

  /** The stamps and the current egress are those of having gone round with the choices at
      `ts`. */
  ghost predicate GoneRound(st: Egress, entries: seq<Entry>, ts: seq<int>) {
    && |entries| >= 2 && |ts| >= 1 && PoolOf(entries, st)
    && (forall p: nat | p < |entries| :: StampAt(st, entries, p) == StampOf(ts, |entries|, p))
    && st.current.Some? && st.current.value.entry == EntryAt(entries, |ts| - 1)
  }

  ghost predicate Cycling(st: Egress, entries: seq<Entry>, ts: seq<int>) {
    GoneRound(st, entries, ts) && st.current.Some? && st.current.value in st.pool
  }

  /** What `PickIsLeast` says, position by position. */
  predicate Chosen(ts: seq<int>, n: nat, b: nat)
    requires n > 0
  {
    && b < n && b != (|ts| - 1) % n
    && (forall p: nat | p < n && p != (|ts| - 1) % n :: StampOf(ts, n, b) <= StampOf(ts, n, p))
    && (forall p: nat | p < b && p != (|ts| - 1) % n :: StampOf(ts, n, b) < StampOf(ts, n, p))
  }

  lemma PickIsChosen(st: Egress, entries: seq<Entry>, ts: seq<int>)
    requires DistinctKeys(entries) && GoneRound(st, entries, ts)
    ensures |st.pool| == |entries|
    ensures var b := PickFrom(st.pool, st.lastUsed, CurrentKey(st), |st.pool|);
      b.Some? && Chosen(ts, |entries|, b.value)
  {
    var load :| st.pool == Loaded(entries, load);
    var n, last := |entries|, (|ts| - 1) % |entries|;
    hide StampOf;
    PickIsLeast(st.pool, st.lastUsed, CurrentKey(st), n);
    assert forall p: nat | p < n :: Stamp(st.lastUsed, st.pool[p]) == StampAt(st, entries, p);
    forall p: nat | p < n ensures Candidate(st.pool, CurrentKey(st), st.pool[p]) <==> p != last {
      assert p != last ==> entries[p].key != entries[last].key;
    }
    var other := if last == 0 then 1 else 0;
    assert Candidate(st.pool, CurrentKey(st), st.pool[other]);
  }

  /** The choice is the next position exactly when the stamps put it first. */
  lemma ChosenInTurn(ts: seq<int>, n: nat, b: nat)
    requires n >= 2 && |ts| >= 1 && Chosen(ts, n, b) && forall t <- ts :: t > 0
    ensures b == |ts| % n <==> NextInTurn(ts, n)
  {
    hide StampOf;
    if |ts| < n {
      ChosenFresh(ts, n, b);
    } else if b == |ts| % n {
      var j: nat := |ts| - n;
      forall i: nat | 1 <= i <= n - 2 ensures Ahead(ts, n, j, i) {
        ChosenAhead(ts, n, b, i);
      }
    } else if NextInTurn(ts, n) {
      NotAhead(ts, n, b);
    }
  }

  /** While some position has not been chosen yet, the first of them is next. */
  lemma ChosenFresh(ts: seq<int>, n: nat, b: nat)
    requires n >= 2 && 1 <= |ts| < n && Chosen(ts, n, b) && forall t <- ts :: t > 0
    ensures b == |ts| % n
  {
    hide StampOf;
    var k := |ts|;
    UniqueRemainder(k, n, 0, k);
    UniqueRemainder(k - 1, n, 0, k - 1);
    StampOfNone(ts, n, k);
    if b >= k {
      StampOfNone(ts, n, b);
    }
    forall p: nat | p < k ensures StampOf(ts, n, p) > 0 {
      UniqueRemainder(p, n, 0, p);
      StampOfAt(ts, n, p);
      assert ts[p] in ts;
    }
  }

  lemma TurnStamp(ts: seq<int>, n: nat, i: nat)
    requires i < n <= |ts|
    ensures StampOf(ts, n, (|ts| - n + i) % n) == ts[|ts| - n + i]
    ensures |ts| % n == (|ts| - n) % n
  {
    hide StampOf;
    var j: nat := |ts| - n;
    assert (j / n + 1) * n == j / n * n + n;
    UniqueRemainder(|ts|, n, j / n + 1, j % n);
    StampOfAt(ts, n, j + i);
  }

  lemma ChosenAhead(ts: seq<int>, n: nat, b: nat, i: nat)
    requires n >= 2 && |ts| >= n && Chosen(ts, n, b) && b == |ts| % n && 1 <= i <= n - 2
    ensures Ahead(ts, n, |ts| - n, i)
  {
    hide StampOf;
    var j: nat := |ts| - n;
    TurnStamp(ts, n, 0);
    TurnStamp(ts, n, i);
    Window(j, i, n);
    Window(j + i, n - 1 - i, n);
    var p := (j + i) % n;
    assert p < n && p != (|ts| - 1) % n && StampOf(ts, n, p) == ts[j + i];
  }

  lemma NotAhead(ts: seq<int>, n: nat, b: nat)
    requires n >= 2 && |ts| >= n && Chosen(ts, n, b) && b != |ts| % n
    ensures !NextInTurn(ts, n)
  {
    hide StampOf;
    var j: nat := |ts| - n;
    TurnStamp(ts, n, 0);
    var i := if b > j % n then b - j % n else b + n - j % n;
    Window(j, i, n);
    Window(j, n - 1, n);
    assert (j + i) % n == b && j + (n - 1) == |ts| - 1;
    TurnStamp(ts, n, i);
    assert StampOf(ts, n, b) == ts[j + i];
    Window(j, 0, n);
    assert j % n != (|ts| - 1) % n;
    assert StampOf(ts, n, b) <= StampOf(ts, n, j % n);
    assert !Ahead(ts, n, j, i);
  }

  lemma SwitchCycles(st: Egress, entries: seq<Entry>, ts: seq<int>, now: int)
    requires DistinctKeys(entries) && GoneRound(st, entries, ts)
    ensures |st.pool| == |entries|
    ensures Cycling(Switch(st, Some(st.pool[|ts| % |entries|]), now), entries, ts + [now])
  {
    var load :| st.pool == Loaded(entries, load);
    var b := |ts| % |entries|;
    var next := Switch(st, Some(st.pool[b]), now);
    assert next.pool == Loaded(entries, load);
    assert (ts + [now])[..|ts|] == ts;
    forall p: nat | p < |entries| ensures StampAt(next, entries, p) == StampOf(ts + [now], |entries|, p) {
      assert p != b ==> entries[p].key != entries[b].key;
    }
    assert next.current.value in next.pool;
  }

  lemma ReloadCycles(st: Egress, entries: seq<Entry>, ts: seq<int>, op: Op)
    requires GoneRound(st, entries, ts) && !op.Use? && (op.file.Some? ==> op.file.value == entries)
    ensures GoneRound(AfterReload(st, op), entries, ts) && AfterReload(st, op).pool != []
  {
    hide StampOf, StampAt;
    ReloadKeeps(st, entries, op.file);
    var loaded := AfterReload(st, op);
    var load :| loaded.pool == Loaded(entries, load);
  }

  function AfterReload(st: Egress, op: Op): Egress
    requires !op.Use?
  {
    if op.Rotate? then Prune(Load(st, op.file)) else Load(st, op.file)
  }

  /** One rotation goes to the next entry exactly when that entry is in turn. */
  lemma RotationInTurn(st: Egress, entries: seq<Entry>, ts: seq<int>, op: Op)
    requires DistinctKeys(entries) && GoneRound(st, entries, ts) && forall t <- ts :: t > 0
    requires !op.Use? && (op.file.Some? ==> op.file.value == entries)
    ensures var next := Step(st, op);
      && next.current.Some?
      && (next.current.value.entry == EntryAt(entries, |ts|) <==> NextInTurn(ts, |entries|))
      && (NextInTurn(ts, |entries|) ==> Cycling(next, entries, ts + [op.now]))
  {
    hide NextInTurn, StampOf, StampAt;
    var n, loaded := |entries|, AfterReload(st, op);
    ReloadCycles(st, entries, ts, op);
    PickIsChosen(loaded, entries, ts);
    var b := PickFrom(loaded.pool, loaded.lastUsed, CurrentKey(loaded), n).value;
    ChosenInTurn(ts, n, b);
    SwitchCycles(loaded, entries, ts, op.now);
    EntryOfPick(loaded, entries, b);
    assert Step(st, op) == Switch(loaded, Some(loaded.pool[b]), op.now);
    assert b != |ts| % n ==> entries[b].key != entries[|ts| % n].key;
  }

  lemma EntryOfPick(st: Egress, entries: seq<Entry>, b: nat)
    requires PoolOf(entries, st) && b < |entries|
    ensures |st.pool| == |entries| && st.pool[b].entry == entries[b]
  {
    var load :| st.pool == Loaded(entries, load);
  }

  /** After every operation the egress is the entry that is next in the cycle. */
  ghost predicate Cycles(entries: seq<Entry>, ops: seq<Op>, boot: int)
    requires entries != []
  {
    var st := RunOps(Boot(entries, boot), ops);
    && (ops != [] ==> Cycles(entries, ops[..|ops| - 1], boot))
    && st.current.Some? && st.current.value.entry == EntryAt(entries, Rotations(ops))
  }

  lemma BootCycles(entries: seq<Entry>, boot: int)
    requires DistinctKeys(entries) && |entries| >= 2
    ensures Cycling(Boot(entries, boot), entries, [boot])
  {
    var n := |entries|;
    var blank := Egress(Loaded(entries, 1), map[], None, 1);
    var st := Boot(entries, boot);
    PickIsLeast(blank.pool, blank.lastUsed, None, n);
    assert Candidate(blank.pool, None, blank.pool[0]);
    assert PickFrom(blank.pool, blank.lastUsed, None, n) == Some(0);
    assert st.pool == Loaded(entries, 1) && st.current == Some(st.pool[0]);
    UniqueRemainder(0, n, 0, 0);
    assert [boot][..0] == [];
    forall p: nat | p < n ensures StampAt(st, entries, p) == StampOf([boot], n, p) {
      assert p != 0 ==> entries[p].key != entries[0].key;
    }
  }

  lemma LastTime(before: seq<Op>, op: Op, boot: int)
    ensures Times(before + [op], boot) == Times(before, boot) + if op.Use? then [] else [op.now]
  {
    assert (before + [op])[..|before|] == before;
  }

  lemma LastCycle(entries: seq<Entry>, before: seq<Op>, op: Op, boot: int)
    requires entries != []
    ensures var ops := before + [op];
      var st := RunOps(Boot(entries, boot), ops);
      Cycles(entries, ops, boot)
      <==> Cycles(entries, before, boot) && st.current.Some? && st.current.value.entry == EntryAt(entries, Rotations(ops))
  {
    hide Step, Boot, EntryAt, RunOps, Rotations;
    assert (before + [op])[..|before|] == before;
  }

  /** What the functions of a run say about its last operation. */
  lemma LastOperation(entries: seq<Entry>, before: seq<Op>, op: Op, boot: int)
    requires entries != []
    ensures var ops, st, ts := before + [op], RunOps(Boot(entries, boot), before), Times(before, boot);
      && RunOps(Boot(entries, boot), ops) == Step(st, op)
      && Times(ops, boot) == (if op.Use? then ts else ts + [op.now])
      && (Cycles(entries, ops, boot)
          <==> Cycles(entries, before, boot) && Step(st, op).current.Some?
               && Step(st, op).current.value.entry == EntryAt(entries, if op.Use? then |ts| - 1 else |ts|))
  {
    hide Step, Boot, EntryAt, RunOps, Times, Cycles, Rotations;
    LastRun(Boot(entries, boot), before, op);
    LastTime(before, op, boot);
    LastCycle(entries, before, op, boot);
    Unit(Times(before, boot));
  }

  lemma FixedLast(entries: seq<Entry>, before: seq<Op>, op: Op)
    requires FixedPool(entries, before + [op])
    ensures FixedPool(entries, before)
    ensures !op.Use? ==> op.now > 0 && (op.file.Some? ==> op.file.value == entries)
  {
    var ops := before + [op];
    assert op in ops && forall x <- before :: x in ops;
  }

  lemma {:induction false} CyclesUntil(entries: seq<Entry>, ops: seq<Op>, boot: int)
    requires DistinctKeys(entries) && |entries| >= 2 && boot > 0 && FixedPool(entries, ops)
    ensures Cycles(entries, ops, boot) <==> TurnsInOrder(Times(ops, boot), |entries|)
    ensures Cycles(entries, ops, boot) ==> Cycling(RunOps(Boot(entries, boot), ops), entries, Times(ops, boot))
    ensures forall t <- Times(ops, boot) :: t > 0
  {
    if ops == [] {
      hide DistinctKeys, Cycling, TurnsInOrder, Boot, Step, EntryAt;
      BootCycles(entries, boot);
      CyclingIs(RunOps(Boot(entries, boot), ops), entries, [boot]);
      NoTurns(boot, |entries|);
    } else {
      hide DistinctKeys, Cycling, TurnsInOrder, Boot, Step, EntryAt, RunOps, Times, Cycles, FixedPool, NextInTurn;
      var before, op := ops[..|ops| - 1], ops[|ops| - 1];
      assert ops == before + [op];
      FixedLast(entries, before, op);
      LastOperation(entries, before, op, boot);
      CyclesUntil(entries, before, boot);
      var st, ts := RunOps(Boot(entries, boot), before), Times(before, boot);
      TurnsSnoc(ts, |entries|, op.now);
      if Cycles(entries, before, boot) {
        CyclingIs(st, entries, ts);
        if op.Use? {
          UseStays(st, entries, ts, op);
        } else {
          RotationInTurn(st, entries, ts, op);
        }
      }
    }
  }

  lemma CyclingIs(st: Egress, entries: seq<Entry>, ts: seq<int>)
    requires Cycling(st, entries, ts)
    ensures GoneRound(st, entries, ts)
    ensures entries != [] && |ts| >= 1 && st.current.Some? && st.current.value.entry == EntryAt(entries, |ts| - 1)
  {
  }

  lemma NoTurns(boot: int, n: nat)
    requires n >= 2
    ensures TurnsInOrder([boot], n)
  {
  }

  lemma UseStays(st: Egress, entries: seq<Entry>, ts: seq<int>, op: Op)
    requires Cycling(st, entries, ts) && op.Use?
    ensures Step(st, op) == st
  {
  }

  /** The exact law: with a fixed pool of at least two distinct proxies and positive times, the
      egress after `k` rotations is always entry `k mod n`, however often it was used in between,
      if and only if every choice comes due again before the `n - 2` that followed it. */
  lemma CyclesExactly(entries: seq<Entry>, ops: seq<Op>, boot: int)
    requires DistinctKeys(entries) && |entries| >= 2 && boot > 0 && FixedPool(entries, ops)
    ensures Cycles(entries, ops, boot) <==> TurnsInOrder(Times(ops, boot), |entries|)
  {
    CyclesUntil(entries, ops, boot);
  }

  /** Two proxies alternate whatever the times are. */
  lemma TwoAlternate(entries: seq<Entry>, ops: seq<Op>, boot: int)
    requires DistinctKeys(entries) && |entries| == 2 && boot > 0 && FixedPool(entries, ops)
    ensures Cycles(entries, ops, boot)
  {
    CyclesExactly(entries, ops, boot);
  }

  /** With more proxies and all times the same, as when errors force one rotation after the
      other, the cycle breaks at rotation `n + 2`. */
  lemma TiedCyclesExactly(entries: seq<Entry>, ops: seq<Op>, boot: int)
    requires DistinctKeys(entries) && |entries| >= 3 && boot > 0 && FixedPool(entries, ops)
    requires forall t <- Times(ops, boot) :: t == boot
    ensures Cycles(entries, ops, boot) <==> Rotations(ops) <= |entries| + 1
  {
    var ts, n := Times(ops, boot), |entries|;
    hide Times, Cycles;
    CyclesExactly(entries, ops, boot);
    forall j: nat, i: nat | j + i < |ts| ensures Ahead(ts, n, j, i) <==> j % n + i < n {
      assert ts[j] in ts && ts[j + i] in ts;
    }
    if |ts| <= n + 2 {
      forall j: nat | j + n < |ts| ensures AheadOfOthers(ts, n, j) {
        UniqueRemainder(j, n, 0, j);
      }
    } else {
      UniqueRemainder(2, n, 0, 2);
      assert !Ahead(ts, n, 2, n - 2);
      assert !AheadOfOthers(ts, n, 2);
    }
  }

  lemma {:induction false} SteadyTimes(entries: seq<Entry>, ops: seq<Op>, boot: int)
    requires Steady(entries, ops, boot) && boot > 0
    ensures var ts := Times(ops, boot);
      Increasing(ts) && ts[|ts| - 1] == LastRotation(ops, boot) > 0 && FixedPool(entries, ops)
  {
    if ops != [] {
      SteadyTimes(entries, ops[..|ops| - 1], boot);
      var before, op := ops[..|ops| - 1], ops[|ops| - 1];
      assert forall x <- ops :: x in before || x == op;
    }
  }

  /** So strictly increasing times are enough: the egress after `k` rotations is entry
      `k mod n` of the pool. */
  lemma EgressCycles(entries: seq<Entry>, ops: seq<Op>, boot: int)
    requires DistinctKeys(entries) && |entries| >= 2 && boot > 0 && Steady(entries, ops, boot)
    ensures var st := RunOps(Boot(entries, boot), ops);
      st.current.Some? && st.current.value.entry == EntryAt(entries, Rotations(ops))
  {
    hide RunOps, Boot, Times, DistinctKeys, Steady, FixedPool;
    SteadyTimes(entries, ops, boot);
    CyclesExactly(entries, ops, boot);
  }

  /** The egress chosen by each rotation, in order. */
  function Visited(st: Egress, ops: seq<Op>): seq<Option<Proxy>> {
    if ops == [] then []
    else
      Visited(st, ops[..|ops| - 1]) + if ops[|ops| - 1].Use? then [] else [RunOps(st, ops).current]
  }

  lemma {:induction false} VisitedInOrder(entries: seq<Entry>, ops: seq<Op>, boot: int)
    requires DistinctKeys(entries) && |entries| >= 2 && boot > 0 && Steady(entries, ops, boot)
    ensures var v := Visited(Boot(entries, boot), ops);
      && |v| == Rotations(ops)
      && forall i | 0 <= i < |v| :: v[i].Some? && v[i].value.entry == EntryAt(entries, i + 1)
  {
    hide Boot, RunOps, DistinctKeys, EntryAt;
    if ops != [] {
      VisitedInOrder(entries, ops[..|ops| - 1], boot);
      EgressCycles(entries, ops, boot);
    }
  }

  /** Any `n` consecutive rotations visit every proxy exactly once, and no rotation keeps the
      egress it started from. */
  lemma WindowVisitsEachOnce(entries: seq<Entry>, ops: seq<Op>, boot: int, from: nat, p: nat)
    requires DistinctKeys(entries) && |entries| >= 2 && boot > 0 && Steady(entries, ops, boot)
    requires p < |entries| && from + |entries| <= Rotations(ops)
    ensures var v := Visited(Boot(entries, boot), ops);
      && |v| == Rotations(ops)
      && (exists i :: from <= i < from + |entries| && v[i].Some? && v[i].value.entry == entries[p])
      && (forall i, j | from <= i < j < from + |entries| :: v[i] != v[j])
  {
    hide Boot, Visited, Steady;
    VisitedInOrder(entries, ops, boot);
    var n := |entries|;
    var i := WindowPosition(n, from, p);
    var v := Visited(Boot(entries, boot), ops);
    assert v[i].value.entry == EntryAt(entries, i + 1);
    forall i, j | from <= i < j < from + n ensures v[i] != v[j] {
      WindowDistinct(n, i, j);
      var a, b := (i + 1) % n, (j + 1) % n;
      assert entries[a].key != entries[b].key;
    }
  }

  lemma WindowPosition(n: nat, from: nat, p: nat) returns (i: nat)
    requires p < n
    ensures from <= i < from + n && (i + 1) % n == p
  {
    var x := from + 1;
    var r := x % n;
    i := if r <= p then from + (p - r) else from + n + p - r;
    assert (x / n + 1) * n == x / n * n + n;
    UniqueRemainder(i + 1, n, if r <= p then x / n else x / n + 1, p);
  }

  lemma WindowDistinct(n: nat, i: nat, j: nat)
    requires i < j < i + n
    ensures (i + 1) % n != (j + 1) % n
  {
    var x := i + 1;
    var d := j - i;
    if x % n + d < n {
      UniqueRemainder(x + d, n, x / n, x % n + d);
    } else {
      assert (x / n + 1) * n == x / n * n + n;
      UniqueRemainder(x + d, n, x / n + 1, x % n + d - n);
    }
  }

  // ---------------------------------------------------------------- the module in place

  class ForwardProxy {
    var pool: seq<Proxy>
    var lastUsed: map<Key, int>
    var current: Option<Proxy>
    var loads: nat

    ghost function State(): Egress
      reads this
    {
      Egress(pool, lastUsed, current, loads)
    }

    /** Start-up with a pool file that can be read. */
    constructor (entries: seq<Entry>, now: int)
      ensures State() == Boot(entries, now)
    {
      pool, lastUsed, current, loads := Loaded(entries, 1), map[], None, 1;
      new;
      var p := PickLRU(None);
      current := p;
      if p.Some? {
        lastUsed := lastUsed[p.value.entry.key := now];
      }
    }

    /** `loadPool`. */
    method LoadPool(file: Option<seq<Entry>>)
      modifies this`pool, this`loads
      ensures State() == Load(old(State()), file)
    {
      if file.Some? {
        loads := loads + 1;
        pool := Loaded(file.value, loads);
      }
    }

    /** `pickLRU`: a loop with a running minimum. */
    method PickLRU(exclude: Option<Key>) returns (best: Option<Proxy>)
      ensures best == Pick(State(), exclude)
    {
      best := None;
      var bestStamp: Option<int> := None;
      var i := 0;
      while i < |pool|
        invariant i <= |pool|
        invariant var b := PickFrom(pool, lastUsed, exclude, i);
          && best == (if b.None? then None else Some(pool[b.value]))
          && bestStamp == (if b.None? then None else Some(Stamp(lastUsed, pool[b.value])))
      {
        if Candidate(pool, exclude, pool[i]) {
          var stamp := Stamp(lastUsed, pool[i]);
          if bestStamp.None? || stamp < bestStamp.value {
            bestStamp, best := Some(stamp), Some(pool[i]);
          }
        }
        i := i + 1;
      }
    }

    /** `useEgress`. */
    method UseEgress(now: int) returns (p: Option<Proxy>)
      modifies this`current, this`lastUsed
      ensures State() == Step(old(State()), Use(now))
      ensures p == if pool == [] then None else current
    {
      if pool == [] {
        return None;
      }
      if current.None? || current.value !in pool {
        current := PickLRU(None);
        if current.Some? {
          lastUsed := lastUsed[current.value.entry.key := now];
        }
      }
      return current;
    }

    /** `rotateTick`. */
    method RotateTick(file: Option<seq<Entry>>, now: int)
      modifies this
      ensures State() == Step(old(State()), Rotate(file, now))
    {
      LoadPool(file);
      var valid := set p <- pool :: p.entry.key;
      lastUsed := map k <- lastUsed | k in valid :: lastUsed[k];
      if pool == [] {
        return;
      }
      Reselect(now);
    }

    /** The `/__rotate` endpoint. */
    method RotateNow(file: Option<seq<Entry>>, now: int)
      modifies this
      ensures State() == Step(old(State()), RotateOnError(file, now))
    {
      LoadPool(file);
      Reselect(now);
    }

    method Reselect(now: int)
      modifies this`current, this`lastUsed
      ensures State() == Switch(old(State()), Pick(old(State()), CurrentKey(old(State()))), now)
    {
      var p := PickLRU(match current case None => None case Some(c) => Some(c.entry.key));
      if p.Some? {
        current := p;
      }
      if current.Some? {
        lastUsed := lastUsed[current.value.entry.key := now];
      }
    }
  }
}
