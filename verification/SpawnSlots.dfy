/** `claimSpawnSlot`: a chain of promises that spaces worker spawns.  Claim `k` waits for the
    promise of the claim before it; its own promise is resolved by a timer that its spawn
    attempt starts, whether or not the attempt succeeds.
 */
module SpawnSlots {
  import opened Wrappers

  const SPACING := 5000

  /** `waits[k]` is the promise claim `k` waits for, None standing for the initial, resolved
      one; `slot` is the promise the next claim will wait for. */
  datatype Gate = Gate(
    waits: seq<Option<nat>>, slot: Option<nat>, spawnAt: map<nat, int>, timers: map<nat, int>, resolved: set<nat>, now: int)

  datatype Event =
    | Claim(t: int)
    | Spawn(claim: nat, t: int)
    | TimerFires(claim: nat, t: int)

  const Closed := Gate([], None, map[], map[], {}, 0)

  /** Time does not go back, a claim spawns once its predecessor's promise is resolved, and a
      timer does not fire early. */
  predicate Enabled(g: Gate, e: Event) {
    g.now <= e.t &&
    match e
    case Claim(_) => true
    case Spawn(k, _) =>
      k < |g.waits| && k !in g.spawnAt && (g.waits[k].Some? ==> g.waits[k].value in g.resolved)
    case TimerFires(k, t) => k in g.timers && k !in g.resolved && g.timers[k] <= t
  }

  function Next(g: Gate, e: Event): Gate {
    match e
    case Claim(t) => g.(waits := g.waits + [g.slot], slot := Some(|g.waits|), now := t)
    case Spawn(k, t) => g.(spawnAt := g.spawnAt[k := t], timers := g.timers[k := t + SPACING], now := t)
    case TimerFires(k, t) => g.(resolved := g.resolved + {k}, now := t)
  }

  /** A claim waits for the one before it; a spawn attempt at `t` starts a timer that is due at
      `t + 5000`; only a timer that fires lets the next claim go. */
  lemma NextIs(g: Gate, e: Event, k: nat)
    requires Enabled(g, e)
    ensures var next := Next(g, e);
      && next.now == e.t && g.waits <= next.waits
      && (k in next.spawnAt <==> k in g.spawnAt || (e.Spawn? && e.claim == k))
      && (k in next.resolved <==> k in g.resolved || (e.TimerFires? && e.claim == k))
      && (e.Claim? ==> next.waits == g.waits + [g.slot] && next.slot == Some(|g.waits|))
      && (e.Spawn? ==> next.spawnAt[e.claim] == e.t && e.claim in next.timers && next.timers[e.claim] == e.t + 5000)
      && (!e.Claim? ==> next.waits == g.waits && next.slot == g.slot)
  {
  }

  function Run(es: seq<Event>): Gate {
    if es == [] then Closed else Next(Run(es[..|es| - 1]), es[|es| - 1])
  }

  ghost predicate Possible(es: seq<Event>) {
    es == [] || (Possible(es[..|es| - 1]) && Enabled(Run(es[..|es| - 1]), es[|es| - 1]))
  }

  /** Each claim waits for the one before it. */
  ghost predicate InLine(waits: seq<Option<nat>>, slot: Option<nat>) {
    && (forall k | 0 <= k < |waits| :: waits[k] == if k == 0 then None else Some(k - 1))
    && slot == if |waits| == 0 then None else Some(|waits| - 1)
  }

  /** A spawn started its own timer, and its predecessor's timer had fired by then. */
  ghost predicate SpawnedAfterTimer(g: Gate, k: nat) {
    && k < |g.waits|
    && k in g.spawnAt && k in g.timers && g.timers[k] == g.spawnAt[k] + SPACING
    && g.spawnAt[k] <= g.now
    && (k > 0 ==> k - 1 in g.resolved && k - 1 in g.timers && g.timers[k - 1] <= g.spawnAt[k])
  }

  ghost predicate Fired(g: Gate, k: nat) {
    k in g.spawnAt && k in g.timers && g.timers[k] <= g.now
  }

  ghost predicate Chained(g: Gate) {
    && InLine(g.waits, g.slot)
    && g.timers.Keys == g.spawnAt.Keys
    && (forall k <- g.spawnAt :: SpawnedAfterTimer(g, k))
    && (forall k <- g.resolved :: Fired(g, k))
  }

  lemma ClaimChained(g: Gate, t: int)
    requires Chained(g) && Enabled(g, Claim(t))
    ensures Chained(Next(g, Claim(t)))
  {
    var h := Next(g, Claim(t));
    forall k | k in h.spawnAt ensures SpawnedAfterTimer(h, k) {
      assert SpawnedAfterTimer(g, k);
    }
    forall k | k in h.resolved ensures Fired(h, k) {
      assert Fired(g, k);
    }
  }

  lemma SpawnChained(g: Gate, c: nat, t: int)
    requires Chained(g) && Enabled(g, Spawn(c, t))
    ensures Chained(Next(g, Spawn(c, t)))
  {
    var h := Next(g, Spawn(c, t));
    forall k | k in h.spawnAt ensures SpawnedAfterTimer(h, k) {
      if k == c {
        if k > 0 { assert Fired(g, k - 1); }
      } else {
        assert SpawnedAfterTimer(g, k);
        if k > 0 { assert Fired(g, k - 1); }
      }
    }
    forall k | k in h.resolved ensures Fired(h, k) {
      assert Fired(g, k);
    }
  }

  lemma TimerChained(g: Gate, c: nat, t: int)
    requires Chained(g) && Enabled(g, TimerFires(c, t))
    ensures Chained(Next(g, TimerFires(c, t)))
  {
    var h := Next(g, TimerFires(c, t));
    forall k | k in h.spawnAt ensures SpawnedAfterTimer(h, k) {
      assert SpawnedAfterTimer(g, k);
    }
    forall k | k in h.resolved ensures Fired(h, k) {
      if k != c { assert Fired(g, k); }
    }
  }

  lemma NextChained(g: Gate, e: Event)
    requires Chained(g) && Enabled(g, e)
    ensures Chained(Next(g, e))
  {
    match e
    case Claim(t) => ClaimChained(g, t);
    case Spawn(c, t) => SpawnChained(g, c, t);
    case TimerFires(c, t) => TimerChained(g, c, t);
  }

  lemma {:induction false} RunChained(es: seq<Event>)
    requires Possible(es)
    ensures Chained(Run(es))
  {
    if es != [] {
      RunChained(es[..|es| - 1]);
      NextChained(Run(es[..|es| - 1]), es[|es| - 1]);
    }
  }

  lemma {:induction false} SpacedFrom(g: Gate, i: nat, j: nat)
    requires Chained(g) && j in g.spawnAt && i <= j
    ensures i in g.spawnAt && g.spawnAt[j] - g.spawnAt[i] >= SPACING * (j - i)
    decreases j
  {
    if i < j {
      assert SpawnedAfterTimer(g, j);
      assert Fired(g, j - 1);
      assert SpawnedAfterTimer(g, j - 1);
      SpacedFrom(g, i, j - 1);
    }
  }

  /** Over every run, spawns happen in claim order, and the spawn of claim `j` comes at least
      5000 milliseconds for each claim in between after that of an earlier claim `i`. */
  lemma SpawnsAreSpaced(es: seq<Event>, i: nat, j: nat)
    requires Possible(es) && i <= j && j in Run(es).spawnAt
    ensures i in Run(es).spawnAt && Run(es).spawnAt[j] - Run(es).spawnAt[i] >= 5000 * (j - i)
  {
    RunChained(es);
    SpacedFrom(Run(es), i, j);
  }

  /** The line never jams: the first claim that has not spawned either may spawn, or waits for
      a timer that is running and may fire as soon as it is due, 5000 milliseconds after the spawn
      before. */
  lemma {:induction false} FirstInLineProceeds(es: seq<Event>, k: nat, t: int)
    requires Possible(es) && k < |Run(es).waits| && k !in Run(es).spawnAt
    requires k > 0 ==> k - 1 in Run(es).spawnAt
    requires Run(es).now <= t
    ensures k > 0 ==> k - 1 in Run(es).timers && Run(es).timers[k - 1] == Run(es).spawnAt[k - 1] + 5000
    ensures (
      || Enabled(Run(es), Spawn(k, t))
      || (k > 0 && (Run(es).timers[k - 1] <= t ==> Enabled(Run(es), TimerFires(k - 1, t))))
    )
  {
    RunChained(es);
    if k > 0 {
      assert SpawnedAfterTimer(Run(es), k - 1);
    }
  }

  class Dispatcher {
    var waits: seq<Option<nat>>
    var slot: Option<nat>
    var spawnAt: map<nat, int>
    var timers: map<nat, int>
    var resolved: set<nat>
    var now: int

    function State(): (g: Gate)
      reads this
    {
      Gate(waits, slot, spawnAt, timers, resolved, now)
    }

    constructor ()
      ensures State() == Closed
    {
      waits, slot, spawnAt, timers, resolved, now := [], None, map[], map[], {}, 0;
    }

    /** `claimSpawnSlot`, up to the wait for the previous promise. */
    method Claim(t: int) returns (k: nat)
      requires now <= t
      modifies this
      ensures k == old(|waits|) && State() == Next(old(State()), Event.Claim(t))
    {
      k := |waits|;
      var previous := slot;
      slot := Some(k);
      waits := waits + [previous];
      now := t;
    }

    /** The continuation of claim `k`.  Both the success path and the catch block start the
        timer; only the success path has a child. */
    method Attempt(k: nat, t: int, spawns: bool) returns (child: bool)
      requires Enabled(State(), Event.Spawn(k, t))
      modifies this
      ensures child == spawns && State() == Next(old(State()), Event.Spawn(k, t))
    {
      now := t;
      spawnAt := spawnAt[k := t];
      if spawns {
        timers := timers[k := t + SPACING];
        return true;
      }
      timers := timers[k := t + SPACING];
      return false;
    }

    method Fire(k: nat, t: int)
      requires Enabled(State(), Event.TimerFires(k, t))
      modifies this
      ensures State() == Next(old(State()), Event.TimerFires(k, t))
    {
      now := t;
      resolved := resolved + {k};
    }
  }
}
