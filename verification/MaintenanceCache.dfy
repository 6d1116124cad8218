/** The cached maintenance state under concurrent readers and writers. Each step
    below is what one goroutine does while no other can see it half done: a lock
    acquisition, a database read, a commit, or the filling of the cache. */
module MaintenanceCache {
  import opened Wrappers

  /** In milliseconds: how long a value is served, and how long a query may take. */
  const TTL := 1000
  const TIMEOUT := 5000

  /** A state with its switch, or the error of the query; both are cached. */
  datatype Reading = State(enabled: bool) | Failed

  /** `loaded` is None for the zero time. The version and the time of the read are
      bookkeeping of the model. */
  datatype Cache = Cache(loaded: Option<nat>, reading: Reading, version: nat, readAt: nat)

  predicate Fresh(c: Cache, now: nat) {
    c.loaded.Some? && now - c.loaded.value < TTL
  }

  /** A writer between its commit and its return, with the version it committed. */
  datatype Writer = Committed(version: nat) | Invalidated(version: nat)

  /** A reader that holds the mutex, before and after the database read for it. */
  datatype Query =
    | Asking(since: nat)
    | Answered(since: nat, reading: Reading, version: nat, readAt: nat)

  /** What one call returned, and the newest write acknowledged by then. */
  datatype Return = Return(reading: Reading, version: nat, readAt: nat, stamp: nat, at: nat, acknowledged: nat)

  /** `store[v]` is the switch after the v-th commit of any process. */
  datatype System = System(now: nat, store: seq<bool>, cache: Cache, mutex: Option<Query>,
                           writers: map<nat, Writer>, acknowledged: nat, served: seq<Return>)

  datatype Step =
    | Tick
    | Commit(writer: nat, enabled: bool)
    | Unwrapped(enabled: bool)
    | Invalidate(writer: nat)
    | Acknowledge(writer: nat)
    | Call(force: bool)
    | Answer(ok: bool)
    | Finish(cancelled: bool)

  /** The query's own deadline has passed; the caller's context may still be good. */
  predicate Late(s: System, q: Query) {
    s.now > q.since + TIMEOUT
  }

  predicate Enabled(s: System, step: Step) {
    match step
    case Tick => true
    case Commit(w, _) => w !in s.writers
    case Unwrapped(_) => true
    case Invalidate(w) => w in s.writers && s.writers[w].Committed? && s.mutex.None?
    case Acknowledge(w) => w in s.writers && s.writers[w].Invalidated?
    case Call(_) => s.mutex.None?
    case Answer(_) => s.mutex.Some? && s.mutex.value.Asking?
    case Finish(cancelled) => s.mutex.Some? && (s.mutex.value.Answered? || cancelled || Late(s, s.mutex.value))
  }

  function Newest(s: System): nat
    requires s.store != []
  {
    |s.store| - 1
  }

  /** The cache after a query: what was read, or the error of a deadline that passed
      before the answer arrived. */
  function Filled(s: System, q: Query): Cache
    requires s.store != [] && (q.Answered? || Late(s, q))
  {
    if Late(s, q) then Cache(Some(s.now), Failed, Newest(s), s.now)
    else Cache(Some(s.now), q.reading, q.version, q.readAt)
  }

  function Returned(s: System, c: Cache): Return
    requires c.loaded.Some?
  {
    Return(c.reading, c.version, c.readAt, c.loaded.value, s.now, s.acknowledged)
  }

  function Next(s: System, step: Step): System
    requires s.store != [] && Enabled(s, step)
  {
    match step
    case Tick => s.(now := s.now + 1)
    case Commit(w, enabled) => s.(store := s.store + [enabled], writers := s.writers[w := Committed(|s.store|)])
    case Unwrapped(enabled) => s.(store := s.store + [enabled])
    case Invalidate(w) =>
      s.(cache := s.cache.(loaded := None), writers := s.writers[w := Invalidated(s.writers[w].version)])
    case Acknowledge(w) =>
      var v := s.writers[w].version;
      s.(writers := s.writers - {w}, acknowledged := if v > s.acknowledged then v else s.acknowledged)
    case Call(force) =>
      if !force && Fresh(s.cache, s.now) then s.(served := s.served + [Returned(s, s.cache)])
      else s.(mutex := Some(Asking(s.now)))
    case Answer(ok) =>
      var reading := if ok then State(s.store[Newest(s)]) else Failed;
      s.(mutex := Some(Answered(s.mutex.value.since, reading, Newest(s), s.now)))
    case Finish(cancelled) =>
      if cancelled then s.(mutex := None)
      else
        var c := Filled(s, s.mutex.value);
        s.(mutex := None, cache := c, served := s.served + [Returned(s, c)])
  }

  function Start(enabled: bool): System {
    System(0, [enabled], Cache(None, Failed, 0, 0), None, map[], 0, [])
  }

  ghost predicate Run(trace: seq<System>, steps: seq<Step>, enabled: bool) {
    && |trace| == |steps| + 1 && trace[0] == Start(enabled)
    && forall i :: 0 <= i < |steps| ==>
                     trace[i].store != [] && Enabled(trace[i], steps[i]) && trace[i + 1] == Next(trace[i], steps[i])
  }

  // ------------------------------------------------------------- invariants

  /** A reading is the store's own at its version. */
  predicate Genuine(store: seq<bool>, reading: Reading, version: nat) {
    version < |store| && (reading.State? ==> reading.enabled == store[version])
  }

  /** No version below `floor` can still be served or cached. */
  predicate AtLeast(s: System, floor: nat) {
    && (s.cache.loaded.Some? ==> s.cache.version >= floor)
    && (s.mutex.Some? && s.mutex.value.Answered? ==> s.mutex.value.version >= floor)
  }

  predicate Sound(s: System) {
    && s.store != [] && s.acknowledged < |s.store| && AtLeast(s, s.acknowledged)
    && (forall w :: w in s.writers ==> s.writers[w].version < |s.store|)
    && (forall w :: w in s.writers && s.writers[w].Invalidated? ==> AtLeast(s, s.writers[w].version))
    && (s.cache.loaded.Some? ==>
          Genuine(s.store, s.cache.reading, s.cache.version)
          && s.cache.readAt <= s.cache.loaded.value <= s.now && s.cache.loaded.value - s.cache.readAt <= TIMEOUT)
    && (s.mutex.Some? ==> s.mutex.value.since <= s.now)
    && (s.mutex.Some? && s.mutex.value.Answered? ==>
          Genuine(s.store, s.mutex.value.reading, s.mutex.value.version)
          && s.mutex.value.since <= s.mutex.value.readAt <= s.now)
  }

  /** What every call promises about the value it returns. */
  predicate Honest(store: seq<bool>, r: Return) {
    && Genuine(store, r.reading, r.version)
    && r.version >= r.acknowledged
    && r.readAt <= r.stamp <= r.at && r.at - r.stamp < TTL && r.at - r.readAt < TTL + TIMEOUT
  }

  predicate AllHonest(s: System) {
    forall i :: 0 <= i < |s.served| ==> Honest(s.store, s.served[i])
  }

  lemma StepKeepsSound(s: System, step: Step)
    requires Sound(s) && Enabled(s, step)
    ensures Sound(Next(s, step))
  {
    var t := Next(s, step);
    forall w | w in t.writers && t.writers[w].Invalidated?
      ensures AtLeast(t, t.writers[w].version)
    {
      if step != Invalidate(w) {
        assert w in s.writers && s.writers[w] == t.writers[w];
      }
    }
  }

  lemma StepKeepsHonest(s: System, step: Step)
    requires Sound(s) && AllHonest(s) && Enabled(s, step)
    ensures AllHonest(Next(s, step))
  {
    var t := Next(s, step);
    assert s.store <= t.store;
    forall i | 0 <= i < |t.served|
      ensures Honest(t.store, t.served[i])
    {
      if i < |s.served| {
        assert t.served[i] == s.served[i] && Honest(s.store, s.served[i]);
      }
    }
  }

  /** In every interleaving, every value a call returns is the store's own at a
      version no older than any write acknowledged by then. Its stamp is younger than
      the TTL, and its read is younger than the TTL and the query's deadline together. */
  lemma {:induction false} EveryRunIsHonest(trace: seq<System>, steps: seq<Step>, enabled: bool)
    requires Run(trace, steps, enabled)
    ensures Sound(trace[|steps|]) && AllHonest(trace[|steps|])
    decreases |steps|
  {
    if steps != [] {
      var n := |steps| - 1;
      EveryRunIsHonest(trace[..|trace| - 1], steps[..n], enabled);
      StepKeepsSound(trace[n], steps[n]);
      StepKeepsHonest(trace[n], steps[n]);
    }
  }

  /** From its acknowledgement on, a write's version is never above the bound that every
      return records. */
  lemma {:induction false} AcknowledgedStays(trace: seq<System>, steps: seq<Step>, enabled: bool, j: nat)
    requires Run(trace, steps, enabled) && j < |steps| && steps[j].Acknowledge?
    ensures steps[j].writer in trace[j].writers
    ensures trace[|steps|].acknowledged >= trace[j].writers[steps[j].writer].version
    decreases |steps|
  {
    var n := |steps| - 1;
    assert Enabled(trace[j], steps[j]) && trace[j + 1] == Next(trace[j], steps[j]);
    if j < n {
      AcknowledgedStays(trace[..|trace| - 1], steps[..n], enabled, j);
      assert trace[n + 1] == Next(trace[n], steps[n]);
    }
  }

  /** What the step before returned, if it returned anything. */
  ghost predicate ReturnsAt(trace: seq<System>, k: nat, r: Return) {
    k + 1 < |trace| && trace[k + 1].served == trace[k].served + [r]
  }

  lemma RunsUpTo(trace: seq<System>, steps: seq<Step>, enabled: bool, n: nat)
    requires Run(trace, steps, enabled) && n <= |steps|
    ensures Run(trace[..n + 1], steps[..n], enabled)
  {
  }

  /** Whatever a call returns is stamped with its own time, and no older than any write
      that was acknowledged before it. */
  lemma EveryReturnIsNew(trace: seq<System>, steps: seq<Step>, enabled: bool, j: nat, k: nat, r: Return)
    requires Run(trace, steps, enabled) && j < k < |steps| && steps[j].Acknowledge? && ReturnsAt(trace, k, r)
    ensures steps[j].writer in trace[j].writers
    ensures r.at == trace[k].now && r.version >= trace[j].writers[steps[j].writer].version
    ensures r.reading.State? ==> r.version < |trace[k].store| && r.reading.enabled == trace[k].store[r.version]
  {
    RunsUpTo(trace, steps, enabled, k);
    AcknowledgedStays(trace[..k + 1], steps[..k], enabled, j);
    RunsUpTo(trace, steps, enabled, k + 1);
    EveryRunIsHonest(trace[..k + 2], steps[..k + 1], enabled);
    var t := trace[k + 1];
    assert t == Next(trace[k], steps[k]);
    assert t.served[|trace[k].served|] == r && Honest(t.store, r);
  }

  /** Work goes on only when the process is ready and its read says disabled. */
  predicate WorkPaused(ready: bool, reading: Reading) {
    !ready || reading.Failed? || reading.enabled
  }

  /** A process that is not ready is paused, and so is every one but that which read
      the switch as off. */
  lemma PausedExactly(ready: bool, reading: Reading)
    ensures !WorkPaused(ready, reading) <==> ready && reading == State(false)
  {
  }

  /** Once a write that enables maintenance is acknowledged, and as long as no later
      commit disables it again, no call lets work go on. */
  lemma AcknowledgedPauseHolds(trace: seq<System>, steps: seq<Step>, enabled: bool, i: nat, ready: bool)
    requires Run(trace, steps, enabled) && i < |trace[|steps|].served|
    requires var s, r := trace[|steps|], trace[|steps|].served[i];
             forall v :: r.acknowledged <= v < |s.store| ==> s.store[v]
    ensures WorkPaused(ready, trace[|steps|].served[i].reading)
  {
    EveryRunIsHonest(trace, steps, enabled);
    var s := trace[|steps|];
    assert Honest(s.store, s.served[i]);
  }

  lemma Extend(trace: seq<System>, steps: seq<Step>, enabled: bool, step: Step)
    returns (longer: seq<System>, more: seq<Step>)
    requires Run(trace, steps, enabled) && trace[|steps|].store != [] && Enabled(trace[|steps|], step)
    ensures Run(longer, more, enabled) && longer[|more|] == Next(trace[|steps|], step)
    ensures longer == trace + [Next(trace[|steps|], step)] && more == steps + [step]
  {
    longer, more := trace + [Next(trace[|steps|], step)], steps + [step];
  }

  /** A longer run in which the cache keeps its entry from here on. */
  ghost predicate Continues(trace: seq<System>, steps: seq<Step>, longer: seq<System>, more: seq<Step>) {
    && |trace| == |steps| + 1 && |longer| == |more| + 1 && trace <= longer && steps <= more
    && forall i :: |steps| <= i < |longer| ==> longer[i].cache == trace[|steps|].cache
  }

  lemma ContinuesOn(trace: seq<System>, steps: seq<Step>, longer: seq<System>, more: seq<Step>,
                    longest: seq<System>, most: seq<Step>)
    requires Continues(trace, steps, longer, more) && Continues(longer, more, longest, most)
    ensures Continues(trace, steps, longest, most)
  {
    assert longer[|more|].cache == trace[|steps|].cache;
    forall i | |steps| <= i < |longest|
      ensures longest[i].cache == trace[|steps|].cache
    {
      if i < |longer| {
        assert longest[i] == longer[i];
      }
    }
  }

  /** Waiting extends a run. */
  lemma {:induction false} Wait(trace: seq<System>, steps: seq<Step>, enabled: bool, k: nat)
    returns (longer: seq<System>, more: seq<Step>)
    requires Run(trace, steps, enabled) && trace[|steps|].store != []
    ensures Run(longer, more, enabled)
    ensures longer[|more|] == trace[|steps|].(now := trace[|steps|].now + k)
    ensures Continues(trace, steps, longer, more)
  {
    longer, more := trace, steps;
    if k > 0 {
      var before, ticks := Wait(trace, steps, enabled, k - 1);
      longer, more := Extend(before, ticks, enabled, Tick);
      ContinuesOn(trace, steps, before, ticks, longer, more);
    }
  }

  /** The stamp is taken when the answer arrives. Measured from the read, a value can
      be older than the TTL by the whole deadline of its query, to the millisecond. */
  lemma ReadCanBeOlder() returns (trace: seq<System>, steps: seq<Step>)
    ensures Run(trace, steps, false) && |trace[|steps|].served| == 2
    ensures var r := trace[|steps|].served[1]; r.reading.State? && r.at - r.readAt == TTL + TIMEOUT - 1
  {
    trace, steps := [Start(false)], [];
    trace, steps := Extend(trace, steps, false, Call(false));
    trace, steps := Extend(trace, steps, false, Answer(true));
    trace, steps := Wait(trace, steps, false, TIMEOUT);
    trace, steps := Extend(trace, steps, false, Finish(false));
    trace, steps := Wait(trace, steps, false, TTL - 1);
    trace, steps := Extend(trace, steps, false, Call(false));
  }

  /** Every value served since the n-th return is younger than the TTL from its read. */
  ghost predicate YoungFromRead(s: System, n: nat) {
    forall k :: n <= k < |s.served| ==> s.served[k].at - s.served[k].readAt < TTL
  }

  ghost predicate AlwaysYoung(trace: seq<System>, steps: seq<Step>, enabled: bool)
    requires |trace| == |steps| + 1
  {
    forall longer: seq<System>, more: seq<Step> ::
      Run(longer, more, enabled) && Continues(trace, steps, longer, more) ==>
        YoungFromRead(longer[|more|], |trace[|steps|].served|)
  }

  /** While the cache keeps its entry, every call that returns a value returns that one. */
  lemma {:induction false} ServedFromCache(trace: seq<System>, steps: seq<Step>, enabled: bool,
                                           longer: seq<System>, more: seq<Step>, k: nat)
    requires Run(longer, more, enabled) && Continues(trace, steps, longer, more)
    requires |trace[|steps|].served| <= k < |longer[|more|].served|
    ensures var c, r := trace[|steps|].cache, longer[|more|].served[k];
            c.loaded.Some? && r.stamp == c.loaded.value && r.readAt == c.readAt
    decreases |more|
  {
    var n := |more| - 1;
    if n + 1 > |steps| {
      assert longer[n + 1] == Next(longer[n], more[n]);
      if k < |longer[n].served| {
        assert longer[..n + 1][n] == longer[n];
        ServedFromCache(trace, steps, enabled, longer[..n + 1], more[..n], k);
      }
    }
  }

  lemma YoungWhenReadAtStamp(trace: seq<System>, steps: seq<Step>, enabled: bool)
    requires Run(trace, steps, enabled) && trace[|steps|].cache.loaded == Some(trace[|steps|].cache.readAt)
    ensures AlwaysYoung(trace, steps, enabled)
  {
    forall longer: seq<System>, more: seq<Step> | Run(longer, more, enabled) && Continues(trace, steps, longer, more)
      ensures YoungFromRead(longer[|more|], |trace[|steps|].served|)
    {
      EveryRunIsHonest(longer, more, enabled);
      var s := longer[|more|];
      forall k | |trace[|steps|].served| <= k < |s.served|
        ensures s.served[k].at - s.served[k].readAt < TTL
      {
        ServedFromCache(trace, steps, enabled, longer, more, k);
        assert Honest(s.store, s.served[k]);
      }
    }
  }

  /** Until the last millisecond of the TTL, some caller can still come. */
  lemma ServedAtTheEnd(trace: seq<System>, steps: seq<Step>, enabled: bool)
    returns (longer: seq<System>, more: seq<Step>)
    requires Run(trace, steps, enabled) && trace[|steps|].store != []
    requires Fresh(trace[|steps|].cache, trace[|steps|].now)
    ensures Run(longer, more, enabled) && Continues(trace, steps, longer, more)
    ensures var s, t := trace[|steps|], longer[|more|];
            && |t.served| == |s.served| + 1
            && t.served[|s.served|].at == s.cache.loaded.value + TTL - 1
            && t.served[|s.served|].readAt == s.cache.readAt
  {
    var s := trace[|steps|];
    longer, more := trace, steps;
    if s.mutex.Some? {
      longer, more := Extend(longer, more, enabled, Finish(true));
    }
    var freed, done := longer, more;
    longer, more := Wait(freed, done, enabled, s.cache.loaded.value + TTL - 1 - s.now);
    ContinuesOn(trace, steps, freed, done, longer, more);
    var waited, ticks := longer, more;
    longer, more := Extend(waited, ticks, enabled, Call(false));
    ContinuesOn(trace, steps, waited, ticks, longer, more);
  }

  /** Whatever happens after a run, as long as the cached entry stays, the values it
      serves are all younger than the TTL from their read if and only if the entry's
      answer arrived in the millisecond of its read. */
  lemma YoungFromReadExactly(trace: seq<System>, steps: seq<Step>, enabled: bool)
    requires Run(trace, steps, enabled) && Fresh(trace[|steps|].cache, trace[|steps|].now)
    ensures AlwaysYoung(trace, steps, enabled) <==>
            trace[|steps|].cache.readAt == trace[|steps|].cache.loaded.value
  {
    EveryRunIsHonest(trace, steps, enabled);
    var s := trace[|steps|];
    if s.cache.readAt == s.cache.loaded.value {
      YoungWhenReadAtStamp(trace, steps, enabled);
    } else {
      var longer, more := ServedAtTheEnd(trace, steps, enabled);
      assert longer[|more|].served[|s.served|].at - s.cache.readAt >= TTL;
      assert !YoungFromRead(longer[|more|], |s.served|);
    }
  }

  // ------------------------------------------------------------ the services

  /** The clock moves on by n milliseconds. */
  function Later(s: System, n: nat): System {
    s.(now := s.now + n)
  }

  /** The outcome of one call: the reading, or the error of a cancelled context. */
  datatype Outcome = Value(reading: Reading) | Cancelled

  /** One caller's world during a call: whether its context ends before or during the
      query, how long the database takes to read and the answer to arrive, and whether
      the query succeeds. */
  datatype Ask = Ask(force: bool, before: bool, during: bool, reading: nat, answering: nat, ok: bool)

  /** The machine's steps for one call that nothing interrupts. */
  function Called(s: System, a: Ask): System
    requires s.store != [] && s.mutex.None?
  {
    if a.before then s
    else
      var called := Next(s, Call(a.force));
      if called.mutex.None? then called
      else Next(Later(Next(Later(called, a.reading), Answer(a.ok)), a.answering), Finish(a.during))
  }

  /** The cache that an uninterrupted query leaves when the caller's context holds. */
  function Stored(s: System, a: Ask): Cache
    requires s.store != []
  {
    var at := s.now + a.reading + a.answering;
    if a.reading + a.answering > TIMEOUT then Cache(Some(at), Failed, Newest(s), at)
    else Cache(Some(at), if a.ok then State(s.store[Newest(s)]) else Failed, Newest(s), s.now + a.reading)
  }

  lemma CalledServes(s: System, a: Ask)
    requires s.store != [] && s.mutex.None? && !a.before && !a.force && Fresh(s.cache, s.now)
    ensures Called(s, a) == s.(served := s.served + [Returned(s, s.cache)])
  {
  }

  lemma CalledAsks(s: System, a: Ask)
    requires s.store != [] && s.mutex.None? && !a.before && (a.force || !Fresh(s.cache, s.now))
    ensures var t := Later(s, a.reading + a.answering);
            Called(s, a) == if a.during then t
                            else t.(cache := Stored(s, a), served := s.served + [Returned(t, Stored(s, a))])
  {
    var asked := Later(Next(s, Call(a.force)), a.reading);
    assert asked == s.(now := s.now + a.reading, mutex := Some(Asking(s.now)));
    var told := Later(Next(asked, Answer(a.ok)), a.answering);
    assert Called(s, a) == Next(told, Finish(a.during));
    assert told == Later(s, a.reading + a.answering).(mutex := told.mutex);
    if !a.during {
      assert Filled(told, told.mutex.value) == Stored(s, a);
      assert Returned(told, Stored(s, a)) == Returned(Later(s, a.reading + a.answering), Stored(s, a));
    }
  }

  /** A write that commits, invalidates and returns. */
  function Written(s: System, w: nat, enabled: bool): System
    requires s.store != [] && s.mutex.None? && w !in s.writers
  {
    Next(Next(Next(s, Commit(w, enabled)), Invalidate(w)), Acknowledge(w))
  }

  class Services {
    var now: nat
    var store: seq<bool>
    var loaded: Option<nat>
    var reading: Reading
    var ready: bool
    ghost var version: nat
    ghost var readAt: nat
    ghost var acknowledged: nat
    ghost var served: seq<Return>

    /** Between two calls nobody holds the mutex and no wrapped write is under way. */
    ghost function State(): System
      reads this
    {
      System(now, store, Cache(loaded, reading, version, readAt), None, map[], acknowledged, served)
    }

    constructor (enabled: bool, ready: bool)
      ensures State() == Start(enabled) && this.ready == ready
    {
      now, store, loaded, reading, this.ready := 0, [enabled], None, Failed, ready;
      version, readAt, acknowledged, served := 0, 0, 0, [];
    }

    method InvalidateMaintenance()
      modifies this`loaded
      ensures State() == old(State()).(cache := old(State()).cache.(loaded := None))
    {
      loaded := None;
    }

    /** The query under the mutex, whose result is cached unless the caller's context
        ended meanwhile. */
    method Load(a: Ask) returns (out: Outcome)
      requires store != []
      modifies this
      ensures ready == old(ready)
      ensures var t, c := Later(old(State()), a.reading + a.answering), Stored(old(State()), a);
              State() == if a.during then t else t.(cache := c, served := t.served + [Returned(t, c)])
      ensures out == if a.during then Cancelled else Value(reading)
    {
      var since := now;
      now := now + a.reading;
      var answer := if a.ok then Reading.State(store[|store| - 1]) else Failed;
      ghost var seen := now;
      now := now + a.answering;
      if a.during {
        return Cancelled;
      }
      if now > since + TIMEOUT {
        answer, seen := Failed, now;
      }
      reading, loaded, version, readAt := answer, Some(now), |store| - 1, seen;
      served := served + [Return(reading, version, readAt, now, now, acknowledged)];
      out := Value(reading);
    }

    /** A call: the cache while it is fresh, the query otherwise. */
    method MaintenanceState(a: Ask) returns (out: Outcome)
      requires store != []
      modifies this
      ensures ready == old(ready) && State() == Called(old(State()), a)
      ensures out == if a.before then Cancelled
                     else if !a.force && Fresh(old(State()).cache, old(now)) then Value(old(reading))
                     else if a.during then Cancelled
                     else Value(reading)
    {
      if a.before {
        return Cancelled;
      }
      if !a.force && loaded.Some? && now - loaded.value < TTL {
        CalledServes(State(), a);
        served := served + [Return(reading, version, readAt, loaded.value, now, acknowledged)];
        return Value(reading);
      }
      CalledAsks(State(), a);
      out := Load(a);
    }

    method IsPaused(a: Ask) returns (paused: bool)
      requires store != [] && !a.force && !a.before && !a.during
      modifies this
      ensures ready == old(ready)
      ensures State() == if ready then Called(old(State()), a) else old(State())
      ensures paused == WorkPaused(ready, reading)
      ensures !paused <==> ready && reading == Reading.State(false)
    {
      if !ready {
        return true;
      }
      var out := MaintenanceState(a);
      paused := out == Cancelled || out.reading.Failed? || out.reading.enabled;
    }

    /** Apply, Patch and Admit: a write that commits invalidates before it returns. */
    method Write(enabled: bool, commits: bool) returns (ok: bool)
      requires store != []
      modifies this
      ensures ok == commits && ready == old(ready)
      ensures State() == if ok then Written(old(State()), 0, enabled) else old(State())
    {
      ok := commits;
      if ok {
        store := store + [enabled];
        InvalidateMaintenance();
        acknowledged := if |store| - 1 > acknowledged then |store| - 1 else acknowledged;
      }
    }
  }
}
