/** All collectors of one process at once. Every locked step of a collector, every seal
    and every publication is a turn of its own, and any order of turns is a run. */
module BatchRace {
  import opened BatchCollector
  import opened BatchMetrics
  import opened BatchCallbacks

  /** How a collector began, what was done to it since, and its state. The events are
      bookkeeping of the model. */
  datatype Batch = Batch(at: int, sourceBytes: nat, health: nat, events: seq<Event>, state: State)

  /** `pending` holds the copies that sealed collectors have yet to hand over; `order`
      tells whose sample each entry of the history is. */
  datatype World = World(batches: map<nat, Batch>, pending: map<nat, Sample>, order: seq<nat>, history: seq<Sample>,
                         failures: nat)

  datatype Turn =
    | Begin(id: nat, now: int, sourceBytes: nat)
    | Act(id: nat, event: Event)
    | Seal(id: nat, failed: bool, returned: bool, now: int)
    | Publish(id: nat)
    | Panic

  function Stepped(b: Batch, e: Event): Batch {
    b.(events := b.events + [e], state := Step(b.state, e))
  }

  /** A turn that is not due changes nothing. */
  function Next(w: World, t: Turn): World {
    match t
    case Begin(id, now, sourceBytes) =>
      if id in w.batches || sourceBytes > MAX64 then w
      else
        w.(batches := w.batches[id := Batch(now, sourceBytes, w.failures, [], Fresh(now, sourceBytes, w.failures))])
    case Act(id, e) =>
      if id !in w.batches || e.Finish? then w
      else
        w.(batches := w.batches[id := Stepped(w.batches[id], e)],
           failures := if Fails(w.batches[id].state, e) then Bumped(w.failures) else w.failures)
    case Seal(id, failed, returned, now) =>
      if id !in w.batches then w
      else
        var b := Stepped(w.batches[id], Finish(failed, returned, now, w.failures));
        w.(batches := w.batches[id := b],
           pending := if w.batches[id].state.sealed then w.pending else w.pending[id := b.state.sample])
    case Publish(id) =>
      if id !in w.pending then w
      else
        w.(pending := w.pending - {id}, order := w.order + [id],
           history := w.history + [Numbered(w.history, w.pending[id])])
    case Panic => w.(failures := Bumped(w.failures))
  }

  function Play(turns: seq<Turn>): World {
    if turns == [] then World(map[], map[], [], [], 0)
    else Next(Play(turns[..|turns| - 1]), turns[|turns| - 1])
  }

  // ------------------------------------------------------------- one collector

  /** The samples that the collector's own events hand to its owner. */
  function Samples(b: Batch): seq<Sample>
    requires b.sourceBytes <= MAX64
  {
    Published(Fresh(b.at, b.sourceBytes, b.health), b.events)
  }

  predicate Follows(b: Batch) {
    && b.sourceBytes <= MAX64
    && b.state == Run(Fresh(b.at, b.sourceBytes, b.health), b.events)
    && (if b.state.sealed then |Samples(b)| == 1 else Samples(b) == [])
  }

  lemma {:induction false} RunSnoc(c: State, events: seq<Event>, e: Event)
    ensures Run(c, events + [e]) == Step(Run(c, events), e)
    ensures Published(c, events + [e]) ==
            Published(c, events) + if e.Finish? && !Run(c, events).sealed then [Step(Run(c, events), e).sample] else []
    decreases |events|
  {
    var all := events + [e];
    if events == [] {
      assert all[0] == e && all[1..] == [];
    } else {
      assert all[0] == events[0] && all[1..] == events[1..] + [e];
      RunSnoc(Step(c, events[0]), events[1..], e);
    }
  }

  lemma SteppedFollows(b: Batch, e: Event)
    requires Follows(b)
    ensures Follows(Stepped(b, e))
    ensures Samples(Stepped(b, e)) == if e.Finish? && !b.state.sealed then [Step(b.state, e).sample] else Samples(b)
  {
    RunSnoc(Fresh(b.at, b.sourceBytes, b.health), b.events, e);
  }

  // ------------------------------------------------------------- all of them

  /** Pending copies are what their collectors published, and not yet in the history. */
  predicate Waiting(batches: map<nat, Batch>, pending: map<nat, Sample>, order: seq<nat>) {
    forall id :: id in pending ==>
                   id in batches && Follows(batches[id]) && Samples(batches[id]) == [pending[id]] && id !in order
  }

  /** The history holds what its collectors published, each once, numbered as it came. */
  predicate Told(batches: map<nat, Batch>, order: seq<nat>, history: seq<Sample>) {
    && |order| == |history|
    && (forall i, j :: 0 <= i < j < |order| ==> order[i] != order[j])
    && (forall i :: 0 <= i < |order| ==>
          && order[i] in batches && Follows(batches[order[i]]) && batches[order[i]].state.sealed
          && history[i] == Numbered(history[..i], Samples(batches[order[i]])[0]))
  }

  predicate Sound(w: World) {
    && (forall id :: id in w.batches ==> Follows(w.batches[id]))
    && Waiting(w.batches, w.pending, w.order)
    && Told(w.batches, w.order, w.history)
    && (forall id :: id in w.batches && w.batches[id].state.sealed ==> id in w.pending || id in w.order)
  }

  /** A batch that has published nothing new in the meantime. */
  predicate SameSamples(b: Batch, next: Batch) {
    Follows(b) && Follows(next) && Samples(b) == Samples(next) && b.state.sealed == next.state.sealed
  }

  lemma WaitingKeeps(batches: map<nat, Batch>, pending: map<nat, Sample>, order: seq<nat>, id: nat, b: Batch)
    requires Waiting(batches, pending, order) && (id in batches ==> SameSamples(batches[id], b))
    ensures Waiting(batches[id := b], pending, order)
  {
  }

  lemma ToldKeeps(batches: map<nat, Batch>, order: seq<nat>, history: seq<Sample>, id: nat, b: Batch)
    requires Told(batches, order, history) && (id in batches ==> id !in order || SameSamples(batches[id], b))
    ensures Told(batches[id := b], order, history)
  {
    var after := batches[id := b];
    forall i | 0 <= i < |order|
      ensures order[i] in after && Follows(after[order[i]]) && after[order[i]].state.sealed
      ensures history[i] == Numbered(history[..i], Samples(after[order[i]])[0])
    {
    }
  }

  /** A collector that begins, or takes a step that publishes nothing. */
  lemma ReplacedKeeps(w: World, id: nat, b: Batch, failures: nat)
    requires Sound(w) && Follows(b)
    requires if id in w.batches then SameSamples(w.batches[id], b) else !b.state.sealed
    ensures Sound(w.(batches := w.batches[id := b], failures := failures))
  {
    WaitingKeeps(w.batches, w.pending, w.order, id, b);
    ToldKeeps(w.batches, w.order, w.history, id, b);
  }

  lemma SealKeeps(w: World, id: nat, e: Event)
    requires Sound(w) && id in w.batches && e.Finish? && !w.batches[id].state.sealed
    ensures var b := Stepped(w.batches[id], e);
            Sound(w.(batches := w.batches[id := b], pending := w.pending[id := b.state.sample]))
  {
    var b := Stepped(w.batches[id], e);
    SteppedFollows(w.batches[id], e);
    assert id !in w.order && id !in w.pending;
    ToldKeeps(w.batches, w.order, w.history, id, b);
    assert Waiting(w.batches[id := b], w.pending[id := b.state.sample], w.order);
  }

  lemma ToldSnoc(batches: map<nat, Batch>, order: seq<nat>, history: seq<Sample>, id: nat, sample: Sample)
    requires Told(batches, order, history) && id !in order && id in batches && Follows(batches[id])
    requires batches[id].state.sealed && Samples(batches[id]) == [sample]
    ensures Told(batches, order + [id], history + [Numbered(history, sample)])
  {
    var ids, told := order + [id], history + [Numbered(history, sample)];
    forall i | 0 <= i < |ids|
      ensures ids[i] in batches && Follows(batches[ids[i]]) && batches[ids[i]].state.sealed
      ensures told[i] == Numbered(told[..i], Samples(batches[ids[i]])[0])
    {
      assert told[..i] == history[..i];
      if i == |history| {
        assert history[..i] == history;
      }
    }
  }

  lemma PublishKeeps(w: World, id: nat)
    requires Sound(w) && id in w.pending
    ensures Sound(Next(w, Publish(id)))
  {
    var t := Next(w, Publish(id));
    ToldSnoc(w.batches, w.order, w.history, id, w.pending[id]);
    assert Waiting(w.batches, t.pending, t.order);
    forall k | k in t.batches && t.batches[k].state.sealed
      ensures k in t.pending || k in t.order
    {
      assert k in w.pending || k in w.order;
      assert t.order[|w.order|] == id;
    }
  }

  lemma TurnKeepsSound(w: World, t: Turn)
    requires Sound(w)
    ensures Sound(Next(w, t))
  {
    match t
    case Begin(id, now, sourceBytes) =>
      if id !in w.batches && sourceBytes <= MAX64 {
        var b := Batch(now, sourceBytes, w.failures, [], Fresh(now, sourceBytes, w.failures));
        ReplacedKeeps(w, id, b, w.failures);
      }
    case Act(id, e) =>
      if id in w.batches && !e.Finish? {
        SteppedFollows(w.batches[id], e);
        ReplacedKeeps(w, id, Stepped(w.batches[id], e), Next(w, t).failures);
      }
    case Seal(id, failed, returned, now) =>
      if id in w.batches {
        var e := Finish(failed, returned, now, w.failures);
        if w.batches[id].state.sealed {
          SteppedFollows(w.batches[id], e);
          ReplacedKeeps(w, id, Stepped(w.batches[id], e), w.failures);
        } else {
          SealKeeps(w, id, e);
        }
      }
    case Publish(id) =>
      if id in w.pending {
        PublishKeeps(w, id);
      }
    case Panic =>
  }

  /** However the turns of any number of collectors interleave, the history holds, in the
      order of publication and numbered so, the one sample that each sealed collector's
      own steps determine; each once, and none but those still on their way is missing. */
  lemma {:induction false} EveryRacePublishesOnce(turns: seq<Turn>)
    ensures Sound(Play(turns)) && Numbers(Play(turns).history)
    decreases |turns|
  {
    if turns != [] {
      EveryRacePublishesOnce(turns[..|turns| - 1]);
      TurnKeepsSound(Play(turns[..|turns| - 1]), turns[|turns| - 1]);
    }
  }

  /** The events of the collector whose sample is the i-th of the history. */
  function Source(w: World, i: nat): Batch
    requires i < |w.order| && w.order[i] in w.batches
  {
    w.batches[w.order[i]]
  }

  /** In every interleaving, a sample of the history is complete exactly when, before its
      own seal, its collector's calls paired up and no sum overflowed, and no callback of
      the process had failed since the collector began. */
  lemma EveryPublishedSampleExactly(turns: seq<Turn>, i: nat)
    requires i < |Play(turns).history|
    ensures Sound(Play(turns))
    ensures var w := Play(turns);
            var b := Source(w, i);
            var k := FirstFinish(b.events);
            && k < |b.events|
            && (w.history[i].complete <==>
                  && i < MAX64
                  && Matched(b.events[..k], 0)
                  && SumsFit(Fresh(b.at, b.sourceBytes, b.health).sample.counts, b.events[..k])
                  && b.events[k].failures == b.health)
  {
    EveryRacePublishesOnce(turns);
    var w := Play(turns);
    var b := Source(w, i);
    PublishesAtMostOnce(Fresh(b.at, b.sourceBytes, b.health), b.events);
    PublishedSampleExactly(b.at, b.sourceBytes, b.health, b.events);
    assert w.history[i] == Numbered(w.history[..i], Samples(b)[0]);
  }

  /** The turn that seals the collector of the i-th sample: due when it came, and the only
      one that was. */
  ghost predicate SealedBy(turns: seq<Turn>, j: nat, id: nat) {
    && j < |turns| && turns[j].Seal? && turns[j].id == id
    && var w := Play(turns[..j]); id in w.batches && !w.batches[id].state.sealed
  }

  lemma TakenTurns(turns: seq<Turn>, n: nat, j: nat)
    requires j <= n <= |turns|
    ensures turns[..n][..j] == turns[..j]
  {
  }

  lemma SealedByLater(turns: seq<Turn>, n: nat, j: nat, id: nat)
    requires n <= |turns| && SealedBy(turns[..n], j, id)
    ensures SealedBy(turns, j, id) && turns[..n][j] == turns[j]
  {
    TakenTurns(turns, n, j);
  }

  /** A sealed collector's first Finish is the turn that sealed it. */
  ghost predicate SealTold(turns: seq<Turn>, b: Batch, id: nat, j: nat) {
    && SealedBy(turns, j, id)
    && var k := FirstFinish(b.events);
       && k < |b.events|
       && b.events[k] == Finish(turns[j].failed, turns[j].returned, turns[j].now, Play(turns[..j]).failures)
  }

  lemma {:induction false} FirstFinishStays(events: seq<Event>, e: Event)
    ensures FirstFinish(events) < |events| ==> FirstFinish(events + [e]) == FirstFinish(events)
    ensures FirstFinish(events) == |events| && e.Finish? ==> FirstFinish(events + [e]) == |events|
    decreases |events|
  {
    if events != [] {
      assert (events + [e])[0] == events[0] && (events + [e])[1..] == events[1..] + [e];
      FirstFinishStays(events[1..], e);
    }
  }

  lemma ToldStays(turns: seq<Turn>, b: Batch, next: Batch, id: nat, j: nat)
    requires turns != [] && SealTold(turns[..|turns| - 1], b, id, j)
    requires next.events == b.events || exists e :: next.events == b.events + [e]
    ensures SealTold(turns, next, id, j)
  {
    var n := |turns| - 1;
    SealedByLater(turns, n, j, id);
    TakenTurns(turns, n, j);
    if next.events != b.events {
      var e :| next.events == b.events + [e];
      FirstFinishStays(b.events, e);
    }
  }

  lemma {:induction false} UnsealedHasNoFinish(b: Batch)
    requires Follows(b) && !b.state.sealed
    ensures FirstFinish(b.events) == |b.events|
  {
    PublishesAtMostOnce(Fresh(b.at, b.sourceBytes, b.health), b.events);
  }

  lemma JustSealed(turns: seq<Turn>, id: nat)
    requires turns != []
    requires var n := |turns| - 1;
             && SealedBy(turns, n, id) && Sound(Play(turns[..n]))
    ensures id in Play(turns).batches && SealTold(turns, Play(turns).batches[id], id, |turns| - 1)
  {
    var n := |turns| - 1;
    var b := Play(turns[..n]).batches[id];
    var e := Finish(turns[n].failed, turns[n].returned, turns[n].now, Play(turns[..n]).failures);
    UnsealedHasNoFinish(b);
    FirstFinishStays(b.events, e);
    assert Play(turns).batches[id].events == b.events + [e];
  }

  lemma OneTurnAdds(w: World, t: Turn, id: nat)
    requires id in w.batches
    ensures id in Next(w, t).batches
    ensures var b, next := w.batches[id], Next(w, t).batches[id];
            next.events == b.events || exists e :: next.events == b.events + [e]
  {
  }

  lemma SealsOnly(w: World, t: Turn, id: nat)
    requires id in Next(w, t).batches && Next(w, t).batches[id].state.sealed
    requires id !in w.batches || !w.batches[id].state.sealed
    ensures t.Seal? && t.id == id && id in w.batches
  {
  }

  lemma {:induction false} EverySealIsATurn(turns: seq<Turn>, id: nat) returns (j: nat)
    requires id in Play(turns).batches && Play(turns).batches[id].state.sealed
    ensures SealTold(turns, Play(turns).batches[id], id, j)
    decreases |turns|
  {
    var n := |turns| - 1;
    var w := Play(turns[..n]);
    EveryRacePublishesOnce(turns[..n]);
    if id in w.batches && w.batches[id].state.sealed {
      j := EverySealIsATurn(turns[..n], id);
      OneTurnAdds(w, turns[n], id);
      ToldStays(turns, w.batches[id], Play(turns).batches[id], id, j);
    } else {
      SealsOnly(w, turns[n], id);
      JustSealed(turns, id);
      j := n;
    }
  }

  /** In every interleaving, what a sample of the history says about its transaction is
      what its own sealing turn was told: committed exactly if that transaction returned
      without an error, and the affected rows exactly if no write left them unknown. */
  lemma EveryPublishedSampleReports(turns: seq<Turn>, i: nat) returns (j: nat)
    requires i < |Play(turns).history|
    ensures Sound(Play(turns)) && SealedBy(turns, j, Play(turns).order[i])
    ensures var w := Play(turns);
            var b := Source(w, i);
            Reports(w.history[i], b.at, b.events[..FirstFinish(b.events)],
                    turns[j].failed, turns[j].returned, turns[j].now)
  {
    EveryRacePublishesOnce(turns);
    var w := Play(turns);
    var b := Source(w, i);
    j := EverySealIsATurn(turns, w.order[i]);
    PublishedReports(b.at, b.sourceBytes, b.health, b.events);
    assert w.history[i] == Numbered(w.history[..i], Samples(b)[0]);
  }

  // ------------------------------------------------------------- the failures

  /** A panic, or a start or observe that comes after its collector's seal. */
  predicate IsFailure(w: World, t: Turn) {
    || t == Panic
    || (t.Act? && t.id in w.batches && w.batches[t.id].state.sealed && (t.event.Start? || t.event.Observe?))
  }

  function Failures(turns: seq<Turn>): nat {
    if turns == [] then 0
    else
      var front := turns[..|turns| - 1];
      Failures(front) + if IsFailure(Play(front), turns[|turns| - 1]) then 1 else 0
  }

  lemma OneFailure(w: World, t: Turn)
    ensures Next(w, t).failures == if IsFailure(w, t) then Bumped(w.failures) else w.failures
  {
  }

  lemma WrapNext(n: nat, f: nat)
    requires f == n % (MAX64 + 1)
    ensures Bumped(f) == (n + 1) % (MAX64 + 1)
  {
    var m := MAX64 + 1;
    assert n == m * (n / m) + f;
    if f == MAX64 {
      assert n + 1 == m * (n / m + 1);
    } else {
      assert n + 1 == m * (n / m) + (f + 1);
    }
  }

  /** The process counts every failed callback, modulo the width of its counter. */
  lemma {:induction false} FailuresAreCounted(turns: seq<Turn>)
    ensures Play(turns).failures == Failures(turns) % (MAX64 + 1)
    decreases |turns|
  {
    if turns != [] {
      var front := turns[..|turns| - 1];
      FailuresAreCounted(front);
      OneFailure(Play(front), turns[|turns| - 1]);
      WrapNext(Failures(front), Play(front).failures);
    }
  }

  /** The turn that began a collector. */
  ghost predicate BegunBy(turns: seq<Turn>, b: Batch, id: nat, i: nat) {
    && i < |turns| && turns[i] == Begin(id, b.at, b.sourceBytes)
    && id !in Play(turns[..i]).batches && b.health == Play(turns[..i]).failures
  }

  lemma {:induction false} BatchesStay(turns: seq<Turn>, i: nat, id: nat)
    requires i <= |turns| && id in Play(turns[..i]).batches
    ensures id in Play(turns).batches
    decreases |turns|
  {
    if i == |turns| {
      assert turns[..i] == turns;
    } else {
      TakenTurns(turns, |turns| - 1, i);
      BatchesStay(turns[..|turns| - 1], i, id);
    }
  }

  lemma BegunFirst(turns: seq<Turn>, b: Batch, id: nat, i: nat, j: nat)
    requires BegunBy(turns, b, id, i) && SealedBy(turns, j, id)
    ensures i < j
  {
    if j <= i {
      TakenTurns(turns, i, j);
      BatchesStay(turns[..i], j, id);
    }
  }

  lemma {:induction false} EveryBatchBegan(turns: seq<Turn>, id: nat) returns (i: nat)
    requires id in Play(turns).batches
    ensures BegunBy(turns, Play(turns).batches[id], id, i)
    decreases |turns|
  {
    var n := |turns| - 1;
    var w := Play(turns[..n]);
    if id in w.batches {
      i := EveryBatchBegan(turns[..n], id);
      TakenTurns(turns, n, i);
    } else {
      i := n;
    }
  }

  lemma SameModulo(a: nat, b: nat)
    requires a % (MAX64 + 1) == b % (MAX64 + 1) && a <= b && b - a <= MAX64
    ensures a == b
  {
    var m := MAX64 + 1;
    assert a == m * (a / m) + a % m && b == m * (b / m) + b % m;
  }

  lemma {:induction false} FailuresGrow(turns: seq<Turn>, i: nat)
    requires i <= |turns|
    ensures Failures(turns[..i]) <= Failures(turns)
    decreases |turns|
  {
    if i == |turns| {
      assert turns[..i] == turns;
    } else {
      TakenTurns(turns, |turns| - 1, i);
      FailuresGrow(turns[..|turns| - 1], i);
    }
  }

  /** A complete sample saw no failure anywhere in the process between its collector's
      begin and its seal, short of as many as the counter has values. */
  lemma CompleteSawNoFailure(turns: seq<Turn>, n: nat) returns (i: nat, j: nat)
    requires n < |Play(turns).history| && Play(turns).history[n].complete
    ensures Sound(Play(turns)) && BegunBy(turns, Source(Play(turns), n), Play(turns).order[n], i)
    ensures SealedBy(turns, j, Play(turns).order[n])
    ensures Failures(turns[..i]) % (MAX64 + 1) == Failures(turns[..j]) % (MAX64 + 1)
    ensures i < j && Failures(turns[..i]) <= Failures(turns[..j])
    ensures Failures(turns[..j]) - Failures(turns[..i]) <= MAX64 ==> Failures(turns[..i]) == Failures(turns[..j])
  {
    EveryPublishedSampleExactly(turns, n);
    var id := Play(turns).order[n];
    i := EveryBatchBegan(turns, id);
    j := EverySealIsATurn(turns, id);
    FailuresAreCounted(turns[..i]);
    FailuresAreCounted(turns[..j]);
    BegunFirst(turns, Source(Play(turns), n), id, i, j);
    TakenTurns(turns, j, i);
    FailuresGrow(turns[..j], i);
    if Failures(turns[..j]) - Failures(turns[..i]) <= MAX64 {
      SameModulo(Failures(turns[..i]), Failures(turns[..j]));
    }
  }

  /** The collectors are fed by these callbacks. */
  predicate Fed(turns: seq<Turn>, callbacks: seq<Callback>)
    requires forall i :: 0 <= i < |callbacks| ==> InRange(callbacks[i])
  {
    forall k :: 0 <= k < |turns| && turns[k].Act? ==>
                  exists i :: 0 <= i < |callbacks| && turns[k].event in Steps(callbacks[i])
  }

  lemma GrownEvents(w: World, t: Turn, id: nat)
    requires id in Next(w, t).batches
    ensures forall e :: e in Next(w, t).batches[id].events ==>
                          e.Finish? || (t.Act? && e == t.event) || (id in w.batches && e in w.batches[id].events)
  {
  }

  lemma {:induction false} EventsAreFed(turns: seq<Turn>, callbacks: seq<Callback>, id: nat)
    requires forall i :: 0 <= i < |callbacks| ==> InRange(callbacks[i])
    requires Fed(turns, callbacks) && id in Play(turns).batches
    ensures FromCallbacks(callbacks, Play(turns).batches[id].events)
    decreases |turns|
  {
    var n := |turns| - 1;
    var front, t := turns[..n], turns[n];
    var w := Play(front);
    GrownEvents(w, t, id);
    assert forall k :: 0 <= k < n ==> front[k] == turns[k];
    if id in w.batches {
      EventsAreFed(front, callbacks, id);
    }
  }

  /** In every interleaving, every complete sample of the history accounts for each of
      its statements as a read, a write or an unknown. */
  lemma EveryRaceBalances(turns: seq<Turn>, callbacks: seq<Callback>, i: nat)
    requires forall k :: 0 <= k < |callbacks| ==> InRange(callbacks[k])
    requires Fed(turns, callbacks) && i < |Play(turns).history| && Play(turns).history[i].complete
    ensures Balanced(Play(turns).history[i].counts)
  {
    EveryPublishedSampleExactly(turns, i);
    var w := Play(turns);
    var b := Source(w, i);
    EventsAreFed(turns, callbacks, w.order[i]);
    EveryBatchBalances(b.at, b.sourceBytes, b.health, callbacks, b.events);
  }

  lemma Go(turns: seq<Turn>, t: Turn) returns (more: seq<Turn>)
    ensures more == turns + [t] && Play(more) == Next(Play(turns), t)
  {
    more := turns + [t];
    assert more[..|turns|] == turns;
  }

  predicate Open(w: World, id: nat) {
    id in w.batches && !w.batches[id].state.sealed
  }

  lemma GoBegin(turns: seq<Turn>, id: nat) returns (more: seq<Turn>)
    requires id !in Play(turns).batches
    ensures more == turns + [Begin(id, 0, 0)] && Open(Play(more), id) && Play(more).order == Play(turns).order
    ensures forall k :: k != id ==> (Open(Play(more), k) <==> Open(Play(turns), k))
    ensures forall k :: k in Play(more).batches ==> k in Play(turns).batches || k == id
  {
    more := Go(turns, Begin(id, 0, 0));
  }

  lemma GoSeal(turns: seq<Turn>, id: nat) returns (more: seq<Turn>)
    requires Open(Play(turns), id)
    ensures more == turns + [Seal(id, false, true, 0)] && Play(more).order == Play(turns).order
    ensures Play(more).pending.Keys == Play(turns).pending.Keys + {id}
    ensures forall k :: k != id ==> (Open(Play(more), k) <==> Open(Play(turns), k))
  {
    more := Go(turns, Seal(id, false, true, 0));
  }

  lemma GoPublish(turns: seq<Turn>, id: nat) returns (more: seq<Turn>)
    requires id in Play(turns).pending
    ensures more == turns + [Publish(id)] && Play(more).order == Play(turns).order + [id]
    ensures Play(more).pending.Keys == Play(turns).pending.Keys - {id}
  {
    more := Go(turns, Publish(id));
  }

  /** Two collectors may publish in the other order than they sealed. */
  lemma SealedFirstToldSecond() returns (turns: seq<Turn>)
    ensures |turns| == 6 && turns[2] == Seal(0, false, true, 0) && turns[3] == Seal(1, false, true, 0)
    ensures Play(turns).order == [1, 0]
  {
    turns := GoBegin([], 0);
    turns := GoBegin(turns, 1);
    turns := GoSeal(turns, 0);
    turns := GoSeal(turns, 1);
    turns := GoPublish(turns, 1);
    turns := GoPublish(turns, 0);
  }
}
