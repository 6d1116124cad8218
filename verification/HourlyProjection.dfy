/** The hourly projection as a protocol: settlement queues an intent with every
    ledger write, a worker adds what is owed and clears the intent in one
    transaction, and a stopped service may lose the derived table and rebuild it. */
module HourlyProjection {
  import opened Wrappers
  import opened UsageLedger

  /** `hourly` is None while the table does not exist. */
  datatype Store = Store(ledger: Ledger, queue: Queue, hourly: Option<Hourly>)

  predicate Sound(s: Store) {
    WellFormed(s.ledger, s.queue)
  }

  /** The table holds exactly what a rebuild would insert now. */
  predicate Exact(s: Store) {
    s.hourly == Some(Projection(s.ledger, s.queue))
  }

  // ---------------------------------------------------------------- settlement

  function NewIntent(r: Record, delta: Amounts): Intent {
    Intent(true, ScopeOf(r.dims), Some(HourOf(r.at)), delta)
  }

  /** A row of its own; its intent owes the whole row. */
  function SettleEvent(s: Store, r: Record): Store {
    s.(ledger := s.ledger + [r], queue := s.queue[|s.ledger| := NewIntent(r, Zero())])
  }

  predicate SameMinute(a: Record, b: Record) {
    a.aggregate && b.aggregate && a.at == b.at && a.dims == b.dims && a.partition == b.partition
  }

  /** Reports of one minute are alike in everything but what they measured. */
  lemma SameMinuteExactly(a: Record, b: Record)
    ensures SameMinute(a, b) <==> a.aggregate && a.(amounts := b.amounts) == b
  {
  }

  /** The row an upsert on (node_id, report_id) would hit, or |l|. */
  function FindMinute(l: Ledger, r: Record): (i: nat)
    ensures i <= |l|
    ensures i < |l| ==> SameMinute(l[i], r)
    ensures forall j :: 0 <= j < i ==> !SameMinute(l[j], r)
  {
    if l == [] then 0
    else
      var i := FindMinute(l[..|l| - 1], r);
      if i < |l| - 1 || SameMinute(l[|l| - 1], r) then i else |l|
  }

  /** A minute row is inserted or grown in place, and its delta is added to the
      intent that is still pending for it, if any. */
  function SettleMinute(s: Store, r: Record): Store {
    var i := FindMinute(s.ledger, r);
    s.(ledger := if i < |s.ledger| then
                   s.ledger[i := s.ledger[i].(amounts := Add(s.ledger[i].amounts, r.amounts))]
                 else s.ledger + [r],
       queue := s.queue[i := GrownIntent(At(s.queue, i), r)])
  }

  /** The delta of a minute row is added to its pending intent, or queued anew. */
  function GrownIntent(p: Option<Intent>, r: Record): Intent {
    if p.Some? then p.value.(hourlyPending := true, delta := Add(p.value.delta, r.amounts))
    else NewIntent(r, r.amounts)
  }

  // -------------------------------------------------------------------- worker

  function Only(q: Queue, ids: set<nat>): Queue {
    map i | i in q && i in ids :: q[i]
  }

  function HourlyKeys(l: Ledger, q: Queue, ids: set<nat>): set<Key> {
    set i | i in q && i in ids && i < |l| && q[i].hourlyPending :: KeyOf(l[i])
  }

  /** The table after the owed amounts of `ids` were upserted into it. */
  function Upserted(h: Hourly, l: Ledger, q: Queue, ids: set<nat>): Hourly {
    map k | k in h.Keys + HourlyKeys(l, q, ids) :: Add(Bucket(h, k), Sum(OwedTerms(l, Only(q, ids), k)))
  }

  /** One committed worker batch: add what is owed, then clear the intents.
      Without a table, a batch that owes hourly amounts cannot commit. */
  function Drained(s: Store, ids: set<nat>): Store {
    if s.hourly.None? then
      if HourlyKeys(s.ledger, s.queue, ids) == {} then s.(queue := s.queue - ids) else s
    else s.(queue := s.queue - ids, hourly := Some(Upserted(s.hourly.value, s.ledger, s.queue, ids)))
  }

  /** Without a table a batch commits exactly when none of its rows owes it anything. */
  lemma DrainedWithoutTable(s: Store, ids: set<nat>)
    requires s.hourly.None? && forall i :: i in s.queue ==> i < |s.ledger|
    ensures Drained(s, ids) == s.(queue := s.queue - ids) || Drained(s, ids) == s
    ensures (forall i :: i in ids && i in s.queue ==> !s.queue[i].hourlyPending) ==>
              Drained(s, ids).queue == s.queue - ids
    ensures (exists i :: i in ids && i in s.queue && s.queue[i].hourlyPending) ==> Drained(s, ids) == s
  {
    if i :| i in ids && i in s.queue && s.queue[i].hourlyPending {
      assert KeyOf(s.ledger[i]) in HourlyKeys(s.ledger, s.queue, ids);
    }
  }

  function DrainedAll(s: Store, batches: seq<set<nat>>): Store
    decreases |batches|
  {
    if batches == [] then s else DrainedAll(Drained(s, batches[0]), batches[1..])
  }

  // ------------------------------------------------------- rebuild and recovery

  function Rebuilt(s: Store): Store {
    s.(hourly := Some(Projection(s.ledger, s.queue)))
  }

  /** A source row whose contribution, or part of it, was already projected. */
  predicate Confirmed(r: Record, p: Option<Intent>) {
    || p.None? || !p.value.hourlyPending
    || (p.value.delta.count > 0 && r.amounts.count > p.value.delta.count)
  }

  predicate NeedsRecovery(s: Store) {
    || s.hourly.None?
    || (s.hourly.value == map[] && exists i :: 0 <= i < |s.ledger| && Confirmed(s.ledger[i], At(s.queue, i)))
  }

  function Recovered(s: Store): Store {
    if NeedsRecovery(s) then Rebuilt(s) else s
  }

  /** Rollback is admitted with migration 0054 recorded, a drained queue and
      nothing to recover. */
  predicate RollbackAdmitted(s: Store, recorded: bool) {
    recorded && s.queue == map[] && !NeedsRecovery(s)
  }

  // ---------------------------------------------------------------- invariants

  lemma SameTermsSameProjection(l: Ledger, q: Queue, l': Ledger, q': Queue)
    requires SelectedKeys(l, q) == SelectedKeys(l', q')
    requires forall k :: Sum(SelectedTerms(l, q, k)) == Sum(SelectedTerms(l', q', k))
    ensures Projection(l, q) == Projection(l', q')
  {
  }

  /** A new row that is still wholly owed adds nothing to the projection. */
  lemma AppendKeepsProjection(l: Ledger, q: Queue, r: Record, p: Intent)
    requires WellFormed(l, q) && Selected(r, Some(p)) == Zero()
    ensures Projection(l + [r], q[|l| := p]) == Projection(l, q)
  {
    var l', q' := l + [r], q[|l| := p];
    assert forall i :: 0 <= i < |l| ==> l'[i] == l[i] && At(q', i) == At(q, i);
    assert l'[|l|] == r && At(q', |l|) == Some(p);
    assert SelectedKeys(l', q') == SelectedKeys(l, q);
    forall k
      ensures Sum(SelectedTerms(l, q, k)) == Sum(SelectedTerms(l', q', k))
    {
      assert SelectedTerms(l', q', k) == SelectedTerms(l, q, k) + [Zero()];
      assert SelectedTerms(l', q', k)[..|l|] == SelectedTerms(l, q, k);
    }
    SameTermsSameProjection(l, q, l', q');
  }

  /** Growing a minute row and its delta together leaves the projection alone. */
  lemma GrowKeepsProjection(l: Ledger, q: Queue, i: nat, r: Record, p: Intent)
    requires WellFormed(l, q) && i < |l| && KeyOf(r) == KeyOf(l[i])
    requires Selected(r, Some(p)) == Selected(l[i], At(q, i))
    ensures Projection(l[i := r], q[i := p]) == Projection(l, q)
  {
    var l', q' := l[i := r], q[i := p];
    assert forall j :: 0 <= j < |l| && j != i ==> l'[j] == l[j] && At(q', j) == At(q, j);
    assert l'[i] == r && At(q', i) == Some(p);
    assert forall j :: 0 <= j < |l| ==>
      KeyOf(l'[j]) == KeyOf(l[j]) && Selected(l'[j], At(q', j)) == Selected(l[j], At(q, j));
    assert SelectedKeys(l', q') == SelectedKeys(l, q);
    forall k
      ensures Sum(SelectedTerms(l, q, k)) == Sum(SelectedTerms(l', q', k))
    {
      assert SelectedTerms(l', q', k) == SelectedTerms(l, q, k);
    }
    SameTermsSameProjection(l, q, l', q');
  }

  lemma SettleEventKeeps(s: Store, r: Record)
    requires Sound(s) && RecordOk(r) && !r.aggregate
    ensures Sound(SettleEvent(s, r)) && (Exact(s) ==> Exact(SettleEvent(s, r)))
  {
    AppendKeepsProjection(s.ledger, s.queue, r, NewIntent(r, Zero()));
  }

  /** A row and its delta grow together: what the rebuild selects of it stays. */
  lemma GrowsTogether(row: Record, p: Option<Intent>, r: Record)
    requires RecordOk(row) && RecordOk(r) && SameMinute(row, r) && (p.Some? ==> IntentOk(row, p.value))
    ensures var grown, intent := row.(amounts := Add(row.amounts, r.amounts)), GrownIntent(p, r);
            && RecordOk(grown) && IntentOk(grown, intent) && KeyOf(grown) == KeyOf(row)
            && Selected(grown, Some(intent)) == Selected(row, p)
  {
  }

  lemma PutKeepsFormed(l: Ledger, q: Queue, i: nat, row: Record, p: Intent)
    requires WellFormed(l, q) && i < |l| && RecordOk(row) && IntentOk(row, p)
    ensures WellFormed(l[i := row], q[i := p])
  {
  }

  lemma GrownMinuteKeeps(s: Store, r: Record)
    requires Sound(s) && RecordOk(r) && r.aggregate && FindMinute(s.ledger, r) < |s.ledger|
    ensures Sound(SettleMinute(s, r)) && (Exact(s) ==> Exact(SettleMinute(s, r)))
  {
    var l, q, i := s.ledger, s.queue, FindMinute(s.ledger, r);
    var row, p := l[i], At(q, i);
    var grown, intent := row.(amounts := Add(row.amounts, r.amounts)), GrownIntent(p, r);
    GrowsTogether(row, p, r);
    PutKeepsFormed(l, q, i, grown, intent);
    GrowKeepsProjection(l, q, i, grown, intent);
    assert SettleMinute(s, r) == s.(ledger := l[i := grown], queue := q[i := intent]);
  }

  lemma NewMinuteKeeps(s: Store, r: Record)
    requires Sound(s) && RecordOk(r) && r.aggregate && FindMinute(s.ledger, r) >= |s.ledger|
    ensures Sound(SettleMinute(s, r)) && (Exact(s) ==> Exact(SettleMinute(s, r)))
  {
    assert |s.ledger| !in s.queue;
    AppendKeepsProjection(s.ledger, s.queue, r, NewIntent(r, r.amounts));
  }

  lemma SettleMinuteKeeps(s: Store, r: Record)
    requires Sound(s) && RecordOk(r) && r.aggregate
    ensures Sound(SettleMinute(s, r)) && (Exact(s) ==> Exact(SettleMinute(s, r)))
  {
    if FindMinute(s.ledger, r) < |s.ledger| {
      GrownMinuteKeeps(s, r);
    } else {
      NewMinuteKeeps(s, r);
    }
  }

  lemma RowDrains(r: Record, p: Option<Intent>, k: Key, taken: bool)
    requires RecordOk(r) && (p.Some? ==> IntentOk(r, p.value))
    ensures SelectedFor(r, if taken then None else p, k) ==
            Add(SelectedFor(r, p, k), OwedFor(r, if taken then p else None, k))
  {
  }

  lemma BucketDrains(l: Ledger, q: Queue, ids: set<nat>, k: Key)
    requires WellFormed(l, q)
    ensures Add(Bucket(Projection(l, q), k), Sum(OwedTerms(l, Only(q, ids), k))) ==
            Sum(SelectedTerms(l, q - ids, k))
  {
    forall i | 0 <= i < |l|
      ensures SelectedFor(l[i], At(q - ids, i), k) ==
              Add(SelectedFor(l[i], At(q, i), k), OwedFor(l[i], At(Only(q, ids), i), k))
    {
      RowDrains(l[i], At(q, i), k, i in ids);
    }
    SumPointwise(SelectedTerms(l, q, k), OwedTerms(l, Only(q, ids), k), SelectedTerms(l, q - ids, k));
    if k !in SelectedKeys(l, q) {
      SumOfZeros(SelectedTerms(l, q, k));
    }
  }

  lemma UpsertedIsProjection(l: Ledger, q: Queue, ids: set<nat>)
    requires WellFormed(l, q)
    ensures Upserted(Projection(l, q), l, q, ids) == Projection(l, q - ids)
  {
    DrainedKeys(l, q, ids);
    forall k
      ensures Add(Bucket(Projection(l, q), k), Sum(OwedTerms(l, Only(q, ids), k))) ==
              Sum(SelectedTerms(l, q - ids, k))
    {
      BucketDrains(l, q, ids, k);
    }
  }

  /** Consuming any set of intents moves the table to the projection of what is
      still pending: nothing is counted twice and nothing is lost. */
  lemma DrainKeeps(s: Store, ids: set<nat>)
    requires Sound(s) && Exact(s)
    ensures Sound(Drained(s, ids)) && Exact(Drained(s, ids))
  {
    UpsertedIsProjection(s.ledger, s.queue, ids);
  }

  lemma DrainedKeys(l: Ledger, q: Queue, ids: set<nat>)
    requires WellFormed(l, q)
    ensures SelectedKeys(l, q - ids) == SelectedKeys(l, q) + HourlyKeys(l, q, ids)
  {
    var all := SelectedKeys(l, q) + HourlyKeys(l, q, ids);
    forall i | 0 <= i < |l| && Selected(l[i], At(q - ids, i)).count > 0
      ensures KeyOf(l[i]) in all
    {
      if i in q && i in ids && q[i].hourlyPending {
        assert KeyOf(l[i]) in HourlyKeys(l, q, ids);
      } else {
        assert Selected(l[i], At(q, i)).count > 0;
      }
    }
    forall i | 0 <= i < |l| && Selected(l[i], At(q, i)).count > 0
      ensures KeyOf(l[i]) in SelectedKeys(l, q - ids)
    {
      assert Selected(l[i], At(q - ids, i)).count > 0;
    }
    forall i | i in q && i in ids && i < |l| && q[i].hourlyPending
      ensures KeyOf(l[i]) in SelectedKeys(l, q - ids)
    {
      assert Selected(l[i], At(q - ids, i)).count > 0;
    }
  }

  /** Rebuilding and then consuming every intent, in any batches and any order,
      gives the plain group-by over the ledger. */
  lemma {:induction false} RebuildThenDrainIsGroupBy(s: Store, batches: seq<set<nat>>)
    requires Sound(s)
    requires forall i :: i in s.queue ==> exists b :: b in batches && i in b
    ensures DrainedAll(Rebuilt(s), batches) == Store(s.ledger, map[], Some(GroupBy(s.ledger)))
  {
    DrainAllKeeps(Rebuilt(s), batches);
    EmptyQueueProjectsGroupBy(s.ledger);
  }

  lemma {:induction false} DrainAllKeeps(s: Store, batches: seq<set<nat>>)
    requires Sound(s) && Exact(s)
    requires forall i :: i in s.queue ==> exists b :: b in batches && i in b
    ensures Sound(DrainedAll(s, batches)) && Exact(DrainedAll(s, batches))
    ensures DrainedAll(s, batches).ledger == s.ledger && DrainedAll(s, batches).queue == map[]
    decreases |batches|
  {
    if batches == [] {
      assert s.queue == map[];
    } else {
      DrainKeeps(s, batches[0]);
      var next := Drained(s, batches[0]);
      forall i | i in next.queue
        ensures exists b :: b in batches[1..] && i in b
      {
        var b :| b in batches && i in b;
        assert b in batches[1..];
      }
      DrainAllKeeps(next, batches[1..]);
    }
  }

  /** Recovery is asked for exactly when the table is missing, or is empty while
      a rebuild would not be. */
  lemma NeedsRecoveryExactly(s: Store)
    requires forall i :: 0 <= i < |s.ledger| ==> s.ledger[i].amounts.count >= 1
    ensures NeedsRecovery(s) <==>
            s.hourly.None? || (s.hourly.value == map[] && Projection(s.ledger, s.queue) != map[])
  {
    forall i | 0 <= i < |s.ledger|
      ensures Confirmed(s.ledger[i], At(s.queue, i)) <==> Selected(s.ledger[i], At(s.queue, i)).count > 0
    {
    }
    var p := Projection(s.ledger, s.queue);
    if i :| 0 <= i < |s.ledger| && Confirmed(s.ledger[i], At(s.queue, i)) {
      assert KeyOf(s.ledger[i]) in p;
    } else {
      assert p == map[];
    }
  }

  // ---------------------------------------------------------------------- runs

  datatype Phase = Serving | Stopped

  datatype World = World(store: Store, phase: Phase)

  /** `Lose` is a stopped service whose derived table was dropped, or created
      again by a DDL that committed before the backfill did. */
  datatype Step =
    | Event(row: Record)
    | Minute(row: Record)
    | Consume(ids: set<nat>)
    | Rebuild
    | Stop
    | Lose(created: bool)
    | Start

  predicate Enabled(w: World, step: Step) {
    match step
    case Event(r) => w.phase.Serving? && RecordOk(r) && !r.aggregate
    case Minute(r) => w.phase.Serving? && RecordOk(r) && r.aggregate
    case Consume(_) => w.phase.Serving?
    case Rebuild => true
    case Stop => true
    case Lose(_) => w.phase.Stopped?
    case Start => w.phase.Stopped?
  }

  function Next(w: World, step: Step): World
    requires Enabled(w, step)
  {
    match step
    case Event(r) => w.(store := SettleEvent(w.store, r))
    case Minute(r) => w.(store := SettleMinute(w.store, r))
    case Consume(ids) => w.(store := Drained(w.store, ids))
    case Rebuild => w.(store := Rebuilt(w.store))
    case Stop => w.(phase := Stopped)
    case Lose(created) => w.(store := w.store.(hourly := if created then Some(map[]) else None))
    case Start => World(Recovered(w.store), Serving)
  }

  /** A step that is not enabled does not happen. */
  function Run(w: World, steps: seq<Step>): World
    decreases |steps|
  {
    if steps == [] then w
    else Run(if Enabled(w, steps[0]) then Next(w, steps[0]) else w, steps[1..])
  }

  predicate Lost(s: Store) {
    s.hourly == None || s.hourly == Some(map[])
  }

  predicate Consistent(w: World) {
    Sound(w.store) && (Exact(w.store) || (w.phase.Stopped? && Lost(w.store)))
  }

  lemma StepKeepsConsistent(w: World, step: Step)
    requires Consistent(w) && Enabled(w, step)
    ensures Consistent(Next(w, step))
  {
    match step
    case Event(r) => SettleEventKeeps(w.store, r);
    case Minute(r) => SettleMinuteKeeps(w.store, r);
    case Consume(ids) => DrainKeeps(w.store, ids);
    case Start => NeedsRecoveryExactly(w.store);
    case _ =>
  }

  /** Over every run of settling, growing, consuming, stopping, losing the table
      and recovering it, a serving table holds exactly the projection, so each
      bucket plus what is still pending for it is the ledger sum. */
  lemma {:induction false} EveryRunAgreesWithLedger(w: World, steps: seq<Step>, k: Key)
    requires Consistent(w)
    ensures var v := Run(w, steps);
            && Consistent(v)
            && (v.phase.Serving? ==>
                  && v.store.hourly.Some?
                  && Add(Bucket(v.store.hourly.value, k), Sum(OwedTerms(v.store.ledger, v.store.queue, k)))
                     == Sum(LedgerTerms(v.store.ledger, k)))
    decreases |steps|
  {
    if steps == [] {
      BucketPlusOwedIsLedger(w.store.ledger, w.store.queue, k);
    } else {
      var next := if Enabled(w, steps[0]) then Next(w, steps[0]) else w;
      if Enabled(w, steps[0]) {
        StepKeepsConsistent(w, steps[0]);
      }
      EveryRunAgreesWithLedger(next, steps[1..], k);
    }
  }

  /** After any run, a recorded and drained database is admitted to rollback
      exactly when its table equals the full ledger group-by. */
  lemma RollbackAdmittedExactlyWhenExact(w: World, steps: seq<Step>)
    requires Consistent(w)
    ensures var s := Run(w, steps).store;
            RollbackAdmitted(s, true) <==> s.queue == map[] && s.hourly == Some(GroupBy(s.ledger))
  {
    var v := Run(w, steps);
    EveryRunAgreesWithLedger(w, steps, Key(0, Scope(0, 0, 0, 0), 0));
    NeedsRecoveryExactly(v.store);
    if v.store.queue == map[] {
      EmptyQueueProjectsGroupBy(v.store.ledger);
    }
  }

  /** Why a lost table must be recovered before the worker runs again: one
      consumed intent makes the table non-empty, recovery is no longer asked for
      and rollback is admitted although a settled row is missing. */
  lemma DrainBeforeRecoveryHidesLoss() returns (s: Store, ids: set<nat>)
    ensures Sound(s) && Lost(s) && NeedsRecovery(s)
    ensures RollbackAdmitted(Drained(s, ids), true)
    ensures Drained(s, ids).hourly != Some(GroupBy(s.ledger))
  {
    var dims := Dims(None, None, None, None, None);
    var first := Record(0, dims, Amounts(1, 0, 0, 0, 1), false, 0);
    var second := first.(at := 3600);
    s := Store([first, second], map[1 := NewIntent(second, Zero())], Some(map[]));
    ids := {1};
    assert Confirmed(s.ledger[0], At(s.queue, 0));
    var after := Drained(s, ids);
    assert after.queue == map[];
    assert KeyOf(s.ledger[1]) in after.hourly.value;
    assert KeyOf(s.ledger[0]) in GroupBy(s.ledger);
    assert KeyOf(s.ledger[0]) !in after.hourly.value;
  }
}
