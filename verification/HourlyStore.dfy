/** The database the hourly protocol updates in place. Each method is one
    transaction and is proved against the step of HourlyProjection it performs. */
module HourlyStore {
  import opened Wrappers
  import opened Order
  import opened UsageLedger
  import opened HourlyProjection

  const BATCH_LIMIT := 200

  // ------------------------------------------------------ addTrafficHourly

  function HourlyTerms(records: seq<Record>, k: Key): seq<Amounts> {
    seq(|records|, i requires 0 <= i < |records| =>
      if KeyOf(records[i]) == k then Counted(records[i].amounts) else Zero())
  }

  function KeysOf(records: seq<Record>): set<Key> {
    set i | 0 <= i < |records| :: KeyOf(records[i])
  }

  /** No 64-bit column overflows while the batch is grouped or upserted. */
  ghost predicate Fits(h: Hourly, records: seq<Record>) {
    && PrefixesFit(records)
    && (forall k :: k in KeysOf(records) ==> Int64(Add(Bucket(h, k), Sum(HourlyTerms(records, k)))))
  }

  lemma SumSnoc(xs: seq<Amounts>, x: Amounts)
    ensures Sum(xs + [x]) == Add(Sum(xs), x)
  {
    assert (xs + [x])[..|xs|] == xs;
  }

  lemma {:induction false} SumReplacesZero(xs: seq<Amounts>, i: nat, v: Amounts)
    requires i < |xs| && xs[i] == Zero()
    ensures Sum(xs[i := v]) == Add(Sum(xs), v)
  {
    var n := |xs| - 1;
    if i == n {
      assert xs[i := v][..n] == xs[..n];
    } else {
      SumReplacesZero(xs[..n], i, v);
      assert xs[i := v][..n] == xs[..n][i := v];
      AddInterchange(Sum(xs[..n]), v, xs[n], Zero());
    }
  }

  lemma HourlyTermsSnoc(records: seq<Record>, r: Record, k: Key)
    ensures Sum(HourlyTerms(records + [r], k)) ==
            Add(Sum(HourlyTerms(records, k)), if KeyOf(r) == k then Counted(r.amounts) else Zero())
  {
    var term := if KeyOf(r) == k then Counted(r.amounts) else Zero();
    assert HourlyTerms(records + [r], k) == HourlyTerms(records, k) + [term];
    SumSnoc(HourlyTerms(records, k), term);
  }

  ghost predicate Grouped(rows: Hourly, records: seq<Record>) {
    rows.Keys == KeysOf(records) && forall k :: Bucket(rows, k) == Sum(HourlyTerms(records, k))
  }

  lemma GroupedSnoc(rows: Hourly, records: seq<Record>, r: Record)
    requires Grouped(rows, records)
    ensures Grouped(rows[KeyOf(r) := Add(Bucket(rows, KeyOf(r)), Counted(r.amounts))], records + [r])
  {
    var after := rows[KeyOf(r) := Add(Bucket(rows, KeyOf(r)), Counted(r.amounts))];
    forall k
      ensures Bucket(after, k) == Sum(HourlyTerms(records + [r], k))
    {
      HourlyTermsSnoc(records, r, k);
    }
    assert forall i :: 0 <= i < |records| ==> (records + [r])[i] == records[i];
    assert (records + [r])[|records|] == r;
    assert after.Keys == KeysOf(records + [r]);
  }

  /** Every group of every prefix fits its columns. */
  ghost predicate PrefixesFit(records: seq<Record>) {
    forall n :: 0 <= n <= |records| ==>
      forall k :: k in KeysOf(records[..n]) ==> Int64(Sum(HourlyTerms(records[..n], k)))
  }

  lemma PrefixesFitSnoc(records: seq<Record>, r: Record)
    requires PrefixesFit(records)
    ensures PrefixesFit(records + [r]) <==> Int64(Sum(HourlyTerms(records + [r], KeyOf(r))))
  {
    var all := records + [r];
    assert all[..|all|] == all;
    assert forall n :: 0 <= n <= |records| ==> all[..n] == records[..n];
    assert all[|records|] == r;
    assert KeyOf(r) in KeysOf(all);
    if Int64(Sum(HourlyTerms(all, KeyOf(r)))) {
      forall k | k in KeysOf(all)
        ensures Int64(Sum(HourlyTerms(all, k)))
      {
        if k != KeyOf(r) {
          HourlyTermsSnoc(records, r, k);
          assert records[..|records|] == records;
          assert k in KeysOf(records);
        }
      }
    }
  }

  lemma PrefixesFitShorter(records: seq<Record>, n: nat)
    requires n <= |records|
    ensures PrefixesFit(records) ==> PrefixesFit(records[..n])
  {
    assert forall m :: 0 <= m <= n ==> records[..n][..m] == records[..m];
  }

  /** Groups a batch of owed rows and upserts every group; an overflow of any
      column fails the statement. */
  method AddTrafficHourly(h: Hourly, records: seq<Record>) returns (ok: bool, after: Hourly)
    ensures ok <==> Fits(h, records)
    ensures ok ==> after.Keys == h.Keys + KeysOf(records)
    ensures ok ==> forall k :: k in after ==> after[k] == Add(Bucket(h, k), Sum(HourlyTerms(records, k)))
  {
    var rows: Hourly := map[];
    after := h;
    assert Grouped(rows, records[..0]);
    for i := 0 to |records|
      invariant Grouped(rows, records[..i]) && PrefixesFit(records[..i])
    {
      var key := KeyOf(records[i]);
      var total := Add(Bucket(rows, key), Counted(records[i].amounts));
      assert records[..i + 1] == records[..i] + [records[i]];
      GroupedSnoc(rows, records[..i], records[i]);
      PrefixesFitSnoc(records[..i], records[i]);
      rows := rows[key := total];
      assert Bucket(rows, key) == total;
      if !Int64(total) {
        PrefixesFitShorter(records, i + 1);
        return false, h;
      }
    }
    assert records[..|records|] == records;
    ok := forall k :: k in rows ==> Int64(Add(Bucket(h, k), rows[k]));
    assert forall k :: k in rows ==> rows[k] == Bucket(rows, k) == Sum(HourlyTerms(records, k));
    if ok {
      after := map k | k in h.Keys + rows.Keys :: Add(Bucket(h, k), Bucket(rows, k));
    }
  }

  // ----------------------------------------------------------------- the batch

  function ToSet(ids: seq<nat>): set<nat> {
    set i | i in ids
  }

  /** ORDER BY traffic_record_id LIMIT n. */
  function Batch(q: Queue, n: nat): seq<nat> {
    var ids := Ascending(q.Keys);
    if |ids| <= n then ids else ids[..n]
  }

  lemma BatchRises(q: Queue, n: nat)
    ensures Rising(Batch(q, n)) && forall i :: i in Batch(q, n) ==> i in q
  {
    AscendingRises(q.Keys);
    forall i | i in Batch(q, n)
      ensures i in q
    {
      AscendingMembers(q.Keys, i);
    }
  }

  /** The ids that a batch has to take: as many as allowed, and none above one left. */
  predicate Oldest(taken: set<nat>, q: Queue, limit: int) {
    && taken <= q.Keys
    && |taken| == (if |q| <= limit then |q| else limit)
    && forall i, j :: i in taken && j in q.Keys - taken ==> i < j
  }

  lemma {:induction false} RisingSize(ids: seq<nat>)
    requires Rising(ids)
    ensures |ToSet(ids)| == |ids|
    decreases |ids|
  {
    if ids != [] {
      var n := |ids| - 1;
      RisingSize(ids[..n]);
      assert ids == ids[..n] + [ids[n]];
      assert ToSet(ids) == ToSet(ids[..n]) + {ids[n]};
    }
  }

  lemma AscendingSize(q: Queue)
    ensures |Ascending(q.Keys)| == |q| && Rising(Ascending(q.Keys))
    ensures forall i :: i in Ascending(q.Keys) <==> i in q
  {
    AscendingRises(q.Keys);
    forall i
      ensures i in Ascending(q.Keys) <==> i in q
    {
      AscendingMembers(q.Keys, i);
    }
  }

  /** What is not among the first n comes later. */
  lemma BeyondFirst(ids: seq<nat>, n: nat, i: nat, j: nat)
    requires Rising(ids) && n <= |ids| && i in ids[..n] && j in ids && j !in ids[..n]
    ensures i < j
  {
    var a :| 0 <= a < n && ids[..n][a] == i;
    var b :| 0 <= b < |ids| && ids[b] == j;
    assert forall k :: 0 <= k < n ==> ids[k] in ids[..n];
  }

  lemma BatchIsOldest(q: Queue, n: nat)
    ensures Oldest(ToSet(Batch(q, n)), q, n) && |Batch(q, n)| == |ToSet(Batch(q, n))|
  {
    var ids, batch := Ascending(q.Keys), Batch(q, n);
    AscendingSize(q);
    BatchRises(q, n);
    RisingSize(batch);
    assert batch == ids[..|batch|];
    forall i, j | i in ToSet(batch) && j in q.Keys - ToSet(batch)
      ensures i < j
    {
      BeyondFirst(ids, |batch|, i, j);
    }
  }

  /** The worker's own checks of a queue row against its source row. */
  predicate WorkerAccepts(r: Record, p: Intent) {
    && p.scope.endpoint == Coalesce(r.dims.endpoint)
    && (r.aggregate ==>
          p.hourlyPending && AtMost(Zero(), p.delta) && p.delta.count > 0 && AtMost(p.delta, r.amounts))
    && (p.hourlyPending ==> p.scope == ScopeOf(r.dims) && p.hour == Some(HourOf(r.at)))
  }

  /** What the worker checks of a queue row: its endpoint; of a minute row that something
      is owed, no part of it negative or above what the row holds; and of a row that owes
      hourly amounts every dimension and the clock hour. */
  lemma WorkerAcceptsExactly(r: Record, p: Intent)
    ensures WorkerAccepts(r, p) <==>
            && (r.dims.endpoint == Some(p.scope.endpoint) || (r.dims.endpoint == None && p.scope.endpoint == 0))
            && (r.aggregate ==>
                  && p.hourlyPending && 0 < p.delta.count <= r.amounts.count
                  && 0 <= p.delta.raw <= r.amounts.raw && 0 <= p.delta.upload <= r.amounts.upload
                  && 0 <= p.delta.download <= r.amounts.download && 0 <= p.delta.used <= r.amounts.used)
            && (p.hourlyPending ==>
                  && (r.dims.user == Some(p.scope.user) || (r.dims.user == None && p.scope.user == 0))
                  && (r.dims.subscription == Some(p.scope.subscription)
                      || (r.dims.subscription == None && p.scope.subscription == 0))
                  && (r.dims.node == Some(p.scope.node) || (r.dims.node == None && p.scope.node == 0))
                  && p.hour.Some? && 3600 * p.hour.value <= r.at < 3600 * p.hour.value + 3600)
  {
  }

  predicate Accepted(l: Ledger, q: Queue, ids: seq<nat>) {
    forall i :: i in ids ==> i in q && i < |l| && WorkerAccepts(l[i], q[i])
  }

  /** A minute row is projected with its delta in place of its amounts. */
  function OwedRecord(r: Record, p: Intent): Record {
    if r.aggregate then r.(amounts := p.delta) else r
  }

  function OwedRecords(l: Ledger, q: Queue, ids: seq<nat>): seq<Record>
    requires Accepted(l, q, ids)
  {
    if ids == [] then []
    else
      var i := ids[|ids| - 1];
      OwedRecords(l, q, ids[..|ids| - 1]) + if q[i].hourlyPending then [OwedRecord(l[i], q[i])] else []
  }

  lemma OnlyGrows(l: Ledger, q: Queue, ids: set<nat>, i: nat, k: Key)
    requires i in q && i < |l| && i !in ids
    ensures Sum(OwedTerms(l, Only(q, ids + {i}), k)) ==
            Add(Sum(OwedTerms(l, Only(q, ids), k)), OwedFor(l[i], Some(q[i]), k))
  {
    var before, after := Only(q, ids), Only(q, ids + {i});
    assert forall j :: 0 <= j < |l| && j != i ==> At(after, j) == At(before, j);
    assert OwedTerms(l, after, k) == OwedTerms(l, before, k)[i := OwedFor(l[i], Some(q[i]), k)];
    SumReplacesZero(OwedTerms(l, before, k), i, OwedFor(l[i], Some(q[i]), k));
  }

  lemma OwedRecordIsOwed(r: Record, p: Intent, k: Key)
    requires p.hourlyPending
    ensures OwedFor(r, Some(p), k) ==
            if KeyOf(OwedRecord(r, p)) == k then Counted(OwedRecord(r, p).amounts) else Zero()
  {
  }

  lemma OwedRecordAdds(records: seq<Record>, r: Record, p: Intent, k: Key)
    requires WorkerAccepts(r, p)
    ensures Sum(HourlyTerms(records + if p.hourlyPending then [OwedRecord(r, p)] else [], k)) ==
            Add(Sum(HourlyTerms(records, k)), OwedFor(r, Some(p), k))
  {
    if p.hourlyPending {
      HourlyTermsSnoc(records, OwedRecord(r, p), k);
      OwedRecordIsOwed(r, p, k);
    } else {
      assert records + [] == records;
      assert OwedFor(r, Some(p), k) == Zero();
    }
  }

  /** The rows the worker groups add up, key by key, to what the queue owed. */
  lemma {:induction false} OwedRecordsSum(l: Ledger, q: Queue, ids: seq<nat>, k: Key)
    requires Accepted(l, q, ids) && Rising(ids)
    ensures Sum(HourlyTerms(OwedRecords(l, q, ids), k)) == Sum(OwedTerms(l, Only(q, ToSet(ids)), k))
  {
    if ids == [] {
      SumOfZeros(OwedTerms(l, Only(q, ToSet(ids)), k));
    } else {
      var front, i := ids[..|ids| - 1], ids[|ids| - 1];
      assert ids == front + [i];
      assert ToSet(ids) == ToSet(front) + {i};
      OwedRecordsSum(l, q, front, k);
      OnlyGrows(l, q, ToSet(front), i, k);
      OwedRecordAdds(OwedRecords(l, q, front), l[i], q[i], k);
    }
  }

  lemma KeysOfSnoc(records: seq<Record>, r: Record)
    ensures KeysOf(records + [r]) == KeysOf(records) + {KeyOf(r)}
  {
    assert forall i :: 0 <= i < |records| ==> (records + [r])[i] == records[i];
    assert (records + [r])[|records|] == r;
  }

  lemma HourlyKeysGrow(l: Ledger, q: Queue, ids: set<nat>, i: nat)
    requires i in q && i < |l|
    ensures HourlyKeys(l, q, ids + {i}) == HourlyKeys(l, q, ids) + if q[i].hourlyPending then {KeyOf(l[i])} else {}
  {
  }

  lemma {:induction false} OwedRecordsKeys(l: Ledger, q: Queue, ids: seq<nat>)
    requires Accepted(l, q, ids)
    ensures KeysOf(OwedRecords(l, q, ids)) == HourlyKeys(l, q, ToSet(ids))
  {
    if ids == [] {
      assert HourlyKeys(l, q, ToSet(ids)) == {} == KeysOf([]);
    } else {
      var n := |ids| - 1;
      var i := ids[n];
      OwedRecordsKeys(l, q, ids[..n]);
      assert ids == ids[..n] + [i];
      assert ToSet(ids) == ToSet(ids[..n]) + {i};
      HourlyKeysGrow(l, q, ToSet(ids[..n]), i);
      if q[i].hourlyPending {
        KeysOfSnoc(OwedRecords(l, q, ids[..n]), OwedRecord(l[i], q[i]));
      } else {
        assert OwedRecords(l, q, ids) == OwedRecords(l, q, ids[..n]);
      }
    }
  }

  /** When the worker's transaction commits. */
  ghost predicate Drainable(s: Store, limit: int, auxiliaryFails: bool) {
    && 1 <= limit <= BATCH_LIMIT
    && var ids := Batch(s.queue, limit);
       ids != [] ==>
         && !auxiliaryFails
         && Accepted(s.ledger, s.queue, ids)
         && var owed := OwedRecords(s.ledger, s.queue, ids);
            owed != [] ==> s.hourly.Some? && Fits(s.hourly.value, owed)
  }

  /** On a sound store no check of the worker can fire: a batch is refused only
      by its limit, the database, or a 64-bit overflow. */
  lemma SoundBatchIsAccepted(s: Store, limit: nat)
    requires Sound(s)
    ensures Accepted(s.ledger, s.queue, Batch(s.queue, limit))
  {
    BatchRises(s.queue, limit);
    var ids := Batch(s.queue, limit);
    forall i | i in ids
      ensures i in s.queue && i < |s.ledger| && WorkerAccepts(s.ledger[i], s.queue[i])
    {
      assert i in s.queue;
      assert IntentOk(s.ledger[i], s.queue[i]);
    }
    assert Accepted(s.ledger, s.queue, ids);
  }

  lemma {:induction false} SumAtMost(a: seq<Amounts>, b: seq<Amounts>)
    requires |a| == |b| && forall i :: 0 <= i < |a| ==> AtMost(a[i], b[i])
    ensures AtMost(Sum(a), Sum(b))
  {
    if a != [] {
      SumAtMost(a[..|a| - 1], b[..|b| - 1]);
    }
  }

  lemma {:induction false} SumPrefix(a: seq<Amounts>, n: nat)
    requires n <= |a| && forall i :: 0 <= i < |a| ==> AtMost(Zero(), a[i])
    ensures AtMost(Zero(), Sum(a[..n])) && AtMost(Sum(a[..n]), Sum(a))
    decreases |a|
  {
    var m := |a| - 1;
    if a == [] {
      assert a[..n] == a;
    } else if n <= m {
      assert a[..m][..n] == a[..n];
      SumPrefix(a[..m], n);
    } else {
      assert a[..n] == a && a[..m][..m] == a[..m];
      SumPrefix(a[..m], m);
    }
  }

  /** No report of the ledger took anything back. */
  predicate NonNegative(l: Ledger) {
    forall i :: 0 <= i < |l| ==> AtMost(Zero(), l[i].amounts)
  }

  lemma {:induction false} OwedNonNegative(l: Ledger, q: Queue, ids: seq<nat>)
    requires Accepted(l, q, ids) && NonNegative(l)
    ensures forall r :: r in OwedRecords(l, q, ids) ==> AtMost(Zero(), Counted(r.amounts))
    decreases |ids|
  {
    if ids != [] {
      OwedNonNegative(l, q, ids[..|ids| - 1]);
      assert ids[|ids| - 1] in ids;
    }
  }

  lemma PartsNonNegative(r: Record, p: Option<Intent>, k: Key)
    requires RecordOk(r) && AtMost(Zero(), r.amounts) && (p.Some? ==> IntentOk(r, p.value))
    ensures AtMost(Zero(), OwedFor(r, p, k)) && AtMost(Zero(), SelectedFor(r, p, k))
  {
  }

  lemma TermsNonNegative(l: Ledger, q: Queue, ids: set<nat>, k: Key)
    requires WellFormed(l, q) && NonNegative(l)
    ensures AtMost(Zero(), Sum(SelectedTerms(l, q, k)))
    ensures AtMost(Sum(OwedTerms(l, Only(q, ids), k)), Sum(OwedTerms(l, q, k)))
  {
    forall i | 0 <= i < |l|
      ensures AtMost(Zero(), SelectedTerms(l, q, k)[i])
      ensures AtMost(OwedTerms(l, Only(q, ids), k)[i], OwedTerms(l, q, k)[i])
    {
      PartsNonNegative(l[i], At(q, i), k);
    }
    SumPrefix(SelectedTerms(l, q, k), 0);
    SumAtMost(OwedTerms(l, Only(q, ids), k), OwedTerms(l, q, k));
  }

  /** Part of what is owed, on top of the table, is at most the ledger's sum. */
  lemma OwedWithinLedger(s: Store, ids: seq<nat>, k: Key)
    requires Sound(s) && s.hourly.Some? && Exact(s) && NonNegative(s.ledger)
    requires Accepted(s.ledger, s.queue, ids) && Rising(ids)
    ensures var owed, bucket := Sum(HourlyTerms(OwedRecords(s.ledger, s.queue, ids), k)), Bucket(s.hourly.value, k);
            AtMost(Zero(), bucket) && AtMost(Add(bucket, owed), Sum(LedgerTerms(s.ledger, k)))
  {
    var l, q := s.ledger, s.queue;
    OwedRecordsSum(l, q, ids, k);
    BucketPlusOwedIsLedger(l, q, k);
    ProjectionSums(l, q, k);
    TermsNonNegative(l, q, ToSet(ids), k);
  }

  lemma PrefixTerms(records: seq<Record>, n: nat, k: Key)
    requires n <= |records| && forall r :: r in records ==> AtMost(Zero(), Counted(r.amounts))
    ensures AtMost(Zero(), Sum(HourlyTerms(records[..n], k)))
    ensures AtMost(Sum(HourlyTerms(records[..n], k)), Sum(HourlyTerms(records, k)))
  {
    var terms := HourlyTerms(records, k);
    assert terms[..n] == HourlyTerms(records[..n], k);
    forall i | 0 <= i < |terms|
      ensures AtMost(Zero(), terms[i])
    {
      assert records[i] in records;
    }
    SumPrefix(terms, n);
  }

  lemma SumsFit(s: Store, owed: seq<Record>, n: nat, k: Key)
    requires s.hourly.Some? && n <= |owed| && forall r :: r in owed ==> AtMost(Zero(), Counted(r.amounts))
    requires var bucket := Bucket(s.hourly.value, k);
             AtMost(Zero(), bucket) && AtMost(Add(bucket, Sum(HourlyTerms(owed, k))), Sum(LedgerTerms(s.ledger, k)))
    requires Int64(Sum(LedgerTerms(s.ledger, k)))
    ensures Int64(Sum(HourlyTerms(owed[..n], k)))
    ensures Int64(Add(Bucket(s.hourly.value, k), Sum(HourlyTerms(owed, k))))
  {
    PrefixTerms(owed, n, k);
  }

  /** The worker is never stuck: on an exact table of a ledger that takes nothing back
      and whose sums are 64-bit values, every call with a legal limit succeeds unless
      another effect of the batch fails. */
  lemma DrainSucceeds(s: Store, limit: int)
    requires Sound(s) && s.hourly.Some? && Exact(s) && NonNegative(s.ledger)
    requires forall k :: Int64(Sum(LedgerTerms(s.ledger, k)))
    ensures Drainable(s, limit, false) <==> 1 <= limit <= 200
  {
    if 1 <= limit <= 200 {
      SoundBatchIsAccepted(s, limit);
      BatchRises(s.queue, limit);
      var ids := Batch(s.queue, limit);
      var owed := OwedRecords(s.ledger, s.queue, ids);
      OwedNonNegative(s.ledger, s.queue, ids);
      forall n | 0 <= n <= |owed|
        ensures forall k :: k in KeysOf(owed[..n]) ==> Int64(Sum(HourlyTerms(owed[..n], k)))
      {
        forall k | k in KeysOf(owed[..n])
          ensures Int64(Sum(HourlyTerms(owed[..n], k)))
        {
          OwedWithinLedger(s, ids, k);
          SumsFit(s, owed, n, k);
        }
      }
      forall k | k in KeysOf(owed)
        ensures Int64(Add(Bucket(s.hourly.value, k), Sum(HourlyTerms(owed, k))))
      {
        OwedWithinLedger(s, ids, k);
        SumsFit(s, owed, 0, k);
      }
      assert Fits(s.hourly.value, owed);
    }
  }

  lemma UpsertIsDrained(s: Store, ids: seq<nat>, after: Hourly)
    requires s.hourly.Some? && Accepted(s.ledger, s.queue, ids) && Rising(ids)
    requires var owed := OwedRecords(s.ledger, s.queue, ids);
             && after.Keys == s.hourly.value.Keys + KeysOf(owed)
             && forall k :: k in after ==> after[k] == Add(Bucket(s.hourly.value, k), Sum(HourlyTerms(owed, k)))
    ensures Drained(s, ToSet(ids)) == s.(queue := s.queue - ToSet(ids), hourly := Some(after))
  {
    OwedRecordsKeys(s.ledger, s.queue, ids);
    forall k
      ensures Sum(HourlyTerms(OwedRecords(s.ledger, s.queue, ids), k)) ==
              Sum(OwedTerms(s.ledger, Only(s.queue, ToSet(ids)), k))
    {
      OwedRecordsSum(s.ledger, s.queue, ids, k);
    }
    assert after == Upserted(s.hourly.value, s.ledger, s.queue, ToSet(ids));
  }

  /** A committed batch: the ids left the queue, and what they owed reached the table. */
  predicate Took(s: Store, t: Store, taken: set<nat>) {
    t == Drained(s, taken) && t.queue == s.queue - taken
  }

  ghost predicate TookBatch(s: Store, t: Store, limit: nat) {
    exists taken :: Oldest(taken, s.queue, limit) && Took(s, t, taken)
  }

  /** The stores between successful calls, one after the other. */
  ghost predicate Drains(run: seq<Store>, limit: nat) {
    run != [] && forall i :: 0 <= i < |run| - 1 ==> TookBatch(run[i], run[i + 1], limit)
  }

  lemma BatchShortens(s: Store, t: Store, limit: nat)
    requires TookBatch(s, t, limit)
    ensures |t.queue| == if |s.queue| <= limit then 0 else |s.queue| - limit
  {
    var taken :| Oldest(taken, s.queue, limit) && Took(s, t, taken);
    assert (s.queue - taken).Keys == s.queue.Keys - taken;
    assert |s.queue.Keys - taken| == |s.queue.Keys| - |taken|;
  }

  lemma BatchKeeps(s: Store, t: Store, limit: nat)
    requires TookBatch(s, t, limit) && Sound(s) && Exact(s)
    ensures Sound(t) && Exact(t) && t.ledger == s.ledger
  {
    var taken :| Oldest(taken, s.queue, limit) && Took(s, t, taken);
    DrainKeeps(s, taken);
  }

  /** What n batches leave of a queue of that size. */
  function Left(size: nat, n: nat, limit: nat): nat {
    if n == 0 then size
    else
      var before := Left(size, n - 1, limit);
      if before <= limit then 0 else before - limit
  }

  lemma {:induction false} LeftIs(size: nat, n: nat, limit: nat)
    ensures Left(size, n, limit) == if size <= n * limit then 0 else size - n * limit
    decreases n
  {
    if n > 0 {
      LeftIs(size, n - 1, limit);
      assert n * limit == (n - 1) * limit + limit;
    }
  }

  lemma {:induction false} DrainsCount(run: seq<Store>, n: nat, limit: nat)
    requires Drains(run, limit) && n < |run|
    ensures |run[n].queue| == Left(|run[0].queue|, n, limit)
    decreases n
  {
    if n > 0 {
      DrainsCount(run, n - 1, limit);
      BatchShortens(run[n - 1], run[n], limit);
    }
  }

  lemma {:induction false} DrainsExact(run: seq<Store>, n: nat, limit: nat)
    requires Drains(run, limit) && n < |run| && Sound(run[0]) && Exact(run[0])
    ensures Sound(run[n]) && Exact(run[n]) && run[n].ledger == run[0].ledger
    decreases n
  {
    if n > 0 {
      DrainsExact(run, n - 1, limit);
      BatchKeeps(run[n - 1], run[n], limit);
    }
  }

  lemma EmptyIsGroupBy(s: Store)
    requires Sound(s) && Exact(s) && |s.queue| == 0
    ensures s == Store(s.ledger, map[], Some(GroupBy(s.ledger)))
  {
    assert s.queue == map[];
    EmptyQueueProjectsGroupBy(s.ledger);
  }

  /** Each successful call shortens the queue by a full batch or empties it; with enough
      of them nothing is pending, and an exact table has become the ledger's group-by. */
  lemma RepeatedDrainsEmpty(run: seq<Store>, limit: nat)
    requires Drains(run, limit)
    ensures var s, t, n := run[0], run[|run| - 1], |run| - 1;
            && |t.queue| == (if |s.queue| <= n * limit then 0 else |s.queue| - n * limit)
            && (|s.queue| <= n * limit && Sound(s) && Exact(s) ==>
                  t == Store(s.ledger, map[], Some(GroupBy(s.ledger))))
  {
    var s, t, n := run[0], run[|run| - 1], |run| - 1;
    DrainsCount(run, n, limit);
    LeftIs(|s.queue|, n, limit);
    if |s.queue| <= n * limit && Sound(s) && Exact(s) {
      DrainsExact(run, n, limit);
      EmptyIsGroupBy(t);
    }
  }

  lemma NothingOwed(s: Store)
    ensures Drained(s, {}) == s
  {
    assert s.queue - {} == s.queue;
    assert HourlyKeys(s.ledger, s.queue, {}) == {};
    if s.hourly.Some? {
      forall k
        ensures Sum(OwedTerms(s.ledger, Only(s.queue, {}), k)) == Zero()
      {
        SumOfZeros(OwedTerms(s.ledger, Only(s.queue, {}), k));
      }
      assert Upserted(s.hourly.value, s.ledger, s.queue, {}) == s.hourly.value;
    }
  }

  /** 64-bit column values of one report. */
  type Delta = a: Amounts | Int64(a) witness Amounts(0, 0, 0, 0, 0)

  predicate AllInt64(h: Hourly) {
    forall k :: k in h ==> Int64(h[k])
  }

  lemma AdmissionExactly(s: Store)
    ensures Consistent(World(s, Stopped)) ==>
              (RollbackAdmitted(s, true) <==> s.queue == map[] && s.hourly == Some(GroupBy(s.ledger)))
  {
    if Consistent(World(s, Stopped)) {
      RollbackAdmittedExactlyWhenExact(World(s, Stopped), []);
    }
  }

  class UsageStore {
    var ledger: Ledger
    var queue: Queue
    var hourly: Option<Hourly>

    ghost function State(): Store
      reads this
    {
      Store(ledger, queue, hourly)
    }

    constructor ()
      ensures State() == Store([], map[], Some(map[]))
      ensures Consistent(World(State(), Serving))
    {
      ledger, queue, hourly := [], map[], Some(map[]);
    }

    /** Inserts one report row and queues the whole of it. */
    method RecordEvent(at: int, dims: Dims, amounts: Delta)
      modifies this
      ensures State() == SettleEvent(old(State()), Record(at, dims, Counted(amounts), false, 0))
    {
      var r := Record(at, dims, Counted(amounts), false, 0);
      queue := queue[|ledger| := NewIntent(r, Zero())];
      ledger := ledger + [r];
    }

    /** Adds a report to its minute row, or inserts that row, and queues the
        increment. A growth that leaves the exact 64-bit range is refused. */
    method RecordMinute(at: int, dims: Dims, amounts: Delta, partition: nat) returns (r: Result<nat>)
      modifies this
      ensures var row := Record(at - at % 60, dims, Counted(amounts), true, partition);
              var i := FindMinute(old(ledger), row);
              && (r.Ok? <==>
                    && Coalesce(dims.node) != 0 && Coalesce(dims.subscription) != 0 && Coalesce(dims.endpoint) != 0
                    && amounts.raw >= 0 && amounts.upload >= 0 && amounts.download >= 0 && amounts.used >= 0
                    && (i < |old(ledger)| ==> Int64(Add(old(ledger)[i].amounts, row.amounts))))
              && State() == if r.Ok? then SettleMinute(old(State()), row) else old(State())
      ensures r.Ok? && old(Sound(State())) ==> Sound(State()) && (old(Exact(State())) ==> Exact(State()))
    {
      if Coalesce(dims.node) == 0 || Coalesce(dims.subscription) == 0 || Coalesce(dims.endpoint) == 0 {
        return Err("invalid native settlement identity");
      }
      if amounts.raw < 0 || amounts.upload < 0 || amounts.download < 0 || amounts.used < 0 {
        return Err("negative native settlement delta");
      }
      ghost var before := State();
      var row := Record(at - at % 60, dims, Counted(amounts), true, partition);
      var i := FindMinute(ledger, row);
      if i < |ledger| {
        var total := Add(ledger[i].amounts, row.amounts);
        if !Int64(total) {
          return Err("native settlement aggregate exceeds exact byte/count range");
        }
        ledger := ledger[i := ledger[i].(amounts := total)];
      } else {
        ledger := ledger + [row];
      }
      if i in queue {
        queue := queue[i := queue[i].(hourlyPending := true, delta := Add(queue[i].delta, row.amounts))];
      } else {
        queue := queue[i := NewIntent(row, row.amounts)];
      }
      if Sound(before) {
        SettleMinuteKeeps(before, row);
      }
      return Ok(i);
    }

    /** Checks each queue row of the batch against its source row and collects
        what the hourly table is owed. */
    method CollectOwed(ids: seq<nat>) returns (accepted: bool, owed: seq<Record>)
      requires forall i :: i in ids ==> i in queue
      ensures accepted <==> Accepted(ledger, queue, ids)
      ensures accepted ==> owed == OwedRecords(ledger, queue, ids)
    {
      owed := [];
      for n := 0 to |ids|
        invariant Accepted(ledger, queue, ids[..n]) && owed == OwedRecords(ledger, queue, ids[..n])
      {
        var i := ids[n];
        assert ids[..n + 1] == ids[..n] + [i] && i in ids;
        if i >= |ledger| || !WorkerAccepts(ledger[i], queue[i]) {
          return false, [];
        }
        if queue[i].hourlyPending {
          owed := owed + [OwedRecord(ledger[i], queue[i])];
        }
      }
      assert ids[..|ids|] == ids;
      accepted := true;
    }

    /** Projects at most one bounded batch and removes its checkpoints, or leaves
        the whole batch pending. */
    method Drain(limit: int, auxiliaryFails: bool) returns (r: Result<nat>)
      modifies this`queue, this`hourly
      ensures r.Ok? <==> Drainable(old(State()), limit, auxiliaryFails)
      ensures r.Ok? ==> exists taken :: Oldest(taken, old(queue), limit) && r.value == |taken|
                                        && Took(old(State()), State(), taken)
      ensures r.Err? ==> State() == old(State())
    {
      if limit <= 0 || limit > BATCH_LIMIT {
        return Err("usage projection batch limit must be between 1 and 200");
      }
      var ids := Batch(queue, limit);
      BatchRises(queue, limit);
      BatchIsOldest(queue, limit);
      ghost var before := State();
      if ids == [] {
        NothingOwed(State());
        assert ToSet(ids) == {};
        assert queue - {} == queue && Took(before, State(), ToSet(ids));
        return Ok(0);
      }
      var accepted, owed := CollectOwed(ids);
      if !accepted {
        return Err("pending usage projection source is missing or changed");
      }
      OwedRecordsKeys(ledger, queue, ids);
      if owed != [] && hourly.None? {
        return Err("no such table: traffic_usage_hourly");
      }
      var after := hourly;
      if hourly.Some? {
        var ok, table := AddTrafficHourly(hourly.value, owed);
        if !ok {
          return Err("traffic hourly overflow");
        }
        after := Some(table);
        UpsertIsDrained(State(), ids, table);
      }
      if auxiliaryFails {
        return Err("protocol endpoint usage");
      }
      hourly := after;
      queue := queue - ToSet(ids);
      assert Took(before, State(), ToSet(ids));
      return Ok(|ids|);
    }

    /** Clears the derived table and refills it from the ledger and the queue.
        MySQL commits CREATE TABLE at once, so there a refused refill leaves a
        created table behind. */
    method Rebuild(sqlite: bool) returns (r: Result<()>)
      modifies this`hourly
      ensures r.Ok? <==> AllInt64(Projection(ledger, queue))
      ensures r.Ok? ==> State() == Rebuilt(old(State()))
      ensures r.Err? ==> hourly == if old(hourly).None? && !sqlite then Some(map[]) else old(hourly)
    {
      var before := hourly;
      if hourly.None? {
        hourly := Some(map[]);
      }
      var filled := Projection(ledger, queue);
      if !AllInt64(filled) {
        if sqlite {
          hourly := before;
        }
        return Err("traffic hourly out of range");
      }
      hourly := Some(filled);
      return Ok(());
    }

    /** The recovery branch of startup. A stopped service that got through it
        serves an exact table again. */
    method Recover(sqlite: bool) returns (r: Result<()>)
      modifies this`hourly
      ensures r.Ok? <==> !NeedsRecovery(old(State())) || AllInt64(Projection(ledger, queue))
      ensures r.Ok? ==> State() == Recovered(old(State()))
      ensures r.Err? ==> hourly == if old(hourly).None? && !sqlite then Some(map[]) else old(hourly)
      ensures old(Consistent(World(State(), Stopped))) ==>
                Consistent(World(State(), if r.Ok? then Serving else Stopped))
    {
      if Sound(State()) {
        NeedsRecoveryExactly(State());
      }
      r := Ok(());
      if NeedsRecovery(Store(ledger, queue, hourly)) {
        r := Rebuild(sqlite);
      }
    }

    /** Admission of a rollback to a binary that writes the table itself. */
    method PrepareRollback(recorded: bool) returns (r: Result<()>)
      ensures r.Ok? <==> RollbackAdmitted(State(), recorded)
      ensures old(Consistent(World(State(), Stopped))) && recorded ==>
                (r.Ok? <==> queue == map[] && hourly == Some(GroupBy(ledger)))
    {
      AdmissionExactly(State());
      if !recorded {
        return Err("hourly projection rollback requires completed migration 0054");
      }
      if queue != map[] {
        return Err("drain all metering usage projection intents before hourly rollback");
      }
      if NeedsRecovery(Store(ledger, queue, hourly)) {
        return Err("recover hourly projection with the current version before hourly rollback");
      }
      return Ok(());
    }
  }
}
