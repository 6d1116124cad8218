/** The billing ledger `traffic_records`, the durable queue
    `metering_usage_projection_pending`, and what the hourly rebuild selects
    from the two. A record's id is its position in the ledger. */
module UsageLedger {
  import opened Wrappers

  /** The five additive columns; `count` is `record_count`. */
  datatype Amounts = Amounts(raw: int, upload: int, download: int, used: int, count: int)

  function Zero(): Amounts {
    Amounts(0, 0, 0, 0, 0)
  }

  function Add(a: Amounts, b: Amounts): Amounts {
    Amounts(a.raw + b.raw, a.upload + b.upload, a.download + b.download, a.used + b.used, a.count + b.count)
  }

  function Sub(a: Amounts, b: Amounts): Amounts {
    Amounts(a.raw - b.raw, a.upload - b.upload, a.download - b.download, a.used - b.used, a.count - b.count)
  }

  predicate AtMost(a: Amounts, b: Amounts) {
    a.raw <= b.raw && a.upload <= b.upload && a.download <= b.download && a.used <= b.used && a.count <= b.count
  }

  const MAX_INT64 := 0x7fff_ffff_ffff_ffff
  const MIN_INT64 := -0x8000_0000_0000_0000

  predicate Int64(a: Amounts) {
    AtMost(Amounts(MIN_INT64, MIN_INT64, MIN_INT64, MIN_INT64, MIN_INT64), a) &&
    AtMost(a, Amounts(MAX_INT64, MAX_INT64, MAX_INT64, MAX_INT64, MAX_INT64))
  }

  function Sum(xs: seq<Amounts>): Amounts {
    if |xs| == 0 then Amounts(0, 0, 0, 0, 0) else Add(Sum(xs[..|xs| - 1]), xs[|xs| - 1])
  }

  lemma AddInterchange(a: Amounts, b: Amounts, c: Amounts, d: Amounts)
    ensures Add(Add(a, b), Add(c, d)) == Add(Add(a, c), Add(b, d))
  {
  }

  lemma {:induction false} SumPointwise(a: seq<Amounts>, b: seq<Amounts>, c: seq<Amounts>)
    requires |a| == |b| == |c|
    requires forall i :: 0 <= i < |a| ==> c[i] == Add(a[i], b[i])
    ensures Sum(c) == Add(Sum(a), Sum(b))
  {
    if |a| > 0 {
      var n := |a| - 1;
      SumPointwise(a[..n], b[..n], c[..n]);
      AddInterchange(Sum(a[..n]), Sum(b[..n]), a[n], b[n]);
    }
  }

  lemma {:induction false} SumOfZeros(a: seq<Amounts>)
    requires forall i :: 0 <= i < |a| ==> a[i] == Zero()
    ensures Sum(a) == Zero()
  {
    if |a| > 0 {
      SumOfZeros(a[..|a| - 1]);
    }
  }

  lemma {:induction false} SumCountPositive(a: seq<Amounts>, i: nat)
    requires i < |a|
    requires forall j :: 0 <= j < |a| ==> a[j].count >= 0
    requires a[i].count > 0
    ensures Sum(a).count > 0
    decreases |a|
  {
    var front := a[..|a| - 1];
    if i < |front| {
      SumCountPositive(front, i);
    } else {
      SumCountNonNegative(front);
    }
  }

  lemma {:induction false} SumCountNonNegative(a: seq<Amounts>)
    requires forall j :: 0 <= j < |a| ==> a[j].count >= 0
    ensures Sum(a).count >= 0
  {
    if |a| > 0 {
      SumCountNonNegative(a[..|a| - 1]);
    }
  }

  /** Nullable dimension columns of a ledger row. */
  datatype Dims = Dims(user: Option<nat>, subscription: Option<nat>, node: Option<nat>, endpoint: Option<nat>,
                       multiplier: Option<int>)

  /** `at` is UTC seconds. `partition` stands for the remaining inputs of a
      minute row's report digest (epoch, calculation mode, receive minute). */
  datatype Record = Record(at: int, dims: Dims, amounts: Amounts, aggregate: bool, partition: nat)

  datatype Scope = Scope(user: nat, subscription: nat, node: nat, endpoint: nat)

  /** A primary key of `traffic_usage_hourly`. */
  datatype Key = Key(hour: int, scope: Scope, multiplier: int)

  datatype Intent = Intent(hourlyPending: bool, scope: Scope, hour: Option<int>, delta: Amounts)

  type Ledger = seq<Record>
  type Queue = map<nat, Intent>
  type Hourly = map<Key, Amounts>

  function Coalesce(x: Option<nat>): nat {
    if x.Some? then x.value else 0
  }

  function HourOf(at: int): int {
    at / 3600
  }

  function ScopeOf(d: Dims): Scope {
    Scope(Coalesce(d.user), Coalesce(d.subscription), Coalesce(d.node), Coalesce(d.endpoint))
  }

  function KeyOf(r: Record): Key {
    Key(HourOf(r.at), ScopeOf(r.dims), if r.dims.multiplier.Some? then r.dims.multiplier.value else 0)
  }

  /** A null dimension stands for zero. */
  predicate SameOrNull(x: Option<int>, y: Option<int>) {
    x == y || (x in {None, Some(0)} && y in {None, Some(0)})
  }

  /** Two rows fall into one bucket exactly when they lie in one clock hour and agree in
      every dimension, null standing for zero. */
  lemma SameKeyExactly(a: Record, b: Record)
    ensures KeyOf(a) == KeyOf(b) <==>
            && (exists h :: 3600 * h <= a.at < 3600 * h + 3600 && 3600 * h <= b.at < 3600 * h + 3600)
            && SameOrNull(a.dims.user, b.dims.user) && SameOrNull(a.dims.subscription, b.dims.subscription)
            && SameOrNull(a.dims.node, b.dims.node) && SameOrNull(a.dims.endpoint, b.dims.endpoint)
            && SameOrNull(a.dims.multiplier, b.dims.multiplier)
  {
    assert 3600 * HourOf(a.at) <= a.at < 3600 * HourOf(a.at) + 3600;
    assert 3600 * HourOf(b.at) <= b.at < 3600 * HourOf(b.at) + 3600;
  }

  /** The CASE expression of the rebuild, one row of `projected_source`. */
  function Selected(r: Record, p: Option<Intent>): Amounts {
    if p.None? || !p.value.hourlyPending then r.amounts
    else if p.value.delta.count > 0 then Sub(r.amounts, p.value.delta)
    else Zero()
  }

  /** An unset report count stands for one report. */
  function Counted(a: Amounts): Amounts {
    if a.count > 0 then a else a.(count := 1)
  }

  lemma CountedExactly(a: Amounts)
    ensures Counted(a).count >= 1 && Counted(a).(count := a.count) == a
    ensures a.count >= 1 ==> Counted(a) == a
    ensures a.count <= 1 ==> Counted(a).count == 1
  {
  }

  /** What the worker will still add for a row: its delta when the row is a
      minute aggregate, the whole row otherwise. */
  function Owed(r: Record, p: Option<Intent>): Amounts {
    if p.None? || !p.value.hourlyPending then Zero()
    else if r.aggregate then Counted(p.value.delta)
    else Counted(r.amounts)
  }

  function At(q: Queue, i: nat): Option<Intent> {
    if i in q then Some(q[i]) else None
  }

  /** One joined row as group `k` sees it: WHERE record_count > 0, GROUP BY. */
  function SelectedFor(r: Record, p: Option<Intent>, k: Key): Amounts {
    if KeyOf(r) == k && Selected(r, p).count > 0 then Selected(r, p) else Zero()
  }

  function OwedFor(r: Record, p: Option<Intent>, k: Key): Amounts {
    if KeyOf(r) == k then Owed(r, p) else Zero()
  }

  function SettledFor(r: Record, k: Key): Amounts {
    if KeyOf(r) == k then r.amounts else Zero()
  }

  function SelectedTerms(l: Ledger, q: Queue, k: Key): seq<Amounts> {
    seq(|l|, i requires 0 <= i < |l| => SelectedFor(l[i], At(q, i), k))
  }

  function OwedTerms(l: Ledger, q: Queue, k: Key): seq<Amounts> {
    seq(|l|, i requires 0 <= i < |l| => OwedFor(l[i], At(q, i), k))
  }

  function LedgerTerms(l: Ledger, k: Key): seq<Amounts> {
    seq(|l|, i requires 0 <= i < |l| => SettledFor(l[i], k))
  }

  function SelectedKeys(l: Ledger, q: Queue): set<Key> {
    set i | 0 <= i < |l| && Selected(l[i], At(q, i)).count > 0 :: KeyOf(l[i])
  }

  /** The rows the rebuild inserts: INSERT ... SELECT ... GROUP BY hour, dims. */
  function Projection(l: Ledger, q: Queue): Hourly {
    map k | k in SelectedKeys(l, q) :: Sum(SelectedTerms(l, q, k))
  }

  /** The plain group-by over the ledger, with no queue at all. */
  function GroupBy(l: Ledger): Hourly {
    map k | k in (set i | 0 <= i < |l| :: KeyOf(l[i])) :: Sum(LedgerTerms(l, k))
  }

  function Bucket(h: Hourly, k: Key): Amounts {
    if k in h then h[k] else Zero()
  }

  predicate RecordOk(r: Record) {
    r.amounts.count >= 1 && (r.aggregate ==> AtMost(Zero(), r.amounts))
  }

  /** A queue row belongs to its record. A minute row's delta is part of the
      record, and a delta that covers every report covers every byte. */
  predicate IntentOk(r: Record, p: Intent) {
    && p.scope == ScopeOf(r.dims)
    && (p.hourlyPending ==> p.hour == Some(HourOf(r.at)))
    && (!r.aggregate ==> p.delta == Zero())
    && (r.aggregate ==>
          && p.hourlyPending
          && AtMost(Zero(), p.delta) && AtMost(p.delta, r.amounts)
          && 1 <= p.delta.count
          && (p.delta.count == r.amounts.count ==> p.delta == r.amounts))
  }

  predicate WellFormed(l: Ledger, q: Queue) {
    && (forall i :: 0 <= i < |l| ==> RecordOk(l[i]))
    && (forall i :: i in q ==> i < |l| && IntentOk(l[i], q[i]))
  }

  /** Row by row, what the rebuild selects and what the worker still owes make
      up the record, and a row selected with no reports carries no bytes. */
  lemma RowSplits(r: Record, p: Option<Intent>)
    requires RecordOk(r) && (p.Some? ==> IntentOk(r, p.value))
    ensures Add(Selected(r, p), Owed(r, p)) == r.amounts
    ensures Selected(r, p).count >= 0
    ensures Selected(r, p).count == 0 ==> Selected(r, p) == Zero()
  {
  }

  lemma RowSplitsFor(r: Record, p: Option<Intent>, k: Key)
    requires RecordOk(r) && (p.Some? ==> IntentOk(r, p.value))
    ensures SettledFor(r, k) == Add(SelectedFor(r, p, k), OwedFor(r, p, k))
  {
    RowSplits(r, p);
  }

  lemma ProjectionSums(l: Ledger, q: Queue, k: Key)
    ensures Bucket(Projection(l, q), k) == Sum(SelectedTerms(l, q, k))
  {
    if k !in SelectedKeys(l, q) {
      SumOfZeros(SelectedTerms(l, q, k));
    }
  }

  /** Every bucket plus the deltas still pending for it is the ledger sum. */
  lemma BucketPlusOwedIsLedger(l: Ledger, q: Queue, k: Key)
    requires WellFormed(l, q)
    ensures Add(Bucket(Projection(l, q), k), Sum(OwedTerms(l, q, k))) == Sum(LedgerTerms(l, k))
  {
    forall i | 0 <= i < |l|
      ensures SettledFor(l[i], k) == Add(SelectedFor(l[i], At(q, i), k), OwedFor(l[i], At(q, i), k))
    {
      RowSplitsFor(l[i], At(q, i), k);
    }
    SumPointwise(SelectedTerms(l, q, k), OwedTerms(l, q, k), LedgerTerms(l, k));
    ProjectionSums(l, q, k);
  }

  /** With an empty queue the rebuild is the plain group-by. */
  lemma EmptyQueueProjectsGroupBy(l: Ledger)
    requires WellFormed(l, map[])
    ensures Projection(l, map[]) == GroupBy(l)
  {
    var q: Queue := map[];
    forall i | 0 <= i < |l|
      ensures Selected(l[i], At(q, i)) == l[i].amounts && l[i].amounts.count > 0
    {
    }
    assert SelectedKeys(l, q) == set i | 0 <= i < |l| :: KeyOf(l[i]);
    forall k
      ensures SelectedTerms(l, q, k) == LedgerTerms(l, k)
    {
    }
  }
}
