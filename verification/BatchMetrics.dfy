/** The process-wide totals and the fixed ring of recent samples, refined to the
    full history of finished batches. */
module BatchMetrics {
  import opened Wrappers
  import opened BatchCollector

  const CAPACITY: nat := 64
  const MAX_FRESHNESS: int := 300_000_000_000

  // ------------------------------------------------- the history, unbounded

  function ExactTotal(h: seq<Sample>, f: nat): nat
    requires f < FIELDS
  {
    if h == [] then 0 else ExactTotal(h[..|h| - 1], f) + h[|h| - 1].counts[f]
  }

  /** Each running total is the saturation of the exact sum. */
  function TotalsOf(h: seq<Sample>): Counts {
    seq(FIELDS, f requires 0 <= f < FIELDS => Sat(ExactTotal(h, f)))
  }

  predicate AllFit(h: seq<Sample>) {
    forall f :: 0 <= f < FIELDS ==> ExactTotal(h, f) <= MAX64
  }

  function Confirmed(h: seq<Sample>): nat {
    if h == [] then 0 else Confirmed(h[..|h| - 1]) + if h[|h| - 1].confirmed then 1 else 0
  }

  function Unconfirmed(h: seq<Sample>): nat {
    if h == [] then 0 else Unconfirmed(h[..|h| - 1]) + if h[|h| - 1].confirmed then 0 else 1
  }

  /** Incomplete samples, plus the batches whose counters overflowed a total. */
  function Incomplete(h: seq<Sample>): nat {
    if h == [] then 0
    else
      Incomplete(h[..|h| - 1])
      + (if h[|h| - 1].complete then 0 else 1)
      + if NoOverflow(TotalsOf(h[..|h| - 1]), h[|h| - 1].counts) then 0 else 1
  }

  function Retained(h: seq<Sample>): seq<Sample> {
    if |h| <= CAPACITY then h else h[|h| - CAPACITY..]
  }

  lemma {:induction false} ConfirmedAndUnconfirmed(h: seq<Sample>)
    ensures Confirmed(h) + Unconfirmed(h) == |h|
  {
    if h != [] {
      ConfirmedAndUnconfirmed(h[..|h| - 1]);
    }
  }

  lemma HistorySnoc(h: seq<Sample>, s: Sample)
    ensures TotalsOf(h + [s]) == Plus(TotalsOf(h), s.counts)
    ensures AllFit(h + [s]) <==> AllFit(h) && NoOverflow(TotalsOf(h), s.counts)
    ensures Confirmed(h + [s]) == Confirmed(h) + if s.confirmed then 1 else 0
    ensures Unconfirmed(h + [s]) == Unconfirmed(h) + if s.confirmed then 0 else 1
    ensures Incomplete(h + [s]) ==
            Incomplete(h) + (if s.complete then 0 else 1) + if NoOverflow(TotalsOf(h), s.counts) then 0 else 1
  {
    assert (h + [s])[..|h|] == h;
    forall f | 0 <= f < FIELDS
      ensures ExactTotal(h + [s], f) == ExactTotal(h, f) + s.counts[f]
      ensures TotalsOf(h + [s])[f] == Plus(TotalsOf(h), s.counts)[f]
    {
    }
    if AllFit(h) {
      assert forall f :: 0 <= f < FIELDS ==> TotalsOf(h)[f] == ExactTotal(h, f);
    } else {
      var f :| 0 <= f < FIELDS && ExactTotal(h, f) > MAX64;
      assert ExactTotal(h + [s], f) > MAX64;
    }
  }

  /** 64-bit increment and difference, which wrap. */
  function Bumped(n: nat): nat {
    if n >= MAX64 then 0 else n + 1
  }

  function Elapsed(now: nat, start: nat): int {
    if now >= start then now - start else now + MAX64 + 1 - start
  }

  function BumpedBy(start: nat, k: nat): nat {
    if k == 0 then start else Bumped(BumpedBy(start, k - 1))
  }

  lemma {:induction false} BumpedByIs(start: nat, k: nat)
    requires start <= MAX64 && k <= MAX64
    ensures BumpedBy(start, k) == if start + k <= MAX64 then start + k else start + k - MAX64 - 1
    decreases k
  {
    if k > 0 {
      BumpedByIs(start, k - 1);
    }
  }

  /** The failures since a reset are counted although the counter wraps. */
  lemma ElapsedCounts(start: nat, k: nat)
    requires start <= MAX64 && k <= MAX64
    ensures Elapsed(BumpedBy(start, k), start) == k
  {
    BumpedByIs(start, k);
  }

  /** The running counters, each saturating at 64 bits. */
  datatype Tally = Tally(sequence: nat, committed: nat, unknown: nat, incomplete: nat, complete: bool, totals: Counts)

  /** What the counters must be after the batches of `h`: saturations of exact
      numbers, and complete exactly while every exact total fits. */
  function TallyOf(h: seq<Sample>, configured: bool): Tally {
    Tally(Sat(|h|), Sat(Confirmed(h)), Sat(Unconfirmed(h)), Sat(Incomplete(h)), configured && AllFit(h), TotalsOf(h))
  }

  /** A sample as it is numbered by the history it joins. */
  function Numbered(h: seq<Sample>, s: Sample): Sample {
    s.(sequence := Sat(|h| + 1), complete := s.complete && |h| < MAX64)
  }

  // --------------------------------------------------------------- arithmetic

  method Saturating(value: nat, n: nat) returns (sum: nat, exact: bool)
    requires value <= MAX64 && n <= MAX64
    ensures sum == Sat(value + n) && (exact <==> value + n <= MAX64)
  {
    if n > MAX64 - value {
      return MAX64, false;
    }
    return value + n, true;
  }

  method AddCounts(dst: Counts, src: Counts) returns (sum: Counts, valid: bool)
    ensures sum == Plus(dst, src) && (valid <==> NoOverflow(dst, src))
  {
    sum, valid := dst, true;
    for f := 0 to FIELDS
      invariant forall g :: 0 <= g < f ==> sum[g] == Sat(dst[g] + src[g])
      invariant forall g :: f <= g < FIELDS ==> sum[g] == dst[g]
      invariant valid <==> forall g :: 0 <= g < f ==> dst[g] + src[g] <= MAX64
    {
      var value, exact := Saturating(sum[f], src[f]);
      sum := sum[f := value];
      valid := valid && exact;
    }
  }

  lemma SatAdds(n: nat, d: nat)
    ensures Sat(Sat(n) + d) == Sat(n + d) && Sat(Sat(n)) == Sat(n)
  {
  }

  /** How many times a batch is counted incomplete. */
  function Misses(h: seq<Sample>, s: Sample): nat {
    (if s.complete then 0 else 1) + if NoOverflow(TotalsOf(h), s.counts) then 0 else 1
  }

  lemma TallySnoc(h: seq<Sample>, s: Sample, configured: bool)
    ensures var t, t' := TallyOf(h, configured), TallyOf(h + [s], configured);
            && t'.sequence == Sat(t.sequence + 1)
            && t'.committed == Sat(t.committed + if s.confirmed then 1 else 0)
            && t'.unknown == Sat(t.unknown + if s.confirmed then 0 else 1)
            && t'.incomplete == Sat(t.incomplete + Misses(h, s))
            && t'.complete == (t.complete && NoOverflow(t.totals, s.counts))
            && t'.totals == Plus(t.totals, s.counts)
  {
    HistorySnoc(h, s);
    SatAdds(|h|, 1);
    SatAdds(Confirmed(h), if s.confirmed then 1 else 0);
    SatAdds(Unconfirmed(h), if s.confirmed then 0 else 1);
    SatAdds(Incomplete(h), Misses(h, s));
  }

  /** The counters of one numbered batch. */
  method CountOutcomes(t: Tally, s: Sample) returns (t': Tally)
    requires t.committed <= MAX64 && t.unknown <= MAX64 && t.incomplete <= MAX64
    ensures t'.sequence == t.sequence && t'.totals == Plus(t.totals, s.counts)
    ensures t'.committed == Sat(t.committed + if s.confirmed then 1 else 0)
    ensures t'.unknown == Sat(t.unknown + if s.confirmed then 0 else 1)
    ensures t'.incomplete ==
            Sat(t.incomplete + (if s.complete then 0 else 1) + if NoOverflow(t.totals, s.counts) then 0 else 1)
    ensures t'.complete == (t.complete && NoOverflow(t.totals, s.counts))
  {
    var committed, unknown, incomplete, exact := t.committed, t.unknown, t.incomplete, true;
    if s.confirmed {
      committed, exact := Saturating(committed, 1);
    } else {
      unknown, exact := Saturating(unknown, 1);
    }
    if !s.complete {
      incomplete, exact := Saturating(incomplete, 1);
    }
    var totals, valid := AddCounts(t.totals, s.counts);
    if !valid {
      incomplete, exact := Saturating(incomplete, 1);
    }
    t' := Tally(t.sequence, committed, unknown, incomplete, t.complete && valid, totals);
  }

  /** Counts one finished batch. */
  method CountSample(t: Tally, s: Sample, ghost h: seq<Sample>, ghost configured: bool) returns (t': Tally, s': Sample)
    requires t == TallyOf(h, configured)
    ensures s' == Numbered(h, s) && t' == TallyOf(h + [s'], configured)
  {
    var sequence, exact := Saturating(t.sequence, 1);
    s' := s.(sequence := sequence, complete := s.complete && exact);
    t' := CountOutcomes(t, s');
    TallySnoc(h, s', configured);
    t' := t'.(sequence := sequence);
  }

  // ------------------------------------------------------------------ the ring

  predicate IsFresh(s: Sample, now: int, freshness: int) {
    s.finishedAt <= now && now - s.finishedAt <= freshness
  }

  function FreshOnly(h: seq<Sample>, now: int, freshness: int): seq<Sample> {
    if h == [] then []
    else
      FreshOnly(h[..|h| - 1], now, freshness)
      + if IsFresh(h[|h| - 1], now, freshness) then [h[|h| - 1]] else []
  }

  /** Fresh are the samples that finished in the last `freshness`, up to now. */
  lemma {:induction false} FreshOnlyExactly(h: seq<Sample>, now: int, freshness: int, s: Sample)
    ensures s in FreshOnly(h, now, freshness) <==> s in h && now - freshness <= s.finishedAt <= now
  {
    if h != [] {
      var n := |h| - 1;
      FreshOnlyExactly(h[..n], now, freshness, s);
      assert h == h[..n] + [h[n]];
    }
  }

  /** The i-th sample published by the process is number i + 1. */
  predicate Numbers(h: seq<Sample>) {
    forall i :: 0 <= i < |h| ==> h[i].sequence == Sat(i + 1)
  }

  lemma NumbersSnoc(h: seq<Sample>, s: Sample)
    requires Numbers(h)
    ensures Numbers(h + [Numbered(h, s)])
  {
  }

  /** Numbers rise without ties until the counter saturates. */
  predicate Rises(h: seq<Sample>) {
    forall i, j :: 0 <= i < j < |h| ==> h[i].sequence < h[j].sequence || h[j].sequence == MAX64
  }

  lemma {:induction false} FreshRises(h: seq<Sample>, now: int, freshness: int)
    requires Rises(h)
    ensures Rises(FreshOnly(h, now, freshness))
    ensures forall s :: s in FreshOnly(h, now, freshness) ==> s in h
  {
    if h != [] {
      var n := |h| - 1;
      FreshRises(h[..n], now, freshness);
      var kept := FreshOnly(h[..n], now, freshness);
      forall i | 0 <= i < |kept|
        ensures kept[i].sequence < h[n].sequence || h[n].sequence == MAX64
      {
        assert kept[i] in h[..n];
      }
    }
  }

  /** The retained samples carry the last consecutive numbers, oldest first. */
  lemma RetainedNumbers(h: seq<Sample>)
    requires Numbers(h)
    ensures forall i :: 0 <= i < |Retained(h)| ==> Retained(h)[i].sequence == Sat(|h| - |Retained(h)| + i + 1)
    ensures Rises(Retained(h))
  {
    forall i | 0 <= i < |Retained(h)|
      ensures Retained(h)[i].sequence == Sat(|h| - |Retained(h)| + i + 1)
    {
      assert Retained(h)[i] == h[|h| - |Retained(h)| + i];
    }
  }

  /** The latest finish time of the retained samples, fresh or not. */
  function LatestFinish(h: seq<Sample>): Option<int> {
    if h == [] then None
    else
      var last, rest := h[|h| - 1], LatestFinish(h[..|h| - 1]);
      if rest.None? || last.finishedAt > rest.value then Some(last.finishedAt) else rest
  }

  lemma ReadSnoc(h: seq<Sample>, i: nat, now: int, freshness: int)
    requires i < |h|
    ensures FreshOnly(h[..i + 1], now, freshness) ==
            FreshOnly(h[..i], now, freshness) + if IsFresh(h[i], now, freshness) then [h[i]] else []
    ensures var rest := LatestFinish(h[..i]);
            LatestFinish(h[..i + 1]) ==
            if rest.None? || h[i].finishedAt > rest.value then Some(h[i].finishedAt) else rest
  {
    assert h[..i + 1][..i] == h[..i] && h[..i + 1][i] == h[i];
  }

  lemma {:induction false} LatestFinishIsMaximum(h: seq<Sample>)
    ensures h == [] <==> LatestFinish(h).None?
    ensures h != [] ==> (exists s :: s in h && s.finishedAt == LatestFinish(h).value)
    ensures forall s :: s in h ==> s.finishedAt <= LatestFinish(h).value
  {
    if h != [] {
      var front, last := h[..|h| - 1], h[|h| - 1];
      LatestFinishIsMaximum(front);
      assert h == front + [last];
      assert forall s :: s in h <==> s in front || s == last;
    }
  }

  /** The slots after the samples of `h` were stored round the ring. */
  function RingOf(blank: Sample, h: seq<Sample>): (ring: seq<Sample>)
    ensures |ring| == CAPACITY
  {
    if h == [] then seq(CAPACITY, _ => blank)
    else RingOf(blank, h[..|h| - 1])[(|h| - 1) % CAPACITY := h[|h| - 1]]
  }

  /** Each of the last 64 samples is still in its slot. */
  lemma {:induction false} RingKeepsRecent(blank: Sample, h: seq<Sample>, i: nat)
    requires i < |h| <= i + CAPACITY
    ensures RingOf(blank, h)[i % CAPACITY] == h[i]
    decreases |h|
  {
    var n := |h| - 1;
    var front := h[..n];
    assert RingOf(blank, h) == RingOf(blank, front)[n % CAPACITY := h[n]];
    if i < n {
      RingKeepsRecent(blank, front, i);
      OtherSlot(i, n);
      assert front[i] == h[i];
    }
  }

  lemma OtherSlot(i: nat, n: nat)
    requires i < n < i + 64
    ensures i % 64 != n % 64
  {
    assert i == 64 * (i / 64) + i % 64 && n == 64 * (n / 64) + n % 64;
  }

  lemma RingAt(blank: Sample, h: seq<Sample>, slot: nat, at: nat)
    requires slot < CAPACITY && at < |h| <= at + CAPACITY && slot == at % 64
    ensures RingOf(blank, h)[slot] == h[at]
  {
    RingKeepsRecent(blank, h, at);
  }

  lemma NextSlot(n: nat)
    ensures (n + 1) % 64 == (n % 64 + 1) % 64
  {
    assert n == 64 * (n / 64) + n % 64;
    SameSlot(n / 64, n % 64 + 1);
  }

  lemma SameSlot(k: nat, i: nat)
    ensures (64 * k + i) % 64 == i % 64
  {
    assert i == 64 * (i / 64) + i % 64;
  }

  lemma RingSnoc(blank: Sample, h: seq<Sample>, s: Sample)
    ensures RingOf(blank, h + [s]) == RingOf(blank, h)[|h| % CAPACITY := s]
    ensures (|h| + 1) % CAPACITY == (|h| % CAPACITY + 1) % CAPACITY
  {
    assert (h + [s])[..|h|] == h;
    NextSlot(|h|);
  }

  lemma RetainedAt(h: seq<Sample>, i: nat)
    requires i < |Retained(h)|
    ensures |h| <= |h| - |Retained(h)| + i + CAPACITY
    ensures Retained(h)[i] == h[|h| - |Retained(h)| + i]
  {
  }

  /** Position |h| - count + i of the history sits in the slot that the modular
      index of Snapshot computes. */
  lemma SlotOf(n: nat, count: nat, i: nat)
    requires i < count <= 64 && count <= n
    ensures (n % 64 - count + i + 64) % 64 == (n - count + i) % 64
  {
    assert n == 64 * (n / 64) + n % 64;
  }

  /** Snapshot reads the i-th oldest retained sample. */
  lemma RingIndex(blank: Sample, h: seq<Sample>, count: nat, i: nat)
    requires count == |Retained(h)| && i < count
    ensures 0 <= (|h| % CAPACITY - count + i + CAPACITY) % CAPACITY < CAPACITY
    ensures RingOf(blank, h)[(|h| % CAPACITY - count + i + CAPACITY) % CAPACITY] == Retained(h)[i]
  {
    var slot, at := (|h| % CAPACITY - count + i + CAPACITY) % CAPACITY, |h| - count + i;
    SlotOf(|h|, count, i);
    RingAt(blank, h, slot, at);
    RetainedAt(h, i);
  }

  datatype Snapshot = Snapshot(installed: bool, resetAt: Option<int>, tally: Tally, failures: int, retained: nat,
                               observedAt: Option<int>, samples: seq<Sample>, known: bool)

  method AllComplete(samples: seq<Sample>) returns (complete: bool)
    ensures complete <==> forall s :: s in samples ==> s.complete
  {
    complete := true;
    for i := 0 to |samples|
      invariant complete <==> forall s :: s in samples[..i] ==> s.complete
    {
      assert samples[..i + 1] == samples[..i] + [samples[i]];
      if !samples[i].complete {
        complete := false;
      }
    }
    assert samples[..|samples|] == samples;
  }

  /** The process-wide counter of failed callbacks, wrapping at 64 bits. */
  class Process {
    var failures: nat

    constructor ()
      ensures failures == 0
    {
      failures := 0;
    }

    method Fail()
      modifies this
      ensures failures == Bumped(old(failures))
    {
      failures := Bumped(failures);
    }
  }

  class Metrics {
    const process: Process
    const blank: Sample
    var installed: bool
    var reset: Option<int>
    var next: nat
    var count: nat
    var healthAtReset: nat
    var tally: Tally
    const samples: array<Sample>
    /** Every sample ever published, in publication order. */
    ghost var history: seq<Sample>

    ghost predicate SlotsHold(h: seq<Sample>)
      reads `next, `count, samples
    {
      && samples.Length == CAPACITY
      && samples[..] == RingOf(blank, h)
      && next == |h| % CAPACITY
      && count == |Retained(h)|
    }

    ghost predicate Valid()
      reads this, samples
    {
      tally == TallyOf(history, reset.Some?) && SlotsHold(history) && Numbers(history)
      && (installed ==> reset.Some?) && (reset.None? ==> history == [])
    }

    constructor (process: Process, blank: Sample)
      ensures Valid() && history == [] && this.process == process && fresh(samples)
      ensures !installed && reset.None?
    {
      this.process, this.blank := process, blank;
      installed, reset, next, count, healthAtReset := false, None, 0, 0, 0;
      tally, history := Tally(0, 0, 0, 0, false, NoCounts()), [];
      samples := new Sample[CAPACITY](_ => blank);
    }

    method Configure(installed: bool, now: int)
      requires Valid()
      modifies this
      ensures Valid() && history == old(history) && this.installed == installed && reset.Some?
      ensures old(reset).Some? ==> reset == old(reset) && healthAtReset == old(healthAtReset)
      ensures old(reset).None? ==> reset == Some(now) && healthAtReset == process.failures && tally.complete
    {
      this.installed := installed;
      if reset.None? {
        reset := Some(now);
        healthAtReset := process.failures;
        tally := tally.(complete := true);
      }
    }

    method StoreSample(sample: Sample)
      requires SlotsHold(history)
      modifies `next, `count, `history, samples
      ensures history == old(history) + [sample] && SlotsHold(history)
    {
      RingSnoc(blank, history, sample);
      samples[next] := sample;
      next := (next + 1) % CAPACITY;
      count := if count + 1 < CAPACITY then count + 1 else CAPACITY;
      history := history + [sample];
    }

    method CountPublished(s: Sample) returns (sample: Sample)
      requires tally == TallyOf(history, true)
      modifies `tally
      ensures sample == Numbered(history, s) && tally == TallyOf(history + [sample], true)
    {
      tally, sample := CountSample(tally, s, history, true);
    }

    /** The second critical section of Finish. */
    method Publish(s: Sample)
      requires Valid() && reset.Some?
      modifies `tally, `next, `count, `history, samples
      ensures Valid() && reset == old(reset) && installed == old(installed) && healthAtReset == old(healthAtReset)
      ensures history == old(history) + [Numbered(old(history), s)]
    {
      NumbersSnoc(history, s);
      var sample := CountPublished(s);
      StoreSample(sample);
    }

    /** The i-th oldest retained sample. */
    method SampleAt(i: nat) returns (sample: Sample)
      requires SlotsHold(history) && i < count
      ensures sample == Retained(history)[i]
    {
      RingIndex(blank, history, count, i);
      sample := samples[..][(next - count + i + CAPACITY) % CAPACITY];
    }

    method ReadRing(now: int, freshness: int) returns (observed: Option<int>, kept: seq<Sample>)
      requires Valid()
      ensures observed == LatestFinish(Retained(history))
      ensures kept == FreshOnly(Retained(history), now, freshness)
    {
      ghost var recent := Retained(history);
      observed, kept := None, [];
      for i := 0 to count
        invariant observed == LatestFinish(recent[..i])
        invariant kept == FreshOnly(recent[..i], now, freshness)
      {
        var sample := SampleAt(i);
        ReadSnoc(recent, i, now, freshness);
        if observed.None? || sample.finishedAt > observed.value {
          observed := Some(sample.finishedAt);
        }
        if IsFresh(sample, now, freshness) {
          kept := kept + [sample];
        }
      }
      assert recent[..count] == recent;
    }

    /** Reads the ring from oldest to newest: consecutive numbers up to the newest
        publication, of which the fresh ones are returned in rising order. */
    method TakeSnapshot(now: int, freshness: int) returns (out: Snapshot)
      requires Valid()
      ensures out.installed == installed && out.resetAt == reset && out.tally == TallyOf(history, reset.Some?)
      ensures out.retained == |Retained(history)|
      ensures forall i :: 0 <= i < out.retained ==>
                            Retained(history)[i].sequence == Sat(|history| - out.retained + i + 1)
      ensures Rises(out.samples)
      ensures out.failures == Elapsed(process.failures, healthAtReset)
      ensures 0 < freshness <= MAX_FRESHNESS ==>
                && out.samples == FreshOnly(Retained(history), now, freshness)
                && out.observedAt == LatestFinish(Retained(history))
                && (out.known <==>
                      && installed && out.samples != [] && out.failures == 0 && out.tally.complete
                      && forall s :: s in out.samples ==> s.complete)
      ensures !(0 < freshness <= MAX_FRESHNESS) ==> out.samples == [] && out.observedAt.None? && !out.known
    {
      RetainedNumbers(history);
      out := Snapshot(installed, reset, tally, Elapsed(process.failures, healthAtReset), count, None, [], false);
      if freshness <= 0 || freshness > MAX_FRESHNESS {
        return;
      }
      var observed, kept := ReadRing(now, freshness);
      assert Rises(kept) by {
        FreshRises(Retained(history), now, freshness);
      }
      var complete := AllComplete(kept);
      var known := installed && kept != [] && out.failures == 0 && tally.complete && complete;
      out := out.(observedAt := observed, samples := kept, known := known);
    }
  }

  class Collector {
    const owner: Metrics
    var state: State

    constructor (owner: Metrics, now: int, sourceBytes: nat)
      requires sourceBytes <= MAX64
      ensures this.owner == owner && state == Fresh(now, sourceBytes, owner.process.failures)
    {
      this.owner := owner;
      state := Fresh(now, sourceBytes, owner.process.failures);
    }

    method StartStatement() returns (started: bool)
      modifies this, owner.process
      ensures state == Step(old(state), Event.Start)
      ensures started <==> !old(state).sealed && old(state).active != MAX64
      ensures owner.process.failures == if old(state).sealed then Bumped(old(owner.process.failures))
                                        else old(owner.process.failures)
    {
      if state.sealed {
        owner.process.Fail();
        return false;
      }
      if state.active == MAX64 {
        state := state.(sample := state.sample.(complete := false));
        return false;
      }
      state := state.(active := state.active + 1);
      return true;
    }

    method ObserveCounts(counts: Counts)
      modifies this, owner.process
      ensures state == Step(old(state), Observe(counts))
      ensures owner.process.failures == if old(state).sealed then Bumped(old(owner.process.failures))
                                        else old(owner.process.failures)
    {
      if state.sealed {
        owner.process.Fail();
        return;
      }
      if state.active == 0 {
        state := state.(sample := state.sample.(complete := false));
      } else {
        state := state.(active := state.active - 1);
      }
      var sum, valid := AddCounts(state.sample.counts, counts);
      state := state.(sample := state.sample.(counts := sum, complete := state.sample.complete && valid));
    }

    method MarkIncomplete()
      modifies this
      ensures state == Step(old(state), Invalidate)
    {
      state := state.(sample := state.sample.(complete := false));
    }

    /** The first critical section of Finish. */
    method Seal(failed: bool, returned: bool, now: int)
      requires !state.sealed
      modifies this
      ensures state == Sealed(old(state), Finish(failed, returned, now, owner.process.failures))
    {
      var sample := state.sample.(finishedAt := now);
      if state.active != 0 || state.health != owner.process.failures {
        sample := sample.(complete := false);
      }
      if returned && !failed {
        sample := sample.(confirmed := true, outcome := CommitConfirmed);
      } else if returned {
        sample := sample.(confirmed := false, outcome := ErrorOrUnknown);
      } else {
        sample := sample.(confirmed := false, outcome := PanicOrUnfinished);
      }
      sample := sample.(affectedRows := if sample.counts[UNKNOWN_WRITE_ROWS] == 0
                                        then Some(sample.counts[OBSERVED_WRITE_ROWS]) else None);
      state := state.(sealed := true, sample := sample);
    }

    /** Seals the collector and hands its sample to the owner; a second call does
        nothing. */
    method FinishBatch(failed: bool, returned: bool, now: int)
      requires owner.Valid() && owner.reset.Some?
      modifies this, owner`tally, owner`next, owner`count, owner`history, owner.samples
      ensures owner.Valid()
      ensures state == Step(old(state), Finish(failed, returned, now, old(owner.process.failures)))
      ensures old(state).sealed ==> owner.history == old(owner.history)
      ensures !old(state).sealed ==>
                owner.history == old(owner.history) + [Numbered(old(owner.history), state.sample)]
    {
      if state.sealed {
        return;
      }
      Seal(failed, returned, now);
      owner.Publish(state.sample);
    }
  }
}
