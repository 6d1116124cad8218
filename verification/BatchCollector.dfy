/** One collector per transaction batch: which interleavings of its callbacks
    publish a complete sample, as a state machine over its locked steps. */
module BatchCollector {
  import opened Wrappers

  const MAX64: nat := 0xffff_ffff_ffff_ffff

  /** The thirteen counters, in the order in which they are added; those below are
      the ones that steps or properties name. */
  const FIELDS: nat := 13
  const STATEMENTS: nat := 0
  const READS: nat := 1
  const WRITES: nat := 2
  const UNKNOWN_STATEMENTS: nat := 3
  const STATEMENT_ERRORS: nat := 4
  const EXPECTED_READ_MISSES: nat := 5
  const OBSERVED_WRITE_ROWS: nat := 7
  const UNKNOWN_WRITE_ROWS: nat := 8
  const SOURCE_BYTES: nat := 11

  predicate IsCounts(s: seq<nat>) {
    |s| == 13 && forall f :: 0 <= f < 13 ==> s[f] <= 0xffff_ffff_ffff_ffff
  }

  type Counts = s: seq<nat> | IsCounts(s) witness [0, 0, 0, 0, 0, 0, 0, 0, 0, 0, 0, 0, 0]

  function NoCounts(): Counts {
    [0, 0, 0, 0, 0, 0, 0, 0, 0, 0, 0, 0, 0]
  }

  function Sat(n: nat): nat {
    if n <= MAX64 then n else MAX64
  }

  /** Pointwise saturating sum. */
  function Plus(a: Counts, b: Counts): (c: Counts) {
    seq(FIELDS, f requires 0 <= f < FIELDS => Sat(a[f] + b[f]))
  }

  /** No counter overflows. */
  predicate NoOverflow(a: Counts, b: Counts) {
    forall f :: 0 <= f < FIELDS ==> a[f] + b[f] <= MAX64
  }

  datatype Outcome = Pending | CommitConfirmed | ErrorOrUnknown | PanicOrUnfinished

  datatype Sample = Sample(sequence: nat, startedAt: int, finishedAt: int, outcome: Outcome, confirmed: bool,
                           complete: bool, affectedRows: Option<nat>, counts: Counts)

  datatype State = State(sample: Sample, active: nat, sealed: bool, health: nat)

  /** The locked steps; `failures` is the process-wide callback failure count
      when the step reads it. */
  datatype Event =
    | Start
    | Observe(counts: Counts)
    | Invalidate
    | Finish(failed: bool, returned: bool, now: int, failures: nat)

  function Fresh(now: int, sourceBytes: nat, failures: nat): State
    requires sourceBytes <= MAX64
  {
    State(Sample(0, now, 0, Pending, false, true, None, NoCounts()[SOURCE_BYTES := sourceBytes]), 0, false, failures)
  }

  function Spoiled(c: State): State {
    c.(sample := c.sample.(complete := false))
  }

  /** The sample as Finish leaves it. */
  function Sealed(c: State, e: Event): State
    requires e.Finish?
  {
    c.(sealed := true,
       sample := c.sample.(finishedAt := e.now,
                           complete := c.sample.complete && c.active == 0 && c.health == e.failures,
                           confirmed := e.returned && !e.failed,
                           outcome := if e.returned && !e.failed then CommitConfirmed
                                      else if e.returned then ErrorOrUnknown
                                      else PanicOrUnfinished,
                           affectedRows := if c.sample.counts[UNKNOWN_WRITE_ROWS] == 0
                                           then Some(c.sample.counts[OBSERVED_WRITE_ROWS]) else None))
  }

  function Step(c: State, e: Event): State {
    match e
    case Start => if c.sealed then c else if c.active == MAX64 then Spoiled(c) else c.(active := c.active + 1)
    case Observe(n) =>
      if c.sealed then c
      else
        var counted := c.sample.(counts := Plus(c.sample.counts, n),
                                 complete := c.sample.complete && c.active != 0 && NoOverflow(c.sample.counts, n));
        c.(sample := counted, active := if c.active == 0 then 0 else c.active - 1)
    case Invalidate => Spoiled(c)
    case Finish(_, _, _, _) => if c.sealed then c else Sealed(c, e)
  }

  /** Callbacks after the seal are counted as failures of the process. */
  predicate Fails(c: State, e: Event) {
    c.sealed && (e.Start? || e.Observe?)
  }

  function Run(c: State, events: seq<Event>): State
    decreases |events|
  {
    if events == [] then c else Run(Step(c, events[0]), events[1..])
  }

  /** The samples a run hands to its owner. */
  function Published(c: State, events: seq<Event>): seq<Sample>
    decreases |events|
  {
    if events == [] then []
    else
      (if events[0].Finish? && !c.sealed then [Step(c, events[0]).sample] else [])
      + Published(Step(c, events[0]), events[1..])
  }

  // ------------------------------------------------------------ at most one

  /** After the seal nothing is published any more, and the only thing a call can
      still change is the collector's own completeness flag. */
  lemma {:induction false} SealedIsFinal(c: State, events: seq<Event>)
    requires c.sealed
    ensures Published(c, events) == []
    ensures Run(c, events) == c || Run(c, events) == Spoiled(c)
    decreases |events|
  {
    if events != [] {
      SealedIsFinal(Step(c, events[0]), events[1..]);
    }
  }

  /** The position of the first Finish, or the end. */
  function FirstFinish(events: seq<Event>): (i: nat)
    ensures i <= |events|
    ensures i < |events| ==> events[i].Finish?
    ensures forall j :: 0 <= j < i ==> !events[j].Finish?
  {
    if events == [] then 0 else if events[0].Finish? then 0 else 1 + FirstFinish(events[1..])
  }

  /** A collector publishes exactly one sample if it is ever finished and none
      otherwise, and that sample is fixed by the events before its first Finish. */
  lemma {:induction false} PublishesAtMostOnce(c: State, events: seq<Event>)
    requires !c.sealed
    ensures var i := FirstFinish(events);
            && !Run(c, events[..i]).sealed
            && Published(c, events) ==
               if i == |events| then [] else [Sealed(Run(c, events[..i]), events[i]).sample]
    decreases |events|
  {
    if events != [] {
      if events[0].Finish? {
        SealedIsFinal(Step(c, events[0]), events[1..]);
      } else {
        var i := FirstFinish(events[1..]);
        PublishesAtMostOnce(Step(c, events[0]), events[1..]);
        assert events[..i + 1][0] == events[0] && events[..i + 1][1..] == events[1..][..i];
      }
    }
  }

  // -------------------------------------------------------- complete is exact

  /** Starts and observes pair up, like brackets, from `depth` open statements. */
  predicate Matched(events: seq<Event>, depth: nat)
    decreases |events|
  {
    if events == [] then depth == 0
    else
      match events[0]
      case Start => depth < MAX64 && Matched(events[1..], depth + 1)
      case Observe(_) => depth > 0 && Matched(events[1..], depth - 1)
      case Invalidate => false
      case Finish(_, _, _, _) => false
  }

  /** The exact, unbounded sum of one observed counter. */
  function Total(events: seq<Event>, f: nat): nat
    requires f < FIELDS
    decreases |events|
  {
    if events == [] then 0
    else (if events[0].Observe? then events[0].counts[f] else 0) + Total(events[1..], f)
  }

  /** Counters are the saturation of the exact sums, always; the statistics are
      complete and nothing is open exactly when the calls pair up and every sum fits. */
  lemma {:induction false} CountsAreSaturatedSums(c: State, events: seq<Event>, f: nat)
    requires !c.sealed && f < FIELDS && forall j :: 0 <= j < |events| ==> !events[j].Finish?
    ensures Run(c, events).sample.counts[f] == Sat(c.sample.counts[f] + Total(events, f))
    ensures Run(c, events).health == c.health && !Run(c, events).sealed
    decreases |events|
  {
    if events != [] {
      CountsAreSaturatedSums(Step(c, events[0]), events[1..], f);
    }
  }

  lemma {:induction false} SpoiledStaysSpoiled(c: State, events: seq<Event>)
    requires !c.sample.complete
    ensures !Run(c, events).sample.complete
    decreases |events|
  {
    if events != [] {
      SpoiledStaysSpoiled(Step(c, events[0]), events[1..]);
    }
  }

  /** Every exact sum, counted from `counts`, fits in 64 bits. */
  predicate SumsFit(counts: Counts, events: seq<Event>) {
    forall f :: 0 <= f < FIELDS ==> counts[f] + Total(events, f) <= MAX64
  }

  lemma SumsFitStep(counts: Counts, events: seq<Event>)
    requires events != []
    ensures !events[0].Observe? ==> (SumsFit(counts, events) <==> SumsFit(counts, events[1..]))
    ensures events[0].Observe? && NoOverflow(counts, events[0].counts) ==>
              (SumsFit(counts, events) <==> SumsFit(Plus(counts, events[0].counts), events[1..]))
    ensures events[0].Observe? && !NoOverflow(counts, events[0].counts) ==> !SumsFit(counts, events)
  {
    forall f | 0 <= f < FIELDS
      ensures Total(events, f) == (if events[0].Observe? then events[0].counts[f] else 0) + Total(events[1..], f)
    {
    }
    if events[0].Observe? {
      if NoOverflow(counts, events[0].counts) {
        forall f | 0 <= f < FIELDS
          ensures Plus(counts, events[0].counts)[f] + Total(events[1..], f) == counts[f] + Total(events, f)
        {
        }
      } else {
        var f :| 0 <= f < FIELDS && counts[f] + events[0].counts[f] > MAX64;
        assert counts[f] + Total(events, f) > MAX64;
      }
    }
  }

  lemma {:induction false} CompleteExactly(c: State, events: seq<Event>)
    requires !c.sealed && c.sample.complete && c.active <= MAX64
    requires forall j :: 0 <= j < |events| ==> !events[j].Finish?
    ensures var v := Run(c, events);
            v.sample.complete && v.active == 0 <==> Matched(events, c.active) && SumsFit(c.sample.counts, events)
    decreases |events|
  {
    if events == [] {
      assert SumsFit(c.sample.counts, events);
    } else {
      var next := Step(c, events[0]);
      SumsFitStep(c.sample.counts, events);
      if next.sample.complete {
        CompleteExactly(next, events[1..]);
      } else {
        SpoiledStaysSpoiled(next, events[1..]);
      }
    }
  }

  /** A published sample is complete exactly when, before the seal, every start
      was matched by an observe, nothing was invalidated, no sum left 64 bits and
      the process counted no callback failure; and then its counters are the
      exact sums. */
  lemma PublishedSampleExactly(now: int, sourceBytes: nat, failures: nat, events: seq<Event>)
    requires sourceBytes <= MAX64
    requires FirstFinish(events) < |events|
    ensures var c := Fresh(now, sourceBytes, failures);
            var i := FirstFinish(events);
            && |Published(c, events)| == 1
            && var s := Published(c, events)[0];
               && (s.complete <==>
                     && Matched(events[..i], 0)
                     && SumsFit(c.sample.counts, events[..i])
                     && events[i].failures == failures)
               && forall f :: 0 <= f < FIELDS ==> s.counts[f] == Sat(c.sample.counts[f] + Total(events[..i], f))
  {
    var c := Fresh(now, sourceBytes, failures);
    var i := FirstFinish(events);
    PublishesAtMostOnce(c, events);
    CompleteExactly(c, events[..i]);
    forall f | 0 <= f < FIELDS
      ensures Run(c, events[..i]).sample.counts[f] == Sat(c.sample.counts[f] + Total(events[..i], f))
      ensures Run(c, events[..i]).health == c.health
    {
      CountsAreSaturatedSums(c, events[..i], f);
    }
    assert Run(c, events[..i]).health == c.health by {
      CountsAreSaturatedSums(c, events[..i], 0);
    }
  }

  /** What the published sample says about its transaction, read off the first Finish:
      committed only when it returned without an error, affected rows only while no
      write left them unknown. */
  ghost predicate Reports(s: Sample, now: int, before: seq<Event>, failed: bool, returned: bool, at: int) {
    && s.startedAt == now && s.finishedAt == at
    && (s.confirmed <==> returned && !failed)
    && (s.outcome.CommitConfirmed? <==> returned && !failed)
    && (s.outcome.ErrorOrUnknown? <==> returned && failed)
    && (s.outcome.PanicOrUnfinished? <==> !returned)
    && (s.affectedRows.Some? <==> Total(before, UNKNOWN_WRITE_ROWS) == 0)
    && (s.affectedRows.Some? ==> s.affectedRows.value == Sat(Total(before, OBSERVED_WRITE_ROWS)))
  }

  lemma {:induction false} StartedStays(c: State, events: seq<Event>)
    requires !c.sealed && forall j :: 0 <= j < |events| ==> !events[j].Finish?
    ensures Run(c, events).sample.startedAt == c.sample.startedAt
    decreases |events|
  {
    if events != [] {
      StartedStays(Step(c, events[0]), events[1..]);
    }
  }

  lemma PublishedReports(now: int, sourceBytes: nat, failures: nat, events: seq<Event>)
    requires sourceBytes <= MAX64
    requires FirstFinish(events) < |events|
    ensures var published, i := Published(Fresh(now, sourceBytes, failures), events), FirstFinish(events);
            |published| == 1
            && Reports(published[0], now, events[..i], events[i].failed, events[i].returned, events[i].now)
  {
    var c, i := Fresh(now, sourceBytes, failures), FirstFinish(events);
    PublishesAtMostOnce(c, events);
    CountsAreSaturatedSums(c, events[..i], UNKNOWN_WRITE_ROWS);
    CountsAreSaturatedSums(c, events[..i], OBSERVED_WRITE_ROWS);
    StartedStays(c, events[..i]);
  }

  predicate Balanced(n: Counts) {
    n[STATEMENTS] == n[READS] + n[WRITES] + n[UNKNOWN_STATEMENTS]
  }

  lemma {:induction false} TotalsBalance(events: seq<Event>)
    requires forall j :: 0 <= j < |events| && events[j].Observe? ==> Balanced(events[j].counts)
    ensures Total(events, STATEMENTS) ==
            Total(events, READS) + Total(events, WRITES) + Total(events, UNKNOWN_STATEMENTS)
    decreases |events|
  {
    if events != [] {
      TotalsBalance(events[1..]);
    }
  }

  /** When every observed statement was classified once, a complete sample
      accounts for every statement as a read, a write or an unknown. */
  lemma CompleteSampleBalances(now: int, sourceBytes: nat, failures: nat, events: seq<Event>)
    requires sourceBytes <= MAX64
    requires FirstFinish(events) < |events|
    requires forall j :: 0 <= j < |events| && events[j].Observe? ==> Balanced(events[j].counts)
    ensures var published := Published(Fresh(now, sourceBytes, failures), events);
            |published| == 1 && (published[0].complete ==> Balanced(published[0].counts))
  {
    PublishedSampleExactly(now, sourceBytes, failures, events);
    var before := events[..FirstFinish(events)];
    var s := Published(Fresh(now, sourceBytes, failures), events)[0];
    if s.complete {
      forall f | f == STATEMENTS || f == READS || f == WRITES || f == UNKNOWN_STATEMENTS
        ensures s.counts[f] == Total(before, f)
      {
      }
      TotalsBalance(before);
    }
  }
}
