/** Latency histograms of the load run, and the percentiles read from them. */
module LoadMetrics {
  import opened Order

  const CEILING := 60000

  function Clamped(milliseconds: nat): nat {
    if milliseconds > CEILING then CEILING else milliseconds
  }

  // ----------------------------------------------------- ranks of a sequence

  function Insert(x: nat, s: seq<nat>): seq<nat> {
    if s == [] || x <= s[0] then [x] + s else [s[0]] + Insert(x, s[1..])
  }

  function Sort(s: seq<nat>): seq<nat> {
    if s == [] then [] else Insert(s[|s| - 1], Sort(s[..|s| - 1]))
  }

  predicate Ordered(s: seq<nat>) {
    forall i, j :: 0 <= i < j < |s| ==> s[i] <= s[j]
  }

  function CountLe(s: seq<nat>, k: int): nat {
    if s == [] then 0 else CountLe(s[1..], k) + if s[0] <= k then 1 else 0
  }

  /** ceil(n * p / 100) - 1 */
  function RankIndex(n: nat, p: nat): int {
    (n * p + 99) / 100 - 1
  }

  lemma {:induction false} InsertOrdered(x: nat, s: seq<nat>, k: int)
    requires Ordered(s)
    ensures Ordered(Insert(x, s)) && |Insert(x, s)| == |s| + 1
    ensures forall y :: y in Insert(x, s) <==> y == x || y in s
    ensures CountLe(Insert(x, s), k) == CountLe(s, k) + if x <= k then 1 else 0
    decreases |s|
  {
    if s == [] || x <= s[0] {
      assert ([x] + s)[1..] == s;
    } else {
      InsertOrdered(x, s[1..], k);
      var rest := Insert(x, s[1..]);
      assert ([s[0]] + rest)[1..] == rest;
      assert forall y :: y in s <==> y == s[0] || y in s[1..];
      forall j | 0 <= j < |rest|
        ensures s[0] <= rest[j]
      {
        assert rest[j] in rest;
      }
    }
  }

  lemma {:induction false} CountLeSnoc(s: seq<nat>, x: nat, k: int)
    ensures CountLe(s + [x], k) == CountLe(s, k) + if x <= k then 1 else 0
    decreases |s|
  {
    if s == [] {
      assert [x][1..] == [] && s + [x] == [x];
    } else {
      assert (s + [x])[1..] == s[1..] + [x];
      CountLeSnoc(s[1..], x, k);
    }
  }

  lemma {:induction false} SortCounts(s: seq<nat>, k: int)
    ensures Ordered(Sort(s)) && |Sort(s)| == |s|
    ensures forall y :: y in Sort(s) <==> y in s
    ensures CountLe(Sort(s), k) == CountLe(s, k)
    decreases |s|
  {
    if s != [] {
      var n := |s| - 1;
      SortCounts(s[..n], k);
      InsertOrdered(s[n], Sort(s[..n]), k);
      CountLeSnoc(s[..n], s[n], k);
      assert s == s[..n] + [s[n]];
    }
  }

  lemma {:induction false} InsertAdds(x: nat, s: seq<nat>)
    ensures multiset(Insert(x, s)) == multiset(s) + multiset{x}
    decreases |s|
  {
    if s != [] && x > s[0] {
      InsertAdds(x, s[1..]);
      assert s == [s[0]] + s[1..];
    }
  }

  /** Sorting orders the very same elements. */
  lemma {:induction false} SortPermutes(s: seq<nat>)
    ensures multiset(Sort(s)) == multiset(s) && Ordered(Sort(s))
    decreases |s|
  {
    if s != [] {
      var front, last := s[..|s| - 1], s[|s| - 1];
      SortPermutes(front);
      InsertAdds(last, Sort(front));
      assert s == front + [last];
    }
    SortCounts(s, 0);
  }

  /** In an ordered sequence, the elements up to k are the first CountLe of them. */
  lemma {:induction false} OrderedCount(s: seq<nat>, k: int, i: nat)
    requires Ordered(s) && i < |s|
    ensures i < CountLe(s, k) <==> s[i] <= k
    ensures CountLe(s, k) <= |s|
    decreases |s|
  {
    if s[0] > k {
      NoneCounted(s, k);
    } else if i > 0 {
      OrderedCount(s[1..], k, i - 1);
    } else if |s| > 1 {
      OrderedCount(s[1..], k, 0);
    } else {
      assert s[1..] == [];
    }
  }

  lemma {:induction false} NoneCounted(s: seq<nat>, k: int)
    requires forall i :: 0 <= i < |s| ==> s[i] > k
    ensures CountLe(s, k) == 0
    decreases |s|
  {
    if s != [] {
      NoneCounted(s[1..], k);
    }
  }

  lemma RankFound(sorted: seq<nat>, target: nat, below: int, k: nat)
    requires Ordered(sorted) && 1 <= target <= |sorted|
    requires CountLe(sorted, below) < target <= CountLe(sorted, k)
    requires forall x :: x in sorted ==> x <= below || x >= k
    ensures sorted[target - 1] == k
  {
    OrderedCount(sorted, below, target - 1);
    OrderedCount(sorted, k, target - 1);
    assert sorted[target - 1] in sorted;
  }

  /** The first recorded value with `target` values up to it is the target-th smallest. */
  lemma FirstReached(s: seq<nat>, target: nat, below: int, k: nat)
    requires 1 <= target <= |s| && k in s
    requires CountLe(s, below) < target <= CountLe(s, k)
    requires forall x :: x in s ==> x <= below || x >= k
    ensures |Sort(s)| == |s| && Sort(s)[target - 1] == k
  {
    var sorted := Sort(s);
    SortCounts(s, below);
    SortCounts(s, k);
    RankFound(sorted, target, below, k);
  }

  lemma NearestRank(n: nat, p: nat)
    requires n > 0 && 0 < p <= 100
    ensures 100 * RankIndex(n, p) < n * p <= 100 * (RankIndex(n, p) + 1)
  {
    assert n * p > 0;
  }

  /** More than i recorded values are at most the one of rank i, and at most i are below it. */
  lemma RankCounts(s: seq<nat>, i: nat)
    requires i < |s|
    ensures |Sort(s)| == |s|
    ensures var v: int := Sort(s)[i]; CountLe(s, v - 1) <= i < CountLe(s, v)
  {
    SortCounts(s, 0);
    var v: int := Sort(s)[i];
    SortCounts(s, v);
    SortCounts(s, v - 1);
    OrderedCount(Sort(s), v, i);
    OrderedCount(Sort(s), v - 1, i);
  }

  lemma RankCovers(n: nat, p: nat, i: int, lt: nat, le: nat)
    requires n > 0 && 0 < p <= 100 && i == RankIndex(n, p) && lt <= i < le
    ensures 100 * lt < n * p <= 100 * le
  {
    NearestRank(n, p);
  }

  /** What a percentile says of the recorded values: at least p in a hundred are no
      greater, and fewer than that are smaller. */
  lemma PercentileCovers(s: seq<nat>, p: nat)
    requires s != [] && 0 < p <= 100
    ensures |Sort(s)| == |s| && 0 <= RankIndex(|s|, p) < |s|
    ensures var v: int := Sort(s)[RankIndex(|s|, p)];
            100 * CountLe(s, v) >= |s| * p && 100 * CountLe(s, v - 1) < |s| * p
  {
    TargetInRange(|s|, p);
    var i := RankIndex(|s|, p);
    RankCounts(s, i);
    var v: int := Sort(s)[i];
    RankCovers(|s|, p, i, CountLe(s, v - 1), CountLe(s, v));
  }

  // --------------------------------------------------------------- histogram

  function Occurs(s: seq<nat>, k: nat): nat {
    if s == [] then 0 else Occurs(s[..|s| - 1], k) + if s[|s| - 1] == k then 1 else 0
  }

  ghost predicate Histogram(h: map<nat, nat>, s: seq<nat>) {
    forall k :: (k in h <==> k in s) && (k in h ==> h[k] == Occurs(s, k))
  }

  lemma {:induction false} Absent(s: seq<nat>, k: nat)
    requires k !in s
    ensures Occurs(s, k) == 0
  {
    if s != [] {
      Absent(s[..|s| - 1], k);
    }
  }

  lemma HistogramSnoc(h: map<nat, nat>, s: seq<nat>, x: nat)
    requires Histogram(h, s)
    ensures Histogram(h[x := (if x in h then h[x] else 0) + 1], s + [x])
  {
    assert (s + [x])[..|s|] == s;
    if x !in s {
      Absent(s, x);
    }
  }

  /** Moving the bound from one recorded value to the next adds its occurrences. */
  lemma {:induction false} CountStep(s: seq<nat>, below: int, k: nat)
    requires below < k && forall x :: x in s ==> x <= below || x >= k
    ensures CountLe(s, k) == CountLe(s, below) + Occurs(s, k)
    decreases |s|
  {
    if s != [] {
      var n := |s| - 1;
      assert forall x :: x in s[..n] ==> x in s;
      CountStep(s[..n], below, k);
      CountLeSnoc(s[..n], s[n], k);
      CountLeSnoc(s[..n], s[n], below);
      assert s == s[..n] + [s[n]];
      assert s[n] in s;
    }
  }

  lemma {:induction false} AllCounted(s: seq<nat>, k: int)
    requires forall x :: x in s ==> x <= k
    ensures CountLe(s, k) == |s|
    decreases |s|
  {
    if s != [] {
      assert s[0] in s && forall x :: x in s[1..] ==> x in s;
      AllCounted(s[1..], k);
    }
  }

  lemma TargetInRange(count: nat, percentile: nat)
    requires count > 0 && 0 < percentile <= 100
    ensures 1 <= (count * percentile + 99) / 100 <= count
  {
    assert count * percentile >= 1;
    assert count * percentile <= count * 100;
  }

  lemma KeyStep(h: map<nat, nat>, s: seq<nat>, keys: seq<nat>, i: nat)
    requires Histogram(h, s) && Rising(keys) && i < |keys| && forall k :: k in keys <==> k in s
    ensures keys[i] in s && keys[i] in h
    ensures CountLe(s, keys[i]) == CountLe(s, Below(keys, i)) + h[keys[i]]
    ensures forall x :: x in s ==> x <= Below(keys, i) || x >= keys[i]
  {
    Between(s, keys, i);
    CountStep(s, Below(keys, i), keys[i]);
  }

  /** The keys in ascending order, added up until the target is reached. */
  method Reach(h: map<nat, nat>, target: nat, ghost s: seq<nat>) returns (ms: nat)
    requires Histogram(h, s) && 1 <= target <= |s|
    ensures |Sort(s)| == |s| && ms == Sort(s)[target - 1]
  {
    var keys := Ascending(h.Keys);
    KeysAscend(h, s, keys);
    var seen, i := 0, 0;
    NoneCounted(s, -1);
    while true
      invariant 0 <= i < |keys|
      invariant seen == CountLe(s, Below(keys, i)) < target
      decreases |keys| - i
    {
      KeyStep(h, s, keys, i);
      seen := seen + h[keys[i]];
      if seen >= target {
        FirstReached(s, target, Below(keys, i), keys[i]);
        return keys[i];
      }
      if i == |keys| - 1 {
        AllCounted(s, keys[i]);
      }
      i := i + 1;
    }
  }

  method Percentile(h: map<nat, nat>, count: nat, percentile: nat, ghost s: seq<nat>) returns (ms: nat)
    requires Histogram(h, s) && count == |s| > 0 && 0 < percentile <= 100
    ensures |Sort(s)| == |s| && 0 <= RankIndex(|s|, percentile) < |s|
    ensures ms == Sort(s)[RankIndex(|s|, percentile)]
  {
    TargetInRange(count, percentile);
    ms := Reach(h, (count * percentile + 99) / 100, s);
  }

  function Below(keys: seq<nat>, i: nat): int
    requires i <= |keys|
  {
    if i == 0 then -1 else keys[i - 1]
  }

  lemma KeysAscend(h: map<nat, nat>, s: seq<nat>, keys: seq<nat>)
    requires Histogram(h, s) && s != [] && keys == Ascending(h.Keys)
    ensures keys != [] && Rising(keys) && (forall k :: k in keys <==> k in s)
    ensures forall x :: x in s ==> x <= keys[|keys| - 1]
  {
    AscendingRises(h.Keys);
    forall k
      ensures k in keys <==> k in s
    {
      AscendingMembers(h.Keys, k);
    }
    assert s[0] in s && s[0] in keys;
  }

  lemma Between(s: seq<nat>, keys: seq<nat>, i: nat)
    requires Rising(keys) && i < |keys| && forall k :: k in keys <==> k in s
    ensures Below(keys, i) < keys[i] && keys[i] in s
    ensures forall x :: x in s ==> x <= Below(keys, i) || x >= keys[i]
  {
    assert keys[i] in keys;
    forall x | x in s
      ensures x <= Below(keys, i) || x >= keys[i]
    {
      var j :| 0 <= j < |keys| && keys[j] == x;
      assert i > 0 && j < i - 1 ==> keys[j] < keys[i - 1];
    }
  }

  /** A higher percentile is never below a lower one. */
  lemma PercentilesRise(s: seq<nat>, low: nat, high: nat)
    requires s != [] && 0 < low <= high <= 100
    ensures |Sort(s)| == |s| && 0 <= RankIndex(|s|, low) <= RankIndex(|s|, high) < |s|
    ensures Sort(s)[RankIndex(|s|, low)] <= Sort(s)[RankIndex(|s|, high)]
  {
    TargetInRange(|s|, low);
    TargetInRange(|s|, high);
    assert |s| * low <= |s| * high;
    SortCounts(s, 0);
  }

  // ------------------------------------------------------------- the recorder

  datatype Sample = Sample(name: string, milliseconds: nat, status: int, error: string)

  datatype Row = Row(count: nat, errors: nat, milliseconds: map<nat, nat>)

  datatype Failure = Failure(path: string, status: int, error: string)

  predicate Bad(x: Sample) {
    x.status < 200 || x.status >= 300
  }

  /** Latencies up to a minute are recorded as they are and longer ones as a minute; only
      statuses from 200 to 299 are no errors. */
  lemma RecordedAs(x: Sample)
    ensures x.milliseconds <= 60000 ==> Clamped(x.milliseconds) == x.milliseconds
    ensures x.milliseconds > 60000 ==> Clamped(x.milliseconds) == 60000
    ensures !Bad(x) <==> x.status / 100 == 2
    ensures |x.error| <= 300 ==> Cut(x.error) == x.error
    ensures |x.error| > 300 ==> Cut(x.error) <= x.error && |Cut(x.error)| == 300
  {
  }

  /** The clamped latencies recorded under one name. */
  function Latencies(log: seq<Sample>, name: string): seq<nat> {
    if log == [] then []
    else
      var x := log[|log| - 1];
      Latencies(log[..|log| - 1], name) + if x.name == name then [Clamped(x.milliseconds)] else []
  }

  function Errors(log: seq<Sample>, name: string): nat {
    if log == [] then 0
    else
      var x := log[|log| - 1];
      Errors(log[..|log| - 1], name) + if x.name == name && Bad(x) then 1 else 0
  }

  function Cut(error: string): string {
    if |error| > 300 then error[..300] else error
  }

  /** Every failing sample, in order. */
  function Failing(log: seq<Sample>): seq<Failure> {
    if log == [] then []
    else
      var x := log[|log| - 1];
      Failing(log[..|log| - 1]) + if Bad(x) then [Failure(x.name, x.status, Cut(x.error))] else []
  }

  function First(n: nat, s: seq<Failure>): seq<Failure> {
    if |s| > n then s[..n] else s
  }

  ghost predicate Tells(row: Row, log: seq<Sample>, name: string) {
    && row.count == |Latencies(log, name)| > 0 && row.errors == Errors(log, name)
    && Histogram(row.milliseconds, Latencies(log, name))
  }

  ghost predicate Kept(rows: map<string, Row>, log: seq<Sample>) {
    && (forall name :: name in rows ==> Tells(rows[name], log, name))
    && (forall name :: name !in rows ==> Latencies(log, name) == [] && Errors(log, name) == 0)
  }

  function Counted(row: Row, x: Sample): Row {
    var ms := Clamped(x.milliseconds);
    Row(row.count + 1, row.errors + (if Bad(x) then 1 else 0),
        row.milliseconds[ms := (if ms in row.milliseconds then row.milliseconds[ms] else 0) + 1])
  }

  lemma LogSnoc(log: seq<Sample>, x: Sample, name: string)
    ensures Latencies(log + [x], name) ==
            if x.name == name then Latencies(log, name) + [Clamped(x.milliseconds)] else Latencies(log, name)
    ensures Errors(log + [x], name) == Errors(log, name) + if x.name == name && Bad(x) then 1 else 0
    ensures Failing(log + [x]) ==
            if Bad(x) then Failing(log) + [Failure(x.name, x.status, Cut(x.error))] else Failing(log)
  {
    assert (log + [x])[..|log|] == log;
    assert Latencies(log, name) + [] == Latencies(log, name) && Failing(log) + [] == Failing(log);
  }

  lemma FailuresSnoc(log: seq<Sample>, x: Sample)
    ensures var shown := First(10, Failing(log));
            First(10, Failing(log + [x])) ==
            if Bad(x) && |shown| < 10 then shown + [Failure(x.name, x.status, Cut(x.error))] else shown
  {
    LogSnoc(log, x, x.name);
  }

  lemma CountedTells(rows: map<string, Row>, log: seq<Sample>, x: Sample)
    requires Kept(rows, log)
    ensures Tells(Counted(if x.name in rows then rows[x.name] else Row(0, 0, map[]), x), log + [x], x.name)
  {
    var row := if x.name in rows then rows[x.name] else Row(0, 0, map[]);
    HistogramSnoc(row.milliseconds, Latencies(log, x.name), Clamped(x.milliseconds));
    LogSnoc(log, x, x.name);
  }

  lemma OthersTell(rows: map<string, Row>, log: seq<Sample>, x: Sample, name: string)
    requires Kept(rows, log) && name != x.name
    ensures name in rows ==> Tells(rows[name], log + [x], name)
    ensures name !in rows ==> Latencies(log + [x], name) == [] && Errors(log + [x], name) == 0
  {
    LogSnoc(log, x, name);
  }

  /** The rows with one of them counted anew. */
  lemma KeptPut(rows: map<string, Row>, log: seq<Sample>, name: string, row: Row)
    requires Tells(row, log, name)
    requires forall n :: n != name && n in rows ==> Tells(rows[n], log, n)
    requires forall n :: n != name && n !in rows ==> Latencies(log, n) == [] && Errors(log, n) == 0
    ensures Kept(rows[name := row], log)
  {
  }

  lemma KeptSnoc(rows: map<string, Row>, log: seq<Sample>, x: Sample)
    requires Kept(rows, log)
    ensures Kept(rows[x.name := Counted(if x.name in rows then rows[x.name] else Row(0, 0, map[]), x)], log + [x])
  {
    CountedTells(rows, log, x);
    forall n | n != x.name
      ensures n in rows ==> Tells(rows[n], log + [x], n)
      ensures n !in rows ==> Latencies(log + [x], n) == [] && Errors(log + [x], n) == 0
    {
      OthersTell(rows, log, x, n);
    }
    KeptPut(rows, log + [x], x.name, Counted(if x.name in rows then rows[x.name] else Row(0, 0, map[]), x));
  }

  /** One more sample, over the rows and failures as values. */
  lemma Recorded(rows: map<string, Row>, failures: seq<Failure>, log: seq<Sample>, x: Sample,
                 counted: map<string, Row>, shown: seq<Failure>, whole: seq<Sample>)
    requires Kept(rows, log) && failures == First(10, Failing(log)) && whole == log + [x]
    requires counted == rows[x.name := Counted(if x.name in rows then rows[x.name] else Row(0, 0, map[]), x)]
    requires shown ==
             if Bad(x) && |failures| < 10 then failures + [Failure(x.name, x.status, Cut(x.error))] else failures
    ensures Kept(counted, whole) && shown == First(10, Failing(whole))
  {
    KeptSnoc(rows, log, x);
    FailuresSnoc(log, x);
  }

  datatype Entry = Entry(count: nat, errors: nat, p50: nat, p95: nat, p99: nat)

  /** The nearest-rank percentiles of what was recorded. */
  ghost predicate Summarizes(e: Entry, log: seq<Sample>, name: string) {
    var s := Latencies(log, name);
    && e.count == |s| == |Sort(s)| > 0 && e.errors == Errors(log, name)
    && 0 <= RankIndex(|s|, 50) < |s| && e.p50 == Sort(s)[RankIndex(|s|, 50)]
    && 0 <= RankIndex(|s|, 95) < |s| && e.p95 == Sort(s)[RankIndex(|s|, 95)]
    && 0 <= RankIndex(|s|, 99) < |s| && e.p99 == Sort(s)[RankIndex(|s|, 99)]
  }

  lemma SummaryRises(e: Entry, log: seq<Sample>, name: string)
    requires Summarizes(e, log, name)
    ensures e.p50 <= e.p95 <= e.p99 <= CEILING
  {
    var s := Latencies(log, name);
    PercentilesRise(s, 50, 95);
    PercentilesRise(s, 95, 99);
    SortCounts(s, 0);
    LatenciesClamped(log, name);
    assert e.p99 in Sort(s);
  }

  lemma {:induction false} LatenciesClamped(log: seq<Sample>, name: string)
    ensures forall ms :: ms in Latencies(log, name) ==> ms <= CEILING
  {
    if log != [] {
      LatenciesClamped(log[..|log| - 1], name);
    }
  }

  class Metrics {
    var rows: map<string, Row>
    var failures: seq<Failure>
    ghost var log: seq<Sample>

    ghost predicate Valid()
      reads this
    {
      Kept(rows, log) && failures == First(10, Failing(log))
    }

    constructor ()
      ensures Valid() && log == []
    {
      rows, failures, log := map[], [], [];
    }

    method Record(x: Sample)
      requires Valid()
      modifies this
      ensures Valid() && log == old(log) + [x]
    {
      var row := if x.name in rows then rows[x.name] else Row(0, 0, map[]);
      var counted := rows[x.name := Counted(row, x)];
      var shown := failures;
      if Bad(x) && |failures| < 10 {
        shown := failures + [Failure(x.name, x.status, Cut(x.error))];
      }
      ghost var whole := log + [x];
      Recorded(rows, failures, log, x, counted, shown, whole);
      rows, failures, log := counted, shown, whole;
      assert Kept(rows, log) && failures == First(10, Failing(log));
    }

    method Summary() returns (result: map<string, Entry>)
      requires Valid()
      ensures result.Keys == rows.Keys
      ensures forall name :: name in result ==> Summarizes(result[name], log, name)
    {
      result := map[];
      var names := rows.Keys;
      while names != {}
        invariant names <= rows.Keys && result.Keys == rows.Keys - names
        invariant forall name :: name in result ==> Summarizes(result[name], log, name)
        decreases |names|
      {
        var name :| name in names;
        var entry := Summarize(rows[name], name);
        result := result[name := entry];
        names := names - {name};
      }
    }

    method Summarize(row: Row, ghost name: string) returns (e: Entry)
      requires Tells(row, log, name)
      ensures Summarizes(e, log, name)
    {
      ghost var s := Latencies(log, name);
      var p50 := Percentile(row.milliseconds, row.count, 50, s);
      var p95 := Percentile(row.milliseconds, row.count, 95, s);
      var p99 := Percentile(row.milliseconds, row.count, 99, s);
      e := Entry(row.count, row.errors, p50, p95, p99);
    }
  }
}
