/** The runtime view of the system schedules: publication rows of all nodes become
    one row at the end. */
module ScheduleMerge {
  import opened Wrappers

  datatype JobState = JobRunning | CancelRequested | JobQueued | JobUnknown | JobOther

  /** Times in milliseconds. */
  datatype ScheduleView = ScheduleView(id: string, owner: string, state: JobState, lastState: string,
                                       runs: int, failures: int, missed: int, nextAt: int,
                                       started: Option<int>, finished: Option<int>)

  datatype State = Running | Unknown | Queued | Idle

  /** What one finished run tells: these four fields move together. */
  datatype Last = Last(started: Option<int>, finished: Option<int>, duration: int, result: string)

  datatype Tally = Tally(running: int, runs: int, failures: int, missed: int, concurrency: int)

  datatype Snapshot = Snapshot(id: string, queue: bool, state: State, tally: Tally, nextScan: Option<int>, last: Last)

  predicate Publication(id: string) {
    "node_publish_" <= id
  }

  function Plus(a: Tally, b: Tally): Tally {
    Tally(a.running + b.running, a.runs + b.runs, a.failures + b.failures, a.missed + b.missed,
          a.concurrency + b.concurrency)
  }

  function StateOf(s: JobState): State {
    match s
    case JobRunning => Running
    case CancelRequested => Running
    case JobQueued => Queued
    case JobUnknown => Unknown
    case JobOther => Idle
  }

  function View(row: ScheduleView): Snapshot {
    var state := StateOf(row.state);
    var queue := row.id == "admin_tasks" || row.id == "event_consumer" || Publication(row.id);
    var duration := if row.finished.Some? && row.started.Some? && row.finished.value >= row.started.value
                    then row.finished.value - row.started.value else 0;
    Snapshot(row.id, queue, state,
             Tally(if state == Running then 1 else 0, row.runs, row.failures, row.missed, 1),
             if state == Idle && !queue then Some(row.nextAt) else None,
             Last(row.started, row.finished, duration, if row.lastState == "" then "never" else row.lastState))
  }

  /** What a row's view shows. A next scan is shown only of an idle row that is no queue, a
      duration only of a run that finished after it started. */
  lemma ViewShows(row: ScheduleView)
    ensures var v := View(row);
            && v.id == row.id
            && (v.state == Running <==> row.state == JobRunning || row.state == CancelRequested)
            && (v.state == Queued <==> row.state == JobQueued)
            && (v.state == Unknown <==> row.state == JobUnknown)
            && (v.state == Idle <==> row.state == JobOther)
            && v.tally.running == (if v.state == Running then 1 else 0) && v.tally.concurrency == 1
            && v.tally.runs == row.runs && v.tally.failures == row.failures && v.tally.missed == row.missed
            && (v.queue <==> row.id == "admin_tasks" || row.id == "event_consumer"
                             || (|row.id| >= 13 && row.id[..13] == "node_publish_"))
            && (v.nextScan != None <==> v.state == Idle && !v.queue)
            && (v.nextScan != None ==> v.nextScan == Some(row.nextAt))
            && v.last.started == row.started && v.last.finished == row.finished
            && (v.last.result == row.lastState || (row.lastState == "" && v.last.result == "never"))
            && (row.lastState == "" ==> v.last.result == "never")
            && v.last.duration >= 0
            && (v.last.duration > 0 ==>
                  row.started.Some? && row.finished == Some(row.started.value + v.last.duration))
            && (row.started.Some? && row.finished.Some? && row.finished.value > row.started.value ==>
                  v.last.duration > 0)
  {
  }

  /** The views of the system's own rows, in order. */
  function Views(rows: seq<ScheduleView>): seq<Snapshot> {
    if rows == [] then []
    else Views(rows[..|rows| - 1]) + if rows[|rows| - 1].owner == "system" then [View(rows[|rows| - 1])] else []
  }

  lemma ViewsGrow(rows: seq<ScheduleView>, row: ScheduleView)
    ensures Views([]) == []
    ensures Views(rows + [row]) == Views(rows) + if row.owner == "system" then [View(row)] else []
  {
    assert (rows + [row])[..|rows|] == rows;
  }

  function Others(views: seq<Snapshot>): seq<Snapshot> {
    if views == [] then []
    else
      var v := views[|views| - 1];
      Others(views[..|views| - 1]) + if Publication(v.id) then [] else [v]
  }

  function Publications(views: seq<Snapshot>): seq<Snapshot> {
    if views == [] then []
    else
      var v := views[|views| - 1];
      Publications(views[..|views| - 1]) + if Publication(v.id) then [v] else []
  }

  function Sum(views: seq<Snapshot>): Tally {
    if views == [] then Tally(0, 0, 0, 0, 0) else Plus(Sum(views[..|views| - 1]), views[|views| - 1].tally)
  }

  // ------------------------------------------------------------- the merged row

  predicate Has(views: seq<Snapshot>, s: State) {
    exists i :: 0 <= i < |views| && views[i].state == s
  }

  /** running > unknown > queued > idle */
  function Highest(views: seq<Snapshot>): State {
    if Has(views, Running) then Running
    else if Has(views, Unknown) then Unknown
    else if Has(views, Queued) then Queued
    else Idle
  }

  predicate Later(a: Option<int>, b: Option<int>) {
    a.Some? && (b.None? || a.value > b.value)
  }

  /** `last` is that of the first publication among those that finished last. */
  predicate Latest(views: seq<Snapshot>, last: Last) {
    exists i :: 0 <= i < |views| && views[i].last == last && NoneLater(views, i)
  }

  predicate NoneLater(views: seq<Snapshot>, i: nat)
    requires i < |views|
  {
    && (forall j :: 0 <= j < |views| ==> !Later(views[j].last.finished, views[i].last.finished))
    && (forall j :: 0 <= j < i ==> Later(views[i].last.finished, views[j].last.finished))
  }

  /** What the publication row says about all the rows it stands for. */
  predicate Merges(p: Snapshot, views: seq<Snapshot>) {
    && p.id == "node_publish" && p.queue && p.nextScan.None?
    && p.tally == Sum(views) && p.state == Highest(views) && Latest(views, p.last)
  }

  /** The one publication row: a queue without a next scan, that runs if one of its rows
      does, else is unknown if one is, else queued if one is, and shows the last run. */
  lemma MergesShows(p: Snapshot, views: seq<Snapshot>)
    requires Merges(p, views)
    ensures p.id == "node_publish" && p.queue && p.nextScan == None && p.tally == Sum(views)
    ensures p.state == Running <==> exists v :: v in views && v.state == Running
    ensures p.state == Unknown <==>
            (exists v :: v in views && v.state == Unknown) && forall v :: v in views ==> v.state != Running
    ensures p.state == Queued <==>
            && (exists v :: v in views && v.state == Queued)
            && forall v :: v in views ==> v.state != Running && v.state != Unknown
    ensures exists v :: v in views && v.last == p.last
    ensures forall v :: v in views && v.last.finished.Some? ==>
                          p.last.finished.Some? && v.last.finished.value <= p.last.finished.value
  {
    forall s: State
      ensures Has(views, s) <==> exists v :: v in views && v.state == s
    {
      if v :| v in views && v.state == s {
        var i :| 0 <= i < |views| && views[i] == v;
        assert views[i].state == s;
      }
      if i :| 0 <= i < |views| && views[i].state == s {
        assert views[i] in views;
      }
    }
    var i :| 0 <= i < |views| && views[i].last == p.last && NoneLater(views, i);
    assert views[i] in views;
  }

  /** A view made from a row: one run at most, counted when running. */
  predicate Proper(v: Snapshot) {
    v.tally.running == (if v.state == Running then 1 else 0)
    && (Publication(v.id) ==> v.queue && v.nextScan.None?)
  }

  predicate AllProper(views: seq<Snapshot>) {
    forall i :: 0 <= i < |views| ==> Proper(views[i])
  }

  lemma {:induction false} RunningCounted(views: seq<Snapshot>)
    requires AllProper(views)
    ensures Sum(views).running >= 0 && (Sum(views).running > 0 <==> Has(views, Running))
  {
    if views != [] {
      var n := |views| - 1;
      RunningCounted(views[..n]);
      if Has(views[..n], Running) {
        var i :| 0 <= i < n && views[..n][i].state == Running;
        assert views[i].state == Running;
      }
      if Has(views, Running) && views[n].state != Running {
        var i :| 0 <= i < |views| && views[i].state == Running;
        assert views[..n][i].state == Running;
      }
    }
  }

  lemma HasSnoc(views: seq<Snapshot>, v: Snapshot, s: State)
    ensures Has(views + [v], s) <==> Has(views, s) || v.state == s
  {
    var after := views + [v];
    if Has(views, s) {
      var i :| 0 <= i < |views| && views[i].state == s;
      assert after[i].state == s;
    }
    assert after[|views|] == v;
    if Has(after, s) && v.state != s {
      var i :| 0 <= i < |after| && after[i].state == s;
      assert views[i].state == s;
    }
  }

  /** One more row: unknown sticks, running and queued replace what is not unknown. */
  function Raised(state: State, v: State): State {
    if v == Unknown then Unknown
    else if state != Unknown && (v == Running || v == Queued) then v
    else state
  }

  /** Without a running row, the carried state is the highest. */
  lemma RaisedHighest(state: State, views: seq<Snapshot>, v: Snapshot)
    requires !Has(views, Running) ==> state == Highest(views)
    ensures !Has(views + [v], Running) ==> Raised(state, v.state) == Highest(views + [v])
  {
    HasSnoc(views, v, Running);
    HasSnoc(views, v, Unknown);
    HasSnoc(views, v, Queued);
  }

  function Taken(last: Last, v: Snapshot): Last {
    if Later(v.last.finished, last.finished) then v.last else last
  }

  lemma TakenLatest(last: Last, views: seq<Snapshot>, v: Snapshot)
    requires Latest(views, last)
    ensures Latest(views + [v], Taken(last, v))
  {
    var after := views + [v];
    var i :| 0 <= i < |views| && views[i].last == last && NoneLater(views, i);
    if Later(v.last.finished, last.finished) {
      assert after[|views|].last == v.last;
      forall j | 0 <= j < |views|
        ensures Later(v.last.finished, after[j].last.finished)
      {
        assert after[j] == views[j];
      }
      assert NoneLater(after, |views|);
    } else {
      assert after[i] == views[i];
      forall j | 0 <= j < |after|
        ensures !Later(after[j].last.finished, last.finished)
      {
        assert j < |views| ==> after[j] == views[j];
      }
      assert NoneLater(after, i);
    }
  }

  /** The merged row depends on the rows' order only through ties of the last finish. */
  lemma OrderOnlyBreaksTies(p: Snapshot, q: Snapshot, a: seq<Snapshot>, b: seq<Snapshot>)
    requires Merges(p, a) && Merges(q, b) && multiset(a) == multiset(b)
    ensures p.tally == q.tally && p.state == q.state && p.last.finished == q.last.finished
    ensures p.(last := q.last) == q
  {
    SumOfSame(a, b);
    SameHighest(a, b);
    var i :| 0 <= i < |a| && a[i].last == p.last && NoneLater(a, i);
    var j :| 0 <= j < |b| && b[j].last == q.last && NoneLater(b, j);
    InBoth(a, b, i);
    InBoth(b, a, j);
  }

  lemma InBoth(a: seq<Snapshot>, b: seq<Snapshot>, i: nat)
    requires multiset(a) == multiset(b) && i < |a|
    ensures exists k :: 0 <= k < |b| && b[k] == a[i]
  {
    assert a[i] in multiset(a);
    assert a[i] in b;
  }

  lemma SameHighest(a: seq<Snapshot>, b: seq<Snapshot>)
    requires multiset(a) == multiset(b)
    ensures Highest(a) == Highest(b)
  {
    forall s
      ensures Has(a, s) <==> Has(b, s)
    {
      if Has(a, s) {
        var i :| 0 <= i < |a| && a[i].state == s;
        InBoth(a, b, i);
      }
      if Has(b, s) {
        var i :| 0 <= i < |b| && b[i].state == s;
        InBoth(b, a, i);
      }
    }
  }

  lemma {:induction false} SumRemoves(b: seq<Snapshot>, k: nat)
    requires k < |b|
    ensures Sum(b) == Plus(Sum(b[..k] + b[k + 1..]), b[k].tally)
    decreases |b|
  {
    var n := |b| - 1;
    if k == n {
      assert b[..k] + b[k + 1..] == b[..n];
    } else {
      SumRemoves(b[..n], k);
      var rest := b[..k] + b[k + 1..];
      assert rest[..|rest| - 1] == b[..n][..k] + b[..n][k + 1..];
    }
  }

  lemma MultisetRemoves(b: seq<Snapshot>, k: nat)
    requires k < |b|
    ensures multiset(b[..k] + b[k + 1..]) == multiset(b) - multiset{b[k]}
  {
    assert b == b[..k] + [b[k]] + b[k + 1..];
  }

  /** Sums do not depend on order. */
  lemma {:induction false} SumOfSame(a: seq<Snapshot>, b: seq<Snapshot>)
    requires multiset(a) == multiset(b)
    ensures Sum(a) == Sum(b)
    decreases |a|
  {
    if a == [] {
      assert |multiset(b)| == 0;
    } else {
      var n := |a| - 1;
      InBoth(a, b, n);
      var k :| 0 <= k < |b| && b[k] == a[n];
      MultisetRemoves(a, n);
      MultisetRemoves(b, k);
      assert a[..n] + a[n + 1..] == a[..n];
      SumOfSame(a[..n], b[..k] + b[k + 1..]);
      SumRemoves(b, k);
    }
  }

  // ------------------------------------------------------------------- loops

  lemma ViewsSnoc(rows: seq<ScheduleView>, row: ScheduleView)
    ensures Views(rows + [row]) == if row.owner == "system" then Views(rows) + [View(row)] else Views(rows)
  {
    assert (rows + [row])[..|rows|] == rows;
    assert Views(rows) + [] == Views(rows);
  }

  lemma {:induction false} ViewsProper(rows: seq<ScheduleView>)
    ensures AllProper(Views(rows))
  {
    if rows != [] {
      ViewsProper(rows[..|rows| - 1]);
    }
  }

  lemma SplitSnoc(views: seq<Snapshot>, v: Snapshot)
    ensures Others(views + [v]) == if Publication(v.id) then Others(views) else Others(views) + [v]
    ensures Publications(views + [v]) == if Publication(v.id) then Publications(views) + [v] else Publications(views)
  {
    assert (views + [v])[..|views|] == views;
    assert Others(views) + [] == Others(views) && Publications(views) + [] == Publications(views);
  }

  lemma {:induction false} PublicationsProper(views: seq<Snapshot>)
    requires AllProper(views)
    ensures AllProper(Publications(views))
  {
    if views != [] {
      var n := |views| - 1;
      assert AllProper(views[..n]);
      PublicationsProper(views[..n]);
      assert Proper(views[n]);
    }
  }

  lemma SumSnoc(views: seq<Snapshot>, v: Snapshot)
    ensures Sum(views + [v]) == Plus(Sum(views), v.tally)
  {
    assert (views + [v])[..|views|] == views;
  }

  /** The row under construction after some publications. */
  ghost predicate Building(p: Option<Snapshot>, views: seq<Snapshot>) {
    && (p.None? <==> views == [])
    && (p.Some? ==>
          && p.value.id == "node_publish" && p.value.queue && p.value.nextScan.None?
          && p.value.tally == Sum(views) && Latest(views, p.value.last)
          && (!Has(views, Running) ==> p.value.state == Highest(views)))
  }

  lemma FirstBuilds(v: Snapshot)
    requires v.queue && v.nextScan.None?
    ensures Building(Some(v.(id := "node_publish")), [v])
  {
    assert [v][..0] == [] && Sum([]) == Tally(0, 0, 0, 0, 0) && Sum([v]) == v.tally;
    assert [v][0].last == v.last && NoneLater([v], 0);
    assert [v][0].state == v.state;
  }

  lemma NextBuilds(p: Snapshot, views: seq<Snapshot>, v: Snapshot)
    requires Building(Some(p), views)
    ensures Building(Some(p.(tally := Plus(p.tally, v.tally), last := Taken(p.last, v),
                             state := Raised(p.state, v.state))), views + [v])
  {
    SumSnoc(views, v);
    TakenLatest(p.last, views, v);
    RaisedHighest(p.state, views, v);
    HasSnoc(views, v, Running);
  }

  /** The first loop: own rows only, each as its view. */
  method Snapshots(rows: seq<ScheduleView>) returns (out: seq<Snapshot>)
    ensures out == Views(rows) && AllProper(out)
  {
    out := [];
    for n := 0 to |rows|
      invariant out == Views(rows[..n])
    {
      assert rows[..n + 1] == rows[..n] + [rows[n]];
      ViewsSnoc(rows[..n], rows[n]);
      if rows[n].owner == "system" {
        out := out + [View(rows[n])];
      }
    }
    assert rows[..|rows|] == rows;
    ViewsProper(rows);
  }

  /** The rows that are no publication, in order, and then one row for the rest. */
  method RuntimeScheduleSnapshots(rows: seq<ScheduleView>) returns (merged: seq<Snapshot>)
    ensures Publications(Views(rows)) == [] ==> merged == Others(Views(rows))
    ensures Publications(Views(rows)) != [] ==>
              |merged| == |Others(Views(rows))| + 1 && merged[..|merged| - 1] == Others(Views(rows))
              && Merges(merged[|merged| - 1], Publications(Views(rows)))
    ensures Sum(merged) == Sum(Views(rows))
  {
    var out := Snapshots(rows);
    merged := [];
    var publication: Option<Snapshot> := None;
    for n := 0 to |out|
      invariant merged == Others(out[..n]) && Building(publication, Publications(out[..n]))
    {
      var view := out[n];
      assert out[..n + 1] == out[..n] + [view];
      SplitSnoc(out[..n], view);
      assert Proper(view);
      if !Publication(view.id) {
        merged := merged + [view];
      } else {
        publication := Merge(publication, view, Publications(out[..n]));
      }
    }
    assert out[..|out|] == out;
    SumSplits(out);
    if publication.Some? {
      var p := publication.value;
      if p.tally.running > 0 {
        p := p.(state := Running);
      }
      PublicationsProper(out);
      RunningCounted(Publications(out));
      SumSnoc(merged, p);
      merged := merged + [p];
    }
  }

  method Merge(publication: Option<Snapshot>, view: Snapshot, ghost views: seq<Snapshot>)
    returns (r: Option<Snapshot>)
    requires Building(publication, views) && Publication(view.id) && Proper(view)
    ensures Building(r, views + [view])
  {
    if publication.None? {
      FirstBuilds(view);
      assert views + [view] == [view];
      return Some(view.(id := "node_publish"));
    }
    var p := publication.value;
    NextBuilds(p, views, view);
    var state, last := p.state, p.last;
    if Later(view.last.finished, p.last.finished) {
      last := view.last;
    }
    if view.state == Unknown {
      state := Unknown;
    } else if state != Unknown && (view.state == Running || view.state == Queued) {
      state := view.state;
    }
    r := Some(p.(tally := Plus(p.tally, view.tally), last := last, state := state));
  }

  lemma PlusAdds(a: Tally, b: Tally, c: Tally)
    ensures Plus(Plus(a, b), c) == Plus(a, Plus(b, c)) == Plus(Plus(a, c), b)
  {
  }

  /** Nothing is lost between the rows kept and the rows merged. */
  lemma {:induction false} SumSplits(views: seq<Snapshot>)
    ensures Sum(views) == Plus(Sum(Others(views)), Sum(Publications(views)))
  {
    if views != [] {
      var n := |views| - 1;
      var o, p, v := Others(views[..n]), Publications(views[..n]), views[n];
      SumSplits(views[..n]);
      if Publication(v.id) {
        assert Others(views) == o && Publications(views) == p + [v];
        SumSnoc(p, v);
      } else {
        assert Others(views) == o + [v] && Publications(views) == p;
        SumSnoc(o, v);
      }
      PlusAdds(Sum(o), Sum(p), v.tally);
    }
  }
}
