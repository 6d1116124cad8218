/** The acceptor of a race-test run: three passing runs of every wanted test, and
    nothing else that could hide a failure. */
module RaceAcceptor {
  import opened Wrappers

  datatype Action = BuildOutput | BuildFail | Run | Pass | Skip | Fail | Other

  /** `package` is None for a package outside the module; `test` is empty for
      package events. */
  datatype Event = Event(action: Action, package: Option<string>, test: string)

  /** The part of a test name before its first slash. */
  function Top(name: string): string {
    if name == "" || name[0] == '/' then "" else [name[0]] + Top(name[1..])
  }

  predicate Subtest(name: string) {
    '/' in name
  }

  lemma {:induction false} TopOfWhole(name: string)
    requires !Subtest(name)
    ensures Top(name) == name
    decreases |name|
  {
    if name != "" {
      assert name[0] in name && forall c :: c in name[1..] ==> c in name;
      TopOfWhole(name[1..]);
      assert name == [name[0]] + name[1..];
    }
  }

  predicate Mark(a: Action) {
    a in {Run, Pass, Skip, Fail}
  }

  /** The events of one top-level test, in order. */
  predicate Marks(e: Event, t: string) {
    e.action != BuildOutput && e.test != "" && !Subtest(e.test) && e.test == t && Mark(e.action)
  }

  function Series(data: seq<Event>, t: string): seq<Action> {
    if data == [] then []
    else Series(data[..|data| - 1], t) + if Marks(data[|data| - 1], t) then [data[|data| - 1].action] else []
  }

  function PackagePasses(data: seq<Event>): nat {
    if data == [] then 0
    else PackagePasses(data[..|data| - 1])
         + if data[|data| - 1].test == "" && data[|data| - 1].action == Pass then 1 else 0
  }

  function Thrice(): seq<Action> {
    [Run, Pass, Run, Pass, Run, Pass]
  }

  /** No build failure, foreign package or foreign test, and no skip or fail of the
      package or of a subtest. */
  predicate Allowed(e: Event, package: string, wanted: set<string>) {
    e.action == BuildOutput
    || (&& e.action != BuildFail && e.package == Some(package)
        && (e.test == "" || Top(e.test) in wanted)
        && (e.test == "" || Subtest(e.test) ==> e.action != Skip && e.action != Fail))
  }

  /** The name before the first slash. */
  lemma {:induction false} TopIs(top: string, rest: string)
    requires '/' !in top && (rest == "" || rest[0] == '/')
    ensures Top(top + rest) == top
    decreases |top|
  {
    if top == "" {
      assert top + rest == rest;
    } else {
      assert (top + rest)[1..] == top[1..] + rest && top[0] in top;
      assert forall c :: c in top[1..] ==> c in top;
      TopIs(top[1..], rest);
    }
  }

  lemma {:induction false} TopSplits(name: string)
    ensures '/' !in Top(name) && Top(name) <= name
    ensures Top(name) == name || name[|Top(name)|] == '/'
    decreases |name|
  {
    if name != "" && name[0] != '/' {
      TopSplits(name[1..]);
    }
  }

  /** What an event may be: build output; or no build failure, of the package under test,
      about the package, a wanted test or a subtest of one, and a skip or fail only of a
      wanted test itself. */
  lemma AllowedExactly(e: Event, package: string, wanted: set<string>)
    ensures Allowed(e, package, wanted) <==>
            || e.action == BuildOutput
            || (&& e.action != BuildFail && e.package == Some(package)
                && (e.test == "" || exists top, rest :: top in wanted && '/' !in top
                                      && (rest == "" || rest[0] == '/') && e.test == top + rest)
                && (e.action == Skip || e.action == Fail ==> e.test != "" && '/' !in e.test))
  {
    TopSplits(e.test);
    var top := Top(e.test);
    assert e.test == top + e.test[|top|..];
    forall a, rest | a in wanted && '/' !in a && (rest == "" || rest[0] == '/') && e.test == a + rest
      ensures Top(e.test) == a
    {
      TopIs(a, rest);
    }
  }

  ghost predicate Accepts(data: seq<Event>, package: string, wanted: set<string>) {
    && (forall i :: 0 <= i < |data| ==> Allowed(data[i], package, wanted))
    && PackagePasses(data) == 1
    && (forall t :: t in wanted ==> Series(data, t) == Thrice())
  }

  lemma {:induction false} SeriesPrefix(data: seq<Event>, n: nat, t: string)
    requires n <= |data|
    ensures Series(data[..n], t) <= Series(data, t) && PackagePasses(data[..n]) <= PackagePasses(data)
    decreases |data|
  {
    if n == |data| {
      assert data[..n] == data;
    } else {
      assert data[..|data| - 1][..n] == data[..n];
      SeriesPrefix(data[..|data| - 1], n, t);
    }
  }

  // ------------------------------------------------------------------- rows

  datatype Row = Row(runs: nat, terminals: seq<Action>)

  /** The row takes the event as its next one. */
  predicate Takes(r: Row, a: Action) {
    if a == Run then r.runs == |r.terminals| && r.runs < 3 else r.runs == |r.terminals| + 1
  }

  function Alternating(terminals: seq<Action>): seq<Action> {
    if terminals == [] then []
    else Alternating(terminals[..|terminals| - 1]) + [Run, terminals[|terminals| - 1]]
  }

  /** The row of a test is its series so far: finished runs, and one open run at most. */
  predicate Shows(r: Row, series: seq<Action>) {
    && |r.terminals| <= r.runs <= |r.terminals| + 1 && r.runs <= 3
    && (forall i :: 0 <= i < |r.terminals| ==> r.terminals[i] in {Pass, Skip, Fail})
    && series == Alternating(r.terminals) + if r.runs > |r.terminals| then [Run] else []
  }

  lemma {:induction false} AlternatingLength(terminals: seq<Action>)
    ensures |Alternating(terminals)| == 2 * |terminals|
  {
    if terminals != [] {
      AlternatingLength(terminals[..|terminals| - 1]);
    }
  }

  /** A series grows by exactly the runs, passes, skips and fails of the test itself. */
  lemma SeriesGrows(data: seq<Event>, e: Event, t: string)
    ensures Series([], t) == [] && PackagePasses([]) == 0
    ensures var own := e.test == t && t != "" && '/' !in t
                       && (e.action == Run || e.action == Pass || e.action == Skip || e.action == Fail);
            Series(data + [e], t) == Series(data, t) + if own then [e.action] else []
    ensures PackagePasses(data + [e]) == PackagePasses(data) + if e.test == "" && e.action == Pass then 1 else 0
  {
    assert (data + [e])[..|data|] == data;
  }

  /** Runs and their ends in turn, at most three of each. */
  predicate Alternates(series: seq<Action>) {
    |series| <= 6
    && forall i :: 0 <= i < |series| ==> if i % 2 == 0 then series[i] == Run else series[i] in {Pass, Skip, Fail}
  }

  lemma {:induction false} AlternatingAt(terminals: seq<Action>, i: nat)
    requires i < |terminals|
    ensures |Alternating(terminals)| == 2 * |terminals|
    ensures Alternating(terminals)[2 * i] == Run && Alternating(terminals)[2 * i + 1] == terminals[i]
    decreases |terminals|
  {
    var n := |terminals| - 1;
    AlternatingLength(terminals);
    AlternatingLength(terminals[..n]);
    if i < n {
      AlternatingAt(terminals[..n], i);
      assert terminals[..n][i] == terminals[i];
    }
  }

  /** A row that shows a series holds its starts and its ends. */
  lemma RowHolds(r: Row, series: seq<Action>)
    requires Shows(r, series)
    ensures Alternates(series) && r.runs == (|series| + 1) / 2 && |r.terminals| == |series| / 2
    ensures forall i :: 0 <= i < |r.terminals| ==> r.terminals[i] == series[2 * i + 1]
  {
    AlternatingLength(r.terminals);
    forall i | 0 <= i < |r.terminals|
      ensures series[2 * i] == Run && series[2 * i + 1] == r.terminals[i]
    {
      AlternatingAt(r.terminals, i);
    }
    forall i | 0 <= i < |series|
      ensures if i % 2 == 0 then series[i] == Run else series[i] in {Pass, Skip, Fail}
    {
      if i / 2 < |r.terminals| {
        assert series[2 * (i / 2)] == Run && series[2 * (i / 2) + 1] == r.terminals[i / 2];
      }
    }
  }

  lemma NextAlternates(series: seq<Action>, a: Action)
    requires Alternates(series) && Mark(a)
    ensures Alternates(series + [a]) <==> |series| < 6 && (a == Run <==> |series| % 2 == 0)
  {
    var next := series + [a];
    assert next[|series|] == a && forall i :: 0 <= i < |series| ==> next[i] == series[i];
  }

  lemma ThriceAlternates(series: seq<Action>)
    requires series <= Thrice()
    ensures Alternates(series)
  {
    assert forall i :: 0 <= i < |series| ==> series[i] == Thrice()[i];
  }

  /** The row takes exactly the next event of an alternating series, so every one on the
      way to three passes. */
  lemma NextIsAccepted(r: Row, series: seq<Action>, a: Action)
    requires Shows(r, series) && Mark(a)
    ensures Takes(r, a) <==> Alternates(series + [a])
    ensures series + [a] <= Thrice() ==> Takes(r, a)
  {
    RowHolds(r, series);
    NextAlternates(series, a);
    if series + [a] <= Thrice() {
      ThriceAlternates(series + [a]);
    }
  }

  function Noted(r: Row, a: Action): Row {
    if a == Run then r.(runs := r.runs + 1) else r.(terminals := r.terminals + [a])
  }

  lemma NotedShows(r: Row, series: seq<Action>, a: Action)
    requires Shows(r, series) && Mark(a) && Takes(r, a)
    ensures Shows(Noted(r, a), series + [a])
  {
    if a != Run {
      assert Noted(r, a).terminals[..|r.terminals|] == r.terminals;
      assert Alternating(r.terminals) + [Run] + [a] == Alternating(r.terminals) + [Run, a];
    } else {
      assert Alternating(r.terminals) + [] == Alternating(r.terminals);
    }
  }

  /** A row is passed exactly when its series is three passing runs. */
  lemma PassedExactly(r: Row, series: seq<Action>)
    requires Shows(r, series)
    ensures r.runs == 3 && r.terminals == [Pass, Pass, Pass] <==> series == Thrice()
  {
    var ts := r.terminals;
    AlternatingLength(ts);
    if |ts| == 3 {
      assert Alternating(ts[..0]) == [];
      assert ts[..1][..0] == ts[..0] && Alternating(ts[..1]) == [Run, ts[0]];
      assert ts[..2][..1] == ts[..1] && Alternating(ts[..2]) == [Run, ts[0], Run, ts[1]];
      assert ts[..3] == ts && Alternating(ts) == [Run, ts[0], Run, ts[1], Run, ts[2]];
      assert Alternating(ts) + [] == Alternating(ts);
    }
  }

  // ----------------------------------------------------------------- the loop

  predicate Admitted(e: Event, package: string, wanted: set<string>) {
    e.action == BuildOutput
    || (e.action != BuildFail && e.package == Some(package) && (e.test == "" || Top(e.test) in wanted))
  }

  /** A skip or fail that leaves no row of its own. */
  predicate Hidden(e: Event) {
    e.action in {Skip, Fail} && (e.test == "" || Subtest(e.test))
  }

  datatype State = State(rows: map<string, Row>, incomplete: bool, packagePass: bool)

  ghost predicate Progress(st: State, data: seq<Event>, package: string, wanted: set<string>) {
    && st.rows.Keys == wanted
    && (forall t :: t in wanted ==> Shows(st.rows[t], Series(data, t)))
    && PackagePasses(data) == (if st.packagePass then 1 else 0)
    && (st.incomplete <==> exists i :: 0 <= i < |data| && Hidden(data[i]))
    && (forall i :: 0 <= i < |data| ==> Admitted(data[i], package, wanted))
  }

  /** A stream that raises nothing: no build failure, nothing foreign, one package pass at
      most, and every wanted test runs and ends in turn. */
  ghost predicate Orderly(data: seq<Event>, package: string, wanted: set<string>) {
    && (forall i :: 0 <= i < |data| ==> Admitted(data[i], package, wanted))
    && PackagePasses(data) <= 1
    && (forall t :: t in wanted ==> Alternates(Series(data, t)))
  }

  lemma OrderlyPrefix(data: seq<Event>, n: nat, package: string, wanted: set<string>)
    requires n <= |data| && Orderly(data, package, wanted)
    ensures Orderly(data[..n], package, wanted)
  {
    SeriesPrefix(data, n, "");
    forall t | t in wanted
      ensures Alternates(Series(data[..n], t))
    {
      SeriesPrefix(data, n, t);
      var part, whole := Series(data[..n], t), Series(data, t);
      assert forall i :: 0 <= i < |part| ==> part[i] == whole[i];
    }
  }

  /** What raises is acceptable in no continuation. */
  lemma AcceptedIsOrderly(data: seq<Event>, n: nat, package: string, wanted: set<string>)
    requires n <= |data| && Accepts(data, package, wanted)
    ensures Orderly(data[..n], package, wanted)
  {
    forall i | 0 <= i < |data|
      ensures Admitted(data[i], package, wanted)
    {
      assert Allowed(data[i], package, wanted);
    }
    OrderlyPrefix(data, n, package, wanted);
  }

  lemma ProgressIsOrderly(st: State, data: seq<Event>, package: string, wanted: set<string>)
    requires Progress(st, data, package, wanted)
    ensures Orderly(data, package, wanted)
    ensures forall t :: t in wanted ==> Holds(st.rows[t], Series(data, t))
  {
    forall t | t in wanted
      ensures Alternates(Series(data, t)) && Holds(st.rows[t], Series(data, t))
    {
      RowHolds(st.rows[t], Series(data, t));
    }
  }

  /** The starts of a series are counted, and its ends listed. */
  ghost predicate Holds(r: Row, series: seq<Action>) {
    && r.runs == (|series| + 1) / 2 && |r.terminals| == |series| / 2
    && forall i :: 0 <= i < |r.terminals| ==> r.terminals[i] == series[2 * i + 1]
  }

  lemma SeriesSnoc(data: seq<Event>, e: Event, t: string)
    ensures Series(data + [e], t) == Series(data, t) + if Marks(e, t) then [e.action] else []
    ensures PackagePasses(data + [e]) == PackagePasses(data) + if e.test == "" && e.action == Pass then 1 else 0
  {
    assert (data + [e])[..|data|] == data;
  }

  /** Everything but the rows after one more admitted event. */
  lemma ProgressSnoc(st: State, next: State, data: seq<Event>, e: Event, package: string, wanted: set<string>)
    requires Progress(st, data, package, wanted) && Admitted(e, package, wanted)
    requires next.rows.Keys == wanted && (next.incomplete <==> st.incomplete || Hidden(e))
    requires e.test == "" && e.action == Pass ==> !st.packagePass
    requires next.packagePass <==> st.packagePass || (e.test == "" && e.action == Pass)
    requires forall t :: t in wanted ==> Shows(next.rows[t], Series(data + [e], t))
    ensures Progress(next, data + [e], package, wanted)
  {
    SeriesSnoc(data, e, "");
    var after := data + [e];
    assert forall i :: 0 <= i < |data| ==> after[i] == data[i];
    assert after[|data|] == e;
    if st.incomplete {
      var i :| 0 <= i < |data| && Hidden(data[i]);
      assert Hidden(after[i]);
    }
  }

  lemma RowsUntouched(st: State, data: seq<Event>, e: Event, package: string, wanted: set<string>)
    requires Progress(st, data, package, wanted)
    requires forall t :: t in wanted ==> !Marks(e, t)
    ensures forall t :: t in wanted ==> Shows(st.rows[t], Series(data + [e], t))
  {
    forall t | t in wanted
      ensures Shows(st.rows[t], Series(data + [e], t))
    {
      SeriesSnoc(data, e, t);
      assert Series(data, t) + [] == Series(data, t);
    }
  }

  lemma RowNoted(st: State, data: seq<Event>, e: Event, package: string, wanted: set<string>)
    requires Progress(st, data, package, wanted) && e.test in wanted && Marks(e, e.test)
    requires Takes(st.rows[e.test], e.action)
    ensures forall t :: t in wanted ==>
                          Shows(st.rows[e.test := Noted(st.rows[e.test], e.action)][t], Series(data + [e], t))
  {
    forall t | t in wanted
      ensures Shows(st.rows[e.test := Noted(st.rows[e.test], e.action)][t], Series(data + [e], t))
    {
      SeriesSnoc(data, e, t);
      assert Series(data, t) + [] == Series(data, t);
      if t == e.test {
        NotedShows(st.rows[t], Series(data, t), e.action);
      }
    }
  }

  /** An event the row cannot take breaks the series for good. */
  lemma RowRefuses(st: State, data: seq<Event>, e: Event, package: string, wanted: set<string>)
    requires Progress(st, data, package, wanted) && e.test in wanted && Marks(e, e.test)
    requires !Takes(st.rows[e.test], e.action)
    ensures !Orderly(data + [e], package, wanted)
  {
    SeriesSnoc(data, e, e.test);
    NextIsAccepted(st.rows[e.test], Series(data, e.test), e.action);
  }

  lemma NotAdmitted(data: seq<Event>, e: Event, package: string, wanted: set<string>)
    requires !Admitted(e, package, wanted)
    ensures !Orderly(data + [e], package, wanted)
  {
    assert (data + [e])[|data|] == e;
  }

  lemma SecondPass(data: seq<Event>, e: Event, package: string, wanted: set<string>)
    requires PackagePasses(data) == 1 && e.test == "" && e.action == Pass
    ensures !Orderly(data + [e], package, wanted)
  {
    SeriesSnoc(data, e, "");
  }

  /** Package events, subtests and events that are no mark touch no row. */
  lemma Unmarked(st: State, next: State, data: seq<Event>, e: Event, package: string, wanted: set<string>)
    requires Progress(st, data, package, wanted) && Admitted(e, package, wanted)
    requires e.test == "" || Subtest(e.test) || !Mark(e.action)
    requires next.rows == st.rows && (next.incomplete <==> st.incomplete || Hidden(e))
    requires e.test == "" && e.action == Pass ==> !st.packagePass
    requires next.packagePass <==> st.packagePass || (e.test == "" && e.action == Pass)
    ensures Progress(next, data + [e], package, wanted)
  {
    RowsUntouched(st, data, e, package, wanted);
    ProgressSnoc(st, next, data, e, package, wanted);
  }

  lemma Marked(st: State, data: seq<Event>, e: Event, package: string, wanted: set<string>, next: State)
    requires Progress(st, data, package, wanted) && Admitted(e, package, wanted)
    requires e.test in wanted && Marks(e, e.test) && Takes(st.rows[e.test], e.action)
    requires next == st.(rows := st.rows[e.test := Noted(st.rows[e.test], e.action)])
    ensures Progress(next, data + [e], package, wanted)
  {
    RowNoted(st, data, e, package, wanted);
    ProgressSnoc(st, next, data, e, package, wanted);
  }

  /** One event of the stream, or the failure it raises. */
  method Observe(st: State, e: Event, package: string, ghost data: seq<Event>, ghost wanted: set<string>)
    returns (r: Option<State>)
    requires Progress(st, data, package, wanted)
    ensures r.Some? ==> Progress(r.value, data + [e], package, wanted)
    ensures r.None? ==> !Orderly(data + [e], package, wanted)
  {
    if e.action == BuildFail {
      NotAdmitted(data, e, package, wanted);
      return None;
    }
    if e.action == BuildOutput {
      Unmarked(st, st, data, e, package, wanted);
      return Some(st);
    }
    if e.package != Some(package) {
      NotAdmitted(data, e, package, wanted);
      return None;
    }
    if e.test == "" {
      r := ObservePackage(st, e, package, data, wanted);
    } else {
      r := ObserveTest(st, e, package, data, wanted);
    }
  }

  method ObservePackage(st: State, e: Event, package: string, ghost data: seq<Event>, ghost wanted: set<string>)
    returns (r: Option<State>)
    requires Progress(st, data, package, wanted) && Admitted(e, package, wanted) && e.test == ""
    ensures r.Some? ==> Progress(r.value, data + [e], package, wanted)
    ensures r.None? ==> !Orderly(data + [e], package, wanted)
  {
    if e.action == Pass && st.packagePass {
      SecondPass(data, e, package, wanted);
      return None;
    }
    var next := st.(incomplete := st.incomplete || e.action in {Skip, Fail},
                    packagePass := st.packagePass || e.action == Pass);
    Unmarked(st, next, data, e, package, wanted);
    r := Some(next);
  }

  method ObserveTest(st: State, e: Event, package: string, ghost data: seq<Event>, ghost wanted: set<string>)
    returns (r: Option<State>)
    requires Progress(st, data, package, wanted)
    requires e.action != BuildOutput && e.action != BuildFail && e.package == Some(package) && e.test != ""
    ensures r.Some? ==> Progress(r.value, data + [e], package, wanted)
    ensures r.None? ==> !Orderly(data + [e], package, wanted)
  {
    if Top(e.test) !in st.rows {
      NotAdmitted(data, e, package, wanted);
      return None;
    }
    if Subtest(e.test) {
      var next := st.(incomplete := st.incomplete || e.action in {Skip, Fail});
      Unmarked(st, next, data, e, package, wanted);
      return Some(next);
    }
    TopOfWhole(e.test);
    if !Mark(e.action) {
      Unmarked(st, st, data, e, package, wanted);
      return Some(st);
    }
    r := ObserveMark(st, e, package, data, wanted);
  }

  method ObserveMark(st: State, e: Event, package: string, ghost data: seq<Event>, ghost wanted: set<string>)
    returns (r: Option<State>)
    requires Progress(st, data, package, wanted) && Admitted(e, package, wanted)
    requires e.test in wanted && Marks(e, e.test)
    ensures r.Some? ==> Progress(r.value, data + [e], package, wanted)
    ensures r.None? ==> !Orderly(data + [e], package, wanted)
  {
    var row := st.rows[e.test];
    if !Takes(row, e.action) {
      RowRefuses(st, data, e, package, wanted);
      return None;
    }
    var next := st.(rows := st.rows[e.test := Noted(row, e.action)]);
    Marked(st, data, e, package, wanted, next);
    r := Some(next);
  }

  datatype Report = Report(rows: map<string, Row>, passed: bool)

  function Start(names: seq<string>): State {
    State(map n | n in names :: Row(0, []), false, false)
  }

  lemma Untouched(names: seq<string>, package: string)
    ensures Progress(Start(names), [], package, set n | n in names)
  {
    assert Alternating([]) + [] == [];
  }

  predicate Passed(st: State) {
    && st.packagePass && !st.incomplete
    && forall t :: t in st.rows ==> st.rows[t].runs == 3 && st.rows[t].terminals == [Pass, Pass, Pass]
  }

  /** The series passes exactly when it is acceptable, and a failure is raised exactly for
      a disorderly one; the rows are those of the events. */
  method ResultSeries(data: seq<Event>, package: string, names: seq<string>) returns (r: Option<Report>)
    ensures r.Some? <==> Orderly(data, package, set n | n in names)
    ensures r.Some? && r.value.passed <==> Accepts(data, package, set n | n in names)
    ensures r.Some? ==> r.value.rows.Keys == set n | n in names
    ensures r.Some? ==> forall t :: t in names ==> Holds(r.value.rows[t], Series(data, t))
  {
    ghost var wanted := set n | n in names;
    var st := Start(names);
    Untouched(names, package);
    assert data[..0] == [];
    for n := 0 to |data|
      invariant Progress(st, data[..n], package, wanted)
    {
      assert data[..n + 1] == data[..n] + [data[n]];
      var next := Observe(st, data[n], package, data[..n], wanted);
      if next.None? {
        if Orderly(data, package, wanted) {
          OrderlyPrefix(data, n + 1, package, wanted);
        }
        if Accepts(data, package, wanted) {
          AcceptedIsOrderly(data, n + 1, package, wanted);
        }
        return None;
      }
      st := next.value;
    }
    assert data[..|data|] == data;
    AcceptsExactly(st, data, package, wanted);
    ProgressIsOrderly(st, data, package, wanted);
    r := Some(Report(st.rows, Passed(st)));
  }

  lemma AcceptsExactly(st: State, data: seq<Event>, package: string, wanted: set<string>)
    requires Progress(st, data, package, wanted)
    ensures Accepts(data, package, wanted) <==> Passed(st)
  {
    forall t | t in wanted
      ensures st.rows[t].runs == 3 && st.rows[t].terminals == [Pass, Pass, Pass] <==> Series(data, t) == Thrice()
    {
      PassedExactly(st.rows[t], Series(data, t));
    }
    assert !st.incomplete <==> forall i :: 0 <= i < |data| ==> Allowed(data[i], package, wanted);
  }
}
