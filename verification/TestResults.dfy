/** The receipt of one group: what the runner's events must show before a group
    counts as complete. */
module TestResults {
  import opened Wrappers
  import opened TestPlan

  datatype Action = Run | Pass | Skip | Fail | Other

  /** `test` is empty for package events; subtests carry a slash. */
  datatype Event = Event(action: Action, package: string, test: string)

  function CanonicalPackage(package: string, module_: string): Option<string> {
    if module_ + "/" <= package then Some("./" + package[|module_| + 1..]) else None
  }

  predicate Terminal(e: Event) {
    e.action in {Pass, Skip, Fail} && e.test != "" && '/' !in e.test
  }

  function KeyOf(e: Event, module_: string): Option<Test> {
    var package := CanonicalPackage(e.package, module_);
    if package.None? then None else Some(Test(package.value, e.test))
  }

  predicate TerminalOf(e: Event, t: Test, module_: string) {
    Terminal(e) && KeyOf(e, module_) == Some(t)
  }

  /** A test of the module ended in the event: not a subtest, and under its path there. */
  lemma EndedExactly(e: Event, t: Test, module_: string)
    ensures TerminalOf(e, t, module_) <==>
            && (e.action == Pass || e.action == Skip || e.action == Fail)
            && t.name == e.test && |e.test| > 0 && (forall i :: 0 <= i < |e.test| ==> e.test[i] != '/')
            && exists rest :: e.package == module_ + "/" + rest && t.package == "./" + rest
  {
    if TerminalOf(e, t, module_) {
      assert e.package == module_ + "/" + e.package[|module_| + 1..];
    }
    if rest :| e.package == module_ + "/" + rest && t.package == "./" + rest {
      assert e.package[|module_| + 1..] == rest;
    }
  }

  /** No terminal event of another module, and at most one per test. */
  ghost predicate Readable(events: seq<Event>, module_: string) {
    && (forall i :: 0 <= i < |events| && Terminal(events[i]) ==> KeyOf(events[i], module_).Some?)
    && (forall i, j :: 0 <= i < j < |events| && Terminal(events[i]) && Terminal(events[j]) ==>
                         KeyOf(events[i], module_) != KeyOf(events[j], module_))
  }

  /** A log cannot be read exactly when a top-level result lies outside the module or
      two of them share package and name. */
  lemma ReadableExactly(events: seq<Event>, module_: string)
    ensures Readable(events, module_) <==>
            && (forall e :: e in events && Terminal(e) ==> exists rest :: e.package == module_ + "/" + rest)
            && (forall i, j :: 0 <= i < j < |events| && Terminal(events[i]) && Terminal(events[j]) ==>
                                 Differ(events[i], events[j]))
  {
    forall e | e in events
      ensures KeyOf(e, module_).Some? <==> exists rest :: e.package == module_ + "/" + rest
    {
      OutsideExactly(e, module_);
    }
    forall i, j | 0 <= i < j < |events| && KeyOf(events[i], module_).Some? && KeyOf(events[j], module_).Some?
      ensures Differ(events[i], events[j]) <==> KeyOf(events[i], module_) != KeyOf(events[j], module_)
    {
      DifferExactly(events[i], events[j], module_);
    }
  }

  ghost predicate Differ(e: Event, d: Event) {
    e.package != d.package || e.test != d.test
  }

  lemma OutsideExactly(e: Event, module_: string)
    ensures KeyOf(e, module_).Some? <==> exists rest :: e.package == module_ + "/" + rest
  {
    if KeyOf(e, module_).Some? {
      assert e.package == module_ + "/" + e.package[|module_| + 1..];
    }
  }

  lemma DifferExactly(e: Event, d: Event, module_: string)
    requires KeyOf(e, module_).Some? && KeyOf(d, module_).Some?
    ensures Differ(e, d) <==> KeyOf(e, module_) != KeyOf(d, module_)
  {
    var n := |module_| + 1;
    assert e.package == module_ + "/" + e.package[n..] && d.package == module_ + "/" + d.package[n..];
    assert ("./" + e.package[n..])[2..] == e.package[n..] && ("./" + d.package[n..])[2..] == d.package[n..];
  }

  predicate Clean(events: seq<Event>) {
    forall i :: 0 <= i < |events| ==> events[i].action != Skip && events[i].action != Fail
  }

  /** Nothing was skipped or failed anywhere, packages and subtests included, and
      the tests that ended are exactly the expected ones. */
  ghost predicate Complete(events: seq<Event>, expected: set<Test>, module_: string) {
    && Readable(events, module_)
    && Clean(events)
    && (forall t :: t in expected <==> exists i :: 0 <= i < |events| && TerminalOf(events[i], t, module_))
  }

  datatype Summary = Summary(passed: nat, skipped: nat, failed: nat, missing: set<Test>, unexpected: set<Test>,
                             complete: bool)

  /** The dictionary of results, or the error for a foreign or repeated key. */
  function Record(events: seq<Event>, module_: string): Option<map<Test, Action>> {
    if events == [] then Some(map[])
    else
      var front, e := Record(events[..|events| - 1], module_), events[|events| - 1];
      if front.None? || !Terminal(e) then front
      else
        var key := KeyOf(e, module_);
        if key.None? || key.value in front.value then None else Some(front.value[key.value := e.action])
  }

  /** It holds exactly the keys of the terminal events, each with its action. */
  lemma {:induction false} RecordMembers(events: seq<Event>, module_: string, terminal: map<Test, Action>)
    requires Record(events, module_) == Some(terminal)
    ensures forall t :: t in terminal ==> exists i :: 0 <= i < |events| && TerminalOf(events[i], t, module_)
                                                      && terminal[t] == events[i].action
    ensures forall i :: 0 <= i < |events| && Terminal(events[i]) ==>
                          KeyOf(events[i], module_).Some? && KeyOf(events[i], module_).value in terminal
  {
    if events != [] {
      var n := |events| - 1;
      var front := events[..n];
      RecordMembers(front, module_, Record(front, module_).value);
      assert forall i :: 0 <= i < n ==> front[i] == events[i];
    }
  }

  /** The event may follow: no result of a foreign key or of one that already ended. */
  ghost predicate MayFollow(front: seq<Event>, e: Event, module_: string) {
    Terminal(e) ==>
      && KeyOf(e, module_).Some?
      && forall i :: 0 <= i < |front| && Terminal(front[i]) ==> KeyOf(front[i], module_) != KeyOf(e, module_)
  }

  lemma ReadableGrows(front: seq<Event>, e: Event, module_: string)
    requires Readable(front, module_) && MayFollow(front, e, module_)
    ensures Readable(front + [e], module_)
  {
  }

  lemma ReadableShrinks(front: seq<Event>, e: Event, module_: string)
    requires Readable(front + [e], module_)
    ensures Readable(front, module_) && MayFollow(front, e, module_)
  {
    var whole := front + [e];
    assert whole[|front|] == e && forall i :: 0 <= i < |front| ==> whole[i] == front[i];
  }

  lemma FollowsExactly(front: seq<Event>, e: Event, module_: string, terminal: map<Test, Action>)
    requires Record(front, module_) == Some(terminal)
    ensures MayFollow(front, e, module_) <==>
            (Terminal(e) ==> KeyOf(e, module_).Some? && KeyOf(e, module_).value !in terminal)
  {
    RecordMembers(front, module_, terminal);
    if Terminal(e) && KeyOf(e, module_).Some? && KeyOf(e, module_).value in terminal {
      var i :| 0 <= i < |front| && TerminalOf(front[i], KeyOf(e, module_).value, module_);
      assert KeyOf(front[i], module_) == KeyOf(e, module_);
    }
  }

  lemma RecordLast(events: seq<Event>, n: nat, front: seq<Event>, e: Event, module_: string)
    requires n == |events| - 1 && front == events[..n] && e == events[n]
    ensures events == front + [e]
    ensures Record(events, module_).Some? <==>
            Record(front, module_).Some? && MayFollow(front, e, module_)
  {
    if Record(front, module_).Some? {
      FollowsExactly(front, e, module_, Record(front, module_).value);
    }
  }

  /** It exists exactly for readable events. */
  lemma {:induction false} RecordReadable(events: seq<Event>, module_: string)
    ensures Record(events, module_).Some? <==> Readable(events, module_)
    decreases |events|
  {
    if events != [] {
      var n := |events| - 1;
      var front, e := events[..n], events[n];
      RecordReadable(front, module_);
      RecordLast(events, n, front, e, module_);
      if Readable(events, module_) {
        ReadableShrinks(front, e, module_);
      } else if Readable(front, module_) && MayFollow(front, e, module_) {
        ReadableGrows(front, e, module_);
      }
    }
  }

  lemma Taken<T>(s: seq<T>, n: nat)
    requires n < |s|
    ensures s[..n + 1] == s[..n] + [s[n]] && s[..n + 1][..n] == s[..n] && s[..n + 1][n] == s[n]
  {
  }

  lemma RecordStep(events: seq<Event>, n: nat, module_: string, terminal: map<Test, Action>)
    requires n < |events| && Record(events[..n], module_) == Some(terminal)
    ensures var e, after := events[n], Record(events[..n + 1], module_);
            var key := KeyOf(e, module_);
            if !Terminal(e) then after == Some(terminal)
            else if key.None? || key.value in terminal then after.None?
            else after == Some(terminal[key.value := e.action])
  {
    Taken(events, n);
  }

  function Positions(events: seq<Event>, action: Action): set<nat> {
    set i | 0 <= i < |events| && events[i].action == action
  }

  lemma PositionsStep(events: seq<Event>, n: nat, action: Action)
    requires n < |events|
    ensures |Positions(events[..n + 1], action)| ==
            |Positions(events[..n], action)| + if events[n].action == action then 1 else 0
  {
    Taken(events, n);
    if events[n].action == action {
      assert Positions(events[..n + 1], action) == Positions(events[..n], action) + {n};
    } else {
      assert Positions(events[..n + 1], action) == Positions(events[..n], action);
    }
  }

  lemma CleanExactly(events: seq<Event>)
    ensures Clean(events) <==> |Positions(events, Skip)| + |Positions(events, Fail)| == 0
  {
    if !Clean(events) {
      var i :| 0 <= i < |events| && (events[i].action == Skip || events[i].action == Fail);
      assert i in Positions(events, Skip) + Positions(events, Fail);
    }
  }

  ghost predicate Ended(events: seq<Event>, t: Test, module_: string) {
    exists i :: 0 <= i < |events| && TerminalOf(events[i], t, module_)
  }

  ghost predicate PassedTests(passed: set<Test>, events: seq<Event>, module_: string) {
    forall t :: t in passed <==>
                exists i :: 0 <= i < |events| && TerminalOf(events[i], t, module_) && events[i].action == Pass
  }

  /** The counts and lists of a summary, read off the events: skips and failures of any
      event, passes of distinct tests, and both differences from the expected tests. */
  ghost predicate Reports(s: Summary, events: seq<Event>, expected: set<Test>, module_: string) {
    && s.skipped == |Positions(events, Skip)| && s.failed == |Positions(events, Fail)|
    && (exists passed :: PassedTests(passed, events, module_) && s.passed == |passed|)
    && (forall t :: t in s.missing <==> t in expected && !Ended(events, t, module_))
    && (forall t :: t in s.unexpected <==> t !in expected && Ended(events, t, module_))
  }

  lemma Unreadable(events: seq<Event>, n: nat, module_: string)
    requires n <= |events| && Record(events[..n], module_).None?
    ensures !Readable(events, module_)
  {
    NoRecordStays(events, n, module_);
    RecordReadable(events, module_);
  }

  /** The summary refuses unreadable events and calls a group complete exactly when
      every expected test passed once and nothing else happened. */
  method ResultSummary(events: seq<Event>, expected: set<Test>, module_: string) returns (r: Option<Summary>)
    ensures r.Some? <==> Readable(events, module_)
    ensures r.Some? ==> Reports(r.value, events, expected, module_)
    ensures r.Some? ==> (r.value.complete <==> Complete(events, expected, module_))
  {
    var terminal: map<Test, Action> := map[];
    var skipped, failed := 0, 0;
    for n := 0 to |events|
      invariant Record(events[..n], module_) == Some(terminal)
      invariant skipped == |Positions(events[..n], Skip)| && failed == |Positions(events[..n], Fail)|
    {
      var e := events[n];
      PositionsStep(events, n, Skip);
      PositionsStep(events, n, Fail);
      RecordStep(events, n, module_, terminal);
      if e.action == Skip {
        skipped := skipped + 1;
      } else if e.action == Fail {
        failed := failed + 1;
      }
      if Terminal(e) {
        var key := KeyOf(e, module_);
        if key.None? || key.value in terminal {
          Unreadable(events, n + 1, module_);
          return None;
        }
        terminal := terminal[key.value := e.action];
      }
    }
    assert events[..|events|] == events;
    CleanExactly(events);
    SummaryExactly(terminal, events, expected, module_, skipped, failed);
    SummaryReports(terminal, events, expected, module_, skipped, failed);
    r := Some(Summarized(terminal, expected, skipped, failed));
  }

  function Summarized(terminal: map<Test, Action>, expected: set<Test>, skipped: nat, failed: nat): Summary {
    var missing, extra := expected - terminal.Keys, terminal.Keys - expected;
    var passed := set t | t in terminal && terminal[t] == Pass;
    Summary(|passed|, skipped, failed, missing, extra,
            skipped == 0 && failed == 0 && missing == {} && extra == {} && |passed| == |expected|)
  }

  lemma {:induction false} NoRecordStays(events: seq<Event>, n: nat, module_: string)
    requires n <= |events| && Record(events[..n], module_).None?
    ensures Record(events, module_).None?
    decreases |events|
  {
    if n == |events| {
      assert events[..n] == events;
    } else {
      assert events[..|events| - 1][..n] == events[..n];
      NoRecordStays(events[..|events| - 1], n, module_);
    }
  }

  /** Without skips and failures every recorded result is a pass, so the counts
      agree exactly when the keys do. */
  lemma SummaryExactly(terminal: map<Test, Action>, events: seq<Event>, expected: set<Test>, module_: string,
                       skipped: nat, failed: nat)
    requires Record(events, module_) == Some(terminal) && (skipped + failed == 0 <==> Clean(events))
    ensures Readable(events, module_)
    ensures Summarized(terminal, expected, skipped, failed).complete <==> Complete(events, expected, module_)
  {
    RecordReadable(events, module_);
    assert expected - terminal.Keys == {} && terminal.Keys - expected == {} <==> terminal.Keys == expected;
    if Clean(events) {
      AllPassed(terminal, events, module_);
    }
    KeysExactly(terminal, events, expected, module_);
  }

  lemma SummaryReports(terminal: map<Test, Action>, events: seq<Event>, expected: set<Test>, module_: string,
                       skipped: nat, failed: nat)
    requires Record(events, module_) == Some(terminal)
    requires skipped == |Positions(events, Skip)| && failed == |Positions(events, Fail)|
    ensures Reports(Summarized(terminal, expected, skipped, failed), events, expected, module_)
  {
    RecordReadable(events, module_);
    RecordMembers(events, module_, terminal);
    RecordKeys(events, module_, terminal);
    var passed := set t | t in terminal && terminal[t] == Pass;
    forall t
      ensures t in passed <==>
              exists i :: 0 <= i < |events| && TerminalOf(events[i], t, module_) && events[i].action == Pass
    {
      PassedExactly(terminal, events, module_, t);
    }
    assert PassedTests(passed, events, module_);
  }

  lemma PassedExactly(terminal: map<Test, Action>, events: seq<Event>, module_: string, t: Test)
    requires Record(events, module_) == Some(terminal)
    ensures t in terminal && terminal[t] == Pass <==>
            exists i :: 0 <= i < |events| && TerminalOf(events[i], t, module_) && events[i].action == Pass
  {
    RecordReadable(events, module_);
    RecordMembers(events, module_, terminal);
    if i :| 0 <= i < |events| && TerminalOf(events[i], t, module_) && events[i].action == Pass {
      var j :| 0 <= j < |events| && TerminalOf(events[j], t, module_) && terminal[t] == events[j].action;
      EndsOnce(events, module_, t, i, j);
    }
  }

  lemma AllPassed(terminal: map<Test, Action>, events: seq<Event>, module_: string)
    requires Record(events, module_) == Some(terminal) && Clean(events)
    ensures (set t | t in terminal && terminal[t] == Pass) == terminal.Keys
  {
    RecordMembers(events, module_, terminal);
  }

  lemma KeysExactly(terminal: map<Test, Action>, events: seq<Event>, expected: set<Test>, module_: string)
    requires Record(events, module_) == Some(terminal)
    ensures terminal.Keys == expected <==>
            forall t :: t in expected <==> exists i :: 0 <= i < |events| && TerminalOf(events[i], t, module_)
  {
    RecordKeys(events, module_, terminal);
  }

  lemma RecordKeys(events: seq<Event>, module_: string, terminal: map<Test, Action>)
    requires Record(events, module_) == Some(terminal)
    ensures forall t :: t in terminal <==> exists i :: 0 <= i < |events| && TerminalOf(events[i], t, module_)
  {
    RecordMembers(events, module_, terminal);
  }

  /** A planned test is expected of one group. */
  lemma PlannedOnce(plan: seq<Group>, selection: set<Test>, all: set<Test>, t: Test) returns (g: nat)
    requires Covers(plan, selection, all) && t in selection
    ensures g < |plan| && t in plan[g].expected
    ensures forall i :: 0 <= i < |plan| && t in plan[i].expected ==> i == g
  {
    var parts := Expected(plan);
    ExpectedSizes(plan);
    g :| 0 <= g < |parts| && t in parts[g];
    forall i | 0 <= i < |plan| && t in plan[i].expected
      ensures i == g
    {
      assert t in parts[i] && t in parts[g];
    }
  }

  /** When every group of a plan is complete, each planned test passed in exactly
      one log, by exactly one event of that log. */
  lemma CompletePlanPassesAll(plan: seq<Group>, logs: seq<seq<Event>>, selection: set<Test>, all: set<Test>,
                              module_: string, t: Test)
    requires Covers(plan, selection, all) && |logs| == |plan| && t in selection
    requires forall i :: 0 <= i < |plan| ==> Complete(logs[i], plan[i].expected, module_)
    ensures exists i, j :: 0 <= i < |logs| && 0 <= j < |logs[i]| && TerminalOf(logs[i][j], t, module_)
                           && logs[i][j].action == Pass
    ensures forall i, j, k, l :: 0 <= i < |logs| && 0 <= j < |logs[i]| && TerminalOf(logs[i][j], t, module_)
                                 && 0 <= k < |logs| && 0 <= l < |logs[k]| && TerminalOf(logs[k][l], t, module_) ==>
                                 i == k && j == l
  {
    var g := PlannedOnce(plan, selection, all, t);
    var e :| 0 <= e < |logs[g]| && TerminalOf(logs[g][e], t, module_);
    assert Clean(logs[g]) && logs[g][e].action == Pass;
    forall i, j, k, l | 0 <= i < |logs| && 0 <= j < |logs[i]| && TerminalOf(logs[i][j], t, module_)
                        && 0 <= k < |logs| && 0 <= l < |logs[k]| && TerminalOf(logs[k][l], t, module_)
      ensures i == k && j == l
    {
      EndedIsExpected(logs[i], plan[i].expected, module_, t, j);
      EndedIsExpected(logs[k], plan[k].expected, module_, t, l);
      EndsOnce(logs[i], module_, t, j, l);
    }
  }

  lemma EndedIsExpected(log: seq<Event>, expected: set<Test>, module_: string, t: Test, j: nat)
    requires Complete(log, expected, module_) && j < |log| && TerminalOf(log[j], t, module_)
    ensures t in expected
  {
  }

  lemma EndsOnce(log: seq<Event>, module_: string, t: Test, j: nat, l: nat)
    requires Readable(log, module_) && j < |log| && TerminalOf(log[j], t, module_)
    ensures l < |log| && TerminalOf(log[l], t, module_) ==> j == l
  {
  }

  lemma ExpectedSizes(plan: seq<Group>)
    ensures |Expected(plan)| == |plan|
    ensures forall i :: 0 <= i < |plan| ==> Expected(plan)[i] == plan[i].expected
  {
    if plan != [] {
      ExpectedAt(plan, 0);
    }
    forall i | 0 <= i < |plan|
      ensures |Expected(plan)| == |plan| && Expected(plan)[i] == plan[i].expected
    {
      ExpectedAt(plan, i);
    }
  }
}
