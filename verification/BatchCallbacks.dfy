/** The statement callbacks that feed a collector: pairing a statement with its
    start, and classifying it from its processor or its first keyword. */
module BatchCallbacks {
  import opened Wrappers
  import opened BatchCollector
  import opened BatchMetrics

  datatype Kind = Query | Row | Raw | Create | Update | Delete

  datatype Failure = NoError | RecordNotFound | OtherError

  /** A bound argument: the length of a text or blob, or anything else. */
  datatype Argument = TextOrBlob(length: nat) | Other

  datatype Started = Started(collector: Collector, at: int, kind: Kind)

  function Lower(c: char): char {
    if 'A' <= c <= 'Z' then ((c as int) + 32) as char else c
  }

  predicate IsLetter(c: char) {
    'a' <= c <= 'z' || 'A' <= c <= 'Z'
  }

  function TrimLeft(s: string): string {
    if s != "" && (s[0] == ' ' || s[0] == '\t' || s[0] == '\r' || s[0] == '\n') then TrimLeft(s[1..]) else s
  }

  /** The leading letters of a text. */
  function Word(s: string): string {
    if s == "" || !IsLetter(s[0]) then "" else [Lower(s[0])] + Word(s[1..])
  }

  /** The lower-cased operation keyword within the first 32 bytes. */
  function Keyword(sql: string): string {
    Word(TrimLeft(if |sql| > 32 then sql[..32] else sql))
  }

  predicate IsWrite(kind: Kind, sql: string) {
    match kind
    case Query => false
    case Create => true
    case Update => true
    case Delete => true
    case _ => Keyword(sql) in {"insert", "update", "delete", "replace"}
  }

  predicate IsRead(kind: Kind, sql: string) {
    kind.Query? || ((kind.Row? || kind.Raw?) && Keyword(sql) == "select")
  }

  /** The keyword in lower case, letter by letter in either case. */
  predicate Spells(word: string, keyword: string) {
    |word| == |keyword|
    && forall i :: 0 <= i < |word| ==> word[i] == keyword[i] || word[i] as int + 32 == keyword[i] as int
  }

  /** The letters and blanks by their codes. */
  predicate LetterCode(code: int) {
    65 <= code <= 90 || 97 <= code <= 122
  }

  predicate BlankCode(code: int) {
    code == 32 || code == 9 || code == 13 || code == 10
  }

  /** Blanks, the first word, and what ends it. */
  ghost predicate Begins(text: string, blanks: string, word: string, tail: string) {
    && text == blanks + word + tail
    && (forall c :: c in blanks ==> BlankCode(c as int))
    && (forall c :: c in word ==> LetterCode(c as int))
    && (tail != "" ==> !LetterCode(tail[0] as int) && (word == "" ==> !BlankCode(tail[0] as int)))
  }

  lemma {:induction false} TrimDropsBlanks(blanks: string, rest: string)
    requires forall c :: c in blanks ==> BlankCode(c as int)
    requires rest != "" ==> !BlankCode(rest[0] as int)
    ensures TrimLeft(blanks + rest) == rest
    decreases |blanks|
  {
    if blanks == "" {
      assert blanks + rest == rest;
    } else {
      assert (blanks + rest)[1..] == blanks[1..] + rest && blanks[0] in blanks;
      assert forall c :: c in blanks[1..] ==> c in blanks;
      TrimDropsBlanks(blanks[1..], rest);
    }
  }

  function Lowered(word: string): (r: string)
    ensures |r| == |word|
  {
    seq(|word|, i requires 0 <= i < |word| => Lower(word[i]))
  }

  lemma {:induction false} WordIsLetters(word: string, tail: string)
    requires forall c :: c in word ==> LetterCode(c as int)
    requires tail != "" ==> !LetterCode(tail[0] as int)
    ensures Word(word + tail) == Lowered(word)
    decreases |word|
  {
    if word == "" {
      assert word + tail == tail;
    } else {
      assert (word + tail)[1..] == word[1..] + tail && word[0] in word;
      assert forall c :: c in word[1..] ==> c in word;
      WordIsLetters(word[1..], tail);
      assert Lowered(word) == [Lower(word[0])] + Lowered(word[1..]);
    }
  }

  lemma LoweredSpells(word: string, keyword: string)
    requires forall c :: c in word ==> LetterCode(c as int)
    requires forall i :: 0 <= i < |keyword| ==> 'a' <= keyword[i] <= 'z'
    ensures Lowered(word) == keyword <==> Spells(word, keyword)
  {
    forall i | 0 <= i < |word| && i < |keyword|
      ensures Lower(word[i]) == keyword[i] <==> word[i] == keyword[i] || word[i] as int + 32 == keyword[i] as int
    {
      assert word[i] in word;
    }
    if |word| == |keyword| && Spells(word, keyword) {
      assert forall i :: 0 <= i < |word| ==> Lowered(word)[i] == keyword[i];
    }
    if Lowered(word) == keyword {
      assert forall i :: 0 <= i < |word| ==> Lowered(word)[i] == keyword[i];
    }
  }

  lemma KeywordSpells(sql: string, blanks: string, word: string, tail: string, keyword: string)
    requires Begins(if |sql| > 32 then sql[..32] else sql, blanks, word, tail)
    requires forall i :: 0 <= i < |keyword| ==> 'a' <= keyword[i] <= 'z'
    ensures Keyword(sql) == keyword <==> Spells(word, keyword)
  {
    assert blanks + word + tail == blanks + (word + tail);
    if word != "" {
      assert word[0] in word;
    }
    TrimDropsBlanks(blanks, word + tail);
    WordIsLetters(word, tail);
    LoweredSpells(word, keyword);
  }

  /** Which statements are writes and which are reads: create, update and delete
      processors write and the query processor reads; of the others, the first word of
      the first 32 characters decides, in any case of its letters. */
  lemma FirstWordDecides(kind: Kind, sql: string, blanks: string, word: string, tail: string)
    requires Begins(if |sql| > 32 then sql[..32] else sql, blanks, word, tail)
    ensures kind.Create? || kind.Update? || kind.Delete? ==> IsWrite(kind, sql) && !IsRead(kind, sql)
    ensures kind.Query? ==> IsRead(kind, sql) && !IsWrite(kind, sql)
    ensures kind.Row? || kind.Raw? ==>
              && (IsWrite(kind, sql) <==> Spells(word, "insert") || Spells(word, "update") || Spells(word, "delete")
                                          || Spells(word, "replace"))
              && (IsRead(kind, sql) <==> Spells(word, "select"))
  {
    KeywordSpells(sql, blanks, word, tail, "insert");
    KeywordSpells(sql, blanks, word, tail, "update");
    KeywordSpells(sql, blanks, word, tail, "delete");
    KeywordSpells(sql, blanks, word, tail, "replace");
    KeywordSpells(sql, blanks, word, tail, "select");
  }

  function TextBytes(vars: seq<Argument>): nat {
    if vars == [] then 0
    else TextBytes(vars[..|vars| - 1]) + match vars[|vars| - 1] case TextOrBlob(n) => n case Other => 0
  }

  function Others(vars: seq<Argument>): nat {
    if vars == [] then 0 else Others(vars[..|vars| - 1]) + if vars[|vars| - 1].Other? then 1 else 0
  }

  function Flag(b: bool): nat {
    if b then 1 else 0
  }

  predicate RowsUnknown(kind: Kind, error: Failure, rows: int) {
    rows < 0 || kind.Row? || !error.NoError?
  }

  /** What one executed statement adds to the counters. */
  function Classified(kind: Kind, sql: string, error: Failure, rows: int, vars: seq<Argument>, ns: nat): Counts
    requires ns <= MAX64 && rows <= 0x7fff_ffff_ffff_ffff
  {
    var write, read := IsWrite(kind, sql), IsRead(kind, sql);
    [1, Flag(read && !write), Flag(write), Flag(!read && !write), Flag(error.OtherError?), Flag(error.RecordNotFound?),
     Flag(kind.Row?), if write && !RowsUnknown(kind, error, rows) then rows else 0,
     Flag(write && RowsUnknown(kind, error, rows)), if write then Sat(TextBytes(vars)) else 0,
     if write then Sat(Others(vars)) else 0, 0, ns]
  }

  /** Every executed statement is counted once, as exactly one of a read, a write
      or an unknown; an expected miss is never also an error; and only a write
      can carry affected or unknown rows, never both. */
  lemma ClassifiedOnce(kind: Kind, sql: string, error: Failure, rows: int, vars: seq<Argument>, ns: nat)
    requires ns <= MAX64 && rows <= 0x7fff_ffff_ffff_ffff
    ensures var n := Classified(kind, sql, error, rows, vars, ns);
            && Balanced(n) && n[STATEMENTS] == 1
            && n[STATEMENT_ERRORS] + n[EXPECTED_READ_MISSES] == Flag(!error.NoError?)
            && n[UNKNOWN_WRITE_ROWS] <= n[WRITES]
            && (n[OBSERVED_WRITE_ROWS] > 0 ==>
                  n[WRITES] == 1 && n[UNKNOWN_WRITE_ROWS] == 0 && error.NoError? && n[OBSERVED_WRITE_ROWS] == rows)
  {
  }

  /** Field by field, what one statement adds. Rows are observed or unknown only for
      writes, and so are arguments counted only for writes, saturated; a row processor
      leaves its result unknown. */
  lemma ClassifiedShows(kind: Kind, sql: string, error: Failure, rows: int, vars: seq<Argument>, ns: nat)
    requires ns <= MAX64 && rows <= 0x7fff_ffff_ffff_ffff
    ensures var n, write := Classified(kind, sql, error, rows, vars, ns), IsWrite(kind, sql);
            var known := rows >= 0 && kind != Row && error == NoError;
            && (n[WRITES] == 1 <==> write) && (n[WRITES] == 0 <==> !write)
            && (n[READS] == 1 <==> !write && IsRead(kind, sql))
            && (n[STATEMENT_ERRORS] == 1 <==> error == OtherError)
            && (n[EXPECTED_READ_MISSES] == 1 <==> error == RecordNotFound)
            && (n[6] == 1 <==> kind == Row) && (n[6] == 0 <==> kind != Row)
            && (write && known ==> n[OBSERVED_WRITE_ROWS] == rows && n[UNKNOWN_WRITE_ROWS] == 0)
            && (write && !known ==> n[OBSERVED_WRITE_ROWS] == 0 && n[UNKNOWN_WRITE_ROWS] == 1)
            && (!write ==> n[OBSERVED_WRITE_ROWS] == n[UNKNOWN_WRITE_ROWS] == n[9] == n[10] == 0)
            && (write ==> n[9] == Sat(TextBytes(vars)) && n[10] == Sat(Others(vars)))
            && n[SOURCE_BYTES] == 0 && n[12] == ns
  {
  }

  /** Text and blob arguments count by their lengths and all others one each. */
  lemma ArgumentsAdd(vars: seq<Argument>, v: Argument)
    ensures TextBytes([]) == 0 && Others([]) == 0
    ensures v.TextOrBlob? ==> TextBytes(vars + [v]) == TextBytes(vars) + v.length && Others(vars + [v]) == Others(vars)
    ensures v == Other ==> TextBytes(vars + [v]) == TextBytes(vars) && Others(vars + [v]) == Others(vars) + 1
  {
    assert (vars + [v])[..|vars|] == vars;
  }

  /** The locked steps the after callback takes on the collector of a statement
      whose start it found, or not. */
  function AfterEvents(paired: bool, dryRun: bool, kind: Kind, sql: string, error: Failure, rows: int,
                       vars: seq<Argument>, ns: nat): seq<Event>
    requires ns <= MAX64 && rows <= 0x7fff_ffff_ffff_ffff
  {
    if dryRun || !paired then [Invalidate]
    else if sql == "" then [Invalidate, Observe(NoCounts())]
    else
      (if IsWrite(kind, sql) && (TextBytes(vars) > MAX64 || Others(vars) > MAX64) then [Invalidate] else [])
      + [Observe(Classified(kind, sql, error, rows, vars, ns))]
  }

  /** A statement is observed exactly when it ran and was paired with its start, once and
      last; and what was not so, had no text or overflowed its argument sums invalidates. */
  lemma AfterEventsExactly(paired: bool, dryRun: bool, kind: Kind, sql: string, error: Failure, rows: int,
                           vars: seq<Argument>, ns: nat)
    requires ns <= MAX64 && rows <= 0x7fff_ffff_ffff_ffff
    ensures var events := AfterEvents(paired, dryRun, kind, sql, error, rows, vars, ns);
            var ran, overflows := paired && !dryRun, TextBytes(vars) > MAX64 || Others(vars) > MAX64;
            && 1 <= |events| <= 2
            && (Invalidate in events <==> !ran || sql == "" || (IsWrite(kind, sql) && overflows))
            && (events[|events| - 1].Observe? <==> ran)
            && (|events| == 2 ==> events[0] == Invalidate && events[1].Observe?)
            && (ran && sql == "" ==> events[|events| - 1] == Observe(NoCounts()))
            && (ran && sql != "" ==> events[|events| - 1] == Observe(Classified(kind, sql, error, rows, vars, ns)))
  {
  }

  /** What the two callbacks of one statement make of its processor and outcome. */
  datatype Callback =
    | Began(dryRun: bool, failed: bool)
    | Ended(paired: bool, dryRun: bool, kind: Kind, sql: string, error: Failure, rows: int, vars: seq<Argument>,
            ns: nat)

  predicate InRange(b: Callback) {
    b.Ended? ==> b.ns <= MAX64 && b.rows <= 0x7fff_ffff_ffff_ffff
  }

  function Steps(b: Callback): seq<Event>
    requires InRange(b)
  {
    match b
    case Began(dryRun, failed) => [if dryRun || failed then Invalidate else Event.Start]
    case Ended(paired, dryRun, kind, sql, error, rows, vars, ns) =>
      AfterEvents(paired, dryRun, kind, sql, error, rows, vars, ns)
  }

  /** A start is taken by every statement that neither was dry nor had failed before. */
  lemma BeganSteps(dryRun: bool, failed: bool)
    ensures !dryRun && !failed ==> Steps(Began(dryRun, failed)) == [Event.Start]
    ensures dryRun || failed ==> Steps(Began(dryRun, failed)) == [Invalidate]
  {
  }

  /** The end takes the steps of `AfterEventsExactly`. */
  lemma EndedSteps(paired: bool, dryRun: bool, kind: Kind, sql: string, error: Failure, rows: int,
                   vars: seq<Argument>, ns: nat)
    requires ns <= MAX64 && rows <= 0x7fff_ffff_ffff_ffff
    ensures Steps(Ended(paired, dryRun, kind, sql, error, rows, vars, ns)) ==
            AfterEvents(paired, dryRun, kind, sql, error, rows, vars, ns)
  {
  }

  /** Every step on a collector is one of some callback's steps, or a Finish: the locked
      steps of different callbacks in any order, before and after the seal. */
  predicate FromCallbacks(batch: seq<Callback>, events: seq<Event>)
    requires forall i :: 0 <= i < |batch| ==> InRange(batch[i])
  {
    forall e :: e in events ==> e.Finish? || exists i :: 0 <= i < |batch| && e in Steps(batch[i])
  }

  lemma StepsBalance(b: Callback)
    requires InRange(b)
    ensures forall e :: e in Steps(b) ==> !e.Finish? && (e.Observe? ==> Balanced(e.counts))
  {
    if b.Ended? {
      ClassifiedOnce(b.kind, b.sql, b.error, b.rows, b.vars, b.ns);
    }
  }

  lemma EventsBalance(batch: seq<Callback>, events: seq<Event>)
    requires forall i :: 0 <= i < |batch| ==> InRange(batch[i])
    requires FromCallbacks(batch, events)
    ensures forall j :: 0 <= j < |events| && events[j].Observe? ==> Balanced(events[j].counts)
  {
    forall j | 0 <= j < |events| && events[j].Observe?
      ensures Balanced(events[j].counts)
    {
      assert events[j] in events;
      var i :| 0 <= i < |batch| && events[j] in Steps(batch[i]);
      StepsBalance(batch[i]);
    }
  }

  /** Whatever statements a batch runs, and however the locked steps of their callbacks
      interleave with each other and with Finish, the first Finish publishes one sample;
      and if it is complete, every statement in it is a read, a write or an unknown. */
  lemma EveryBatchBalances(now: int, sourceBytes: nat, failures: nat, batch: seq<Callback>, events: seq<Event>)
    requires sourceBytes <= MAX64 && FirstFinish(events) < |events|
    requires forall i :: 0 <= i < |batch| ==> InRange(batch[i])
    requires FromCallbacks(batch, events)
    ensures var published := Published(Fresh(now, sourceBytes, failures), events);
            |published| == 1 && (published[0].complete ==> Balanced(published[0].counts))
  {
    EventsBalance(batch, events);
    CompleteSampleBalances(now, sourceBytes, failures, events);
  }

  class Statement {
    var started: Option<Started>

    constructor ()
      ensures started.None?
    {
      started := None;
    }

    predicate Paired(c: Collector, kind: Kind)
      reads this
    {
      started.Some? && started.value.collector == c && started.value.kind == kind
    }

    method Before(c: Collector, kind: Kind, dryRun: bool, failed: bool, now: int)
      modifies this, c, c.owner.process
      ensures c.state == Step(old(c.state), if dryRun || failed then Invalidate else Event.Start)
      ensures c.owner.process.failures == if !dryRun && !failed && old(c.state).sealed
                                          then Bumped(old(c.owner.process.failures))
                                          else old(c.owner.process.failures)
      ensures dryRun || failed ==> started.None?
      ensures !dryRun && !failed ==>
                started == if !old(c.state).sealed && old(c.state).active != MAX64
                           then Some(Started(c, now, kind)) else old(started)
    {
      if dryRun || failed {
        started := None;
        c.MarkIncomplete();
        return;
      }
      var ok := c.StartStatement();
      if !ok {
        return;
      }
      started := Some(Started(c, now, kind));
    }

    method After(c: Collector, kind: Kind, dryRun: bool, sql: string, error: Failure, rows: int, vars: seq<Argument>,
                 ns: nat)
      requires ns <= MAX64 && rows <= 0x7fff_ffff_ffff_ffff
      modifies this, c, c.owner.process
      ensures var mine := old(started.Some? && started.value.collector == c && started.value.kind == kind);
              c.state == Run(old(c.state), AfterEvents(mine, dryRun, kind, sql, error, rows, vars, ns))
      ensures c.owner.process.failures ==
              if old(started.Some? && started.value.collector == c && started.value.kind == kind)
                 && !dryRun && old(c.state).sealed
              then Bumped(old(c.owner.process.failures))
              else old(c.owner.process.failures)
      ensures started == if dryRun then old(started) else None
    {
      RunOne(c.state, Invalidate);
      if dryRun {
        c.MarkIncomplete();
        return;
      }
      var paired := Paired(c, kind);
      started := None;
      if !paired {
        c.MarkIncomplete();
        return;
      }
      if sql == "" {
        RunTwo(c.state, Invalidate, Observe(NoCounts()));
        c.MarkIncomplete();
        c.ObserveCounts(NoCounts());
        return;
      }
      var count, exact := Classify(kind, sql, error, rows, vars, ns);
      RunOne(c.state, Observe(count));
      RunTwo(c.state, Invalidate, Observe(count));
      if !exact {
        c.MarkIncomplete();
      }
      assert [Invalidate] + [Observe(count)] == [Invalidate, Observe(count)];
      c.ObserveCounts(count);
    }
  }

  /** Counts one executed statement; false when a sum of its arguments saturates. */
  method Classify(kind: Kind, sql: string, error: Failure, rows: int, vars: seq<Argument>, ns: nat)
    returns (count: Counts, exact: bool)
    requires ns <= MAX64 && rows <= 0x7fff_ffff_ffff_ffff
    ensures count == Classified(kind, sql, error, rows, vars, ns)
    ensures exact <==> !IsWrite(kind, sql) || (TextBytes(vars) <= MAX64 && Others(vars) <= MAX64)
  {
    var write, read := IsWrite(kind, sql), IsRead(kind, sql);
    var readCount, writeCount, unknown, errors, misses, results := 0, 0, 0, 0, 0, 0;
    if write {
      writeCount := 1;
    } else if read {
      readCount := 1;
    } else {
      unknown := 1;
    }
    if error.RecordNotFound? {
      misses := 1;
    } else if error.OtherError? {
      errors := 1;
    }
    if kind.Row? {
      results := 1;
    }
    var affected, unknownRows, text, other := 0, 0, 0, 0;
    exact := true;
    if write {
      if rows < 0 || kind.Row? || !error.NoError? {
        unknownRows := 1;
      } else {
        affected := rows;
      }
      text, other, exact := CountArguments(vars);
    }
    count := [1, readCount, writeCount, unknown, errors, misses, results, affected, unknownRows, text, other, 0, ns];
  }

  /** Sums the bound arguments of a write; false once a sum saturates. */
  method CountArguments(vars: seq<Argument>) returns (text: nat, other: nat, exact: bool)
    ensures text == Sat(TextBytes(vars)) && other == Sat(Others(vars))
    ensures exact <==> TextBytes(vars) <= MAX64 && Others(vars) <= MAX64
  {
    text, other, exact := 0, 0, true;
    for i := 0 to |vars|
      invariant text == Sat(TextBytes(vars[..i])) && other == Sat(Others(vars[..i]))
      invariant exact <==> TextBytes(vars[..i]) <= MAX64 && Others(vars[..i]) <= MAX64
    {
      assert vars[..i + 1][..i] == vars[..i];
      match vars[i] {
        case TextOrBlob(n) =>
          exact := exact && n <= MAX64 - text;
          text := Sat(text + n);
        case Other =>
          exact := exact && 1 <= MAX64 - other;
          other := Sat(other + 1);
      }
    }
    assert vars[..|vars|] == vars;
  }

  lemma RunOne(c: State, e: Event)
    ensures Run(c, [e]) == Step(c, e)
  {
    assert [e][1..] == [];
  }

  lemma RunTwo(c: State, e: Event, e': Event)
    ensures Run(c, [e, e']) == Step(Step(c, e), e')
  {
    assert [e, e'][1..] == [e'];
    RunOne(Step(c, e), e');
  }
}
