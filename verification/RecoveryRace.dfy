/** The paged recovery scan while publishers commit: between two pages, between two
    visits of a page, and between the counts of a visit and its transaction. */
module RecoveryRace {
  import opened Order
  import opened CredentialRecovery
  import opened DeliveryRecovery

  /** `rows` is what is left of the page that was fetched, `locking` the visit whose
      counts did not agree, and `last` says that the page was not full. */
  datatype Scanner = Scanner(db: Store, cursor: nat, rows: seq<Deployment>, locking: bool, last: bool, failed: bool)

  datatype Event = Publication(d: Deployment) | Fetch | Check | Lock

  /** A node's deployments start one after the other: a new confirmation is of a deployment
      that had none, and later than the one its node's record names. */
  predicate InTurn(s: Store, d: Deployment) {
    && Evident(d) && d.succeeded && d.id > 0 && (d.id in s.deployments ==> !Confirmed(s.deployments[d.id]))
    && (d.node in s.states ==> s.states[d.node].deployment < d.id)
  }

  predicate Ended(m: Scanner) {
    m.failed || (m.last && m.rows == [])
  }

  predicate Possible(m: Scanner, e: Event) {
    match e
    case Publication(d) => InTurn(m.db, d)
    case Fetch => !Ended(m) && m.rows == []
    case Check => !m.failed && m.rows != [] && !m.locking
    case Lock => !m.failed && m.rows != [] && m.locking && Evident(m.rows[0])
  }

  /** The first 32 of the latest manifests after the cursor. */
  function Page(ds: map<nat, Deployment>, cursor: nat): (ids: seq<nat>)
    ensures |ids| <= PAGE && ids <= Scan(ds, cursor)
    ensures |ids| < PAGE ==> ids == Scan(ds, cursor)
    ensures forall i :: 0 <= i < |ids| ==> ids[i] in ds
  {
    var left := Scan(ds, cursor);
    assert forall i :: 0 <= i < |left| ==> left[i] in ds by {
      forall i | 0 <= i < |left|
        ensures left[i] in ds
      {
        AscendingMembers(Above(LatestIds(ds), cursor), left[i]);
      }
    }
    left[..if |left| > PAGE then PAGE else |left|]
  }

  function Rows(ds: map<nat, Deployment>, ids: seq<nat>): seq<Deployment>
    requires forall i :: 0 <= i < |ids| ==> ids[i] in ds
  {
    seq(|ids|, i requires 0 <= i < |ids| => ds[ids[i]])
  }

  function Next(m: Scanner, e: Event): Scanner
    requires Possible(m, e)
  {
    match e
    case Publication(d) => m.(db := Published(m.db, d))
    case Fetch =>
      var ids := Page(m.db.deployments, m.cursor);
      m.(rows := Rows(m.db.deployments, ids), last := |ids| < PAGE)
    case Check =>
      if !Evident(m.rows[0]) then m.(failed := true)
      else if Newer(m.db, m.rows[0]) || Complete(m.db, m.rows[0]) then m.(rows := m.rows[1..], cursor := m.rows[0].id)
      else m.(locking := true)
    case Lock => m.(db := Applied(m.db, m.rows[0]), rows := m.rows[1..], cursor := m.rows[0].id, locking := false)
  }

  ghost predicate Run(trace: seq<Scanner>, events: seq<Event>, db: Store) {
    && |trace| == |events| + 1 && trace[0] == Scanner(db, 0, [], false, false, false)
    && forall i :: 0 <= i < |events| ==> Possible(trace[i], events[i]) && trace[i + 1] == Next(trace[i], events[i])
  }

  // ------------------------------------------------------------- invariants

  /** Each deployment is stored under its id. */
  predicate Keyed(s: Store) {
    forall j :: j in s.deployments ==> s.deployments[j].id == j && j > 0
  }

  predicate HasRow(rows: seq<Deployment>, node: nat, id: nat) {
    exists k :: 0 <= k < |rows| && rows[k].node == node && rows[k].id >= id
  }

  /** Some manifest of the node, `id` or later, is still to be fetched. */
  ghost predicate StillListed(m: Scanner, node: nat, id: nat) {
    !m.last && exists j :: Waits(m, node, id, j)
  }

  predicate Waits(m: Scanner, node: nat, id: nat, j: nat) {
    && j >= id && j > m.cursor && j in m.db.deployments && Confirmed(m.db.deployments[j])
    && m.db.deployments[j].node == node
    && forall k :: 0 <= k < |m.rows| ==> m.rows[k].id < j
  }

  /** The node is settled at `id` or later, or the scan still has it ahead. */
  ghost predicate Ahead(m: Scanner, node: nat, id: nat) {
    Recorded(m.db, node, id) || HasRow(m.rows, node, id) || StillListed(m, node, id)
  }

  lemma PublicationKeeps(m: Scanner, d: Deployment, node: nat, id: nat)
    requires Possible(m, Publication(d)) && Ahead(m, node, id)
    ensures Ahead(Next(m, Publication(d)), node, id)
  {
    var n := Next(m, Publication(d));
    if !Recorded(m.db, node, id) && !HasRow(m.rows, node, id) {
      var j :| Waits(m, node, id, j);
      assert Waits(n, node, id, j);
    }
  }

  /** A visit that has seen its row leaves the record of its node at or above it. */
  lemma VisitKeeps(m: Scanner, n: Scanner, node: nat, id: nat)
    requires m.rows != [] && Ahead(m, node, id)
    requires n.rows == m.rows[1..] && n.cursor == m.rows[0].id && n.last == m.last
    requires n.db.deployments == m.db.deployments
    requires Recorded(m.db, node, id) ==> Recorded(n.db, node, id)
    requires m.rows[0].node == node ==> Recorded(n.db, node, m.rows[0].id)
    ensures Ahead(n, node, id)
  {
    if !Recorded(n.db, node, id) {
      if HasRow(m.rows, node, id) {
        var k :| 0 <= k < |m.rows| && m.rows[k].node == node && m.rows[k].id >= id;
        assert n.rows[k - 1] == m.rows[k];
      } else {
        var j :| Waits(m, node, id, j);
        assert Waits(n, node, id, j);
      }
    }
  }

  lemma CheckKeeps(m: Scanner, node: nat, id: nat)
    requires Possible(m, Check) && Ahead(m, node, id)
    ensures Ahead(Next(m, Check), node, id)
  {
    var n := Next(m, Check);
    if n.rows == m.rows {
      if StillListed(m, node, id) {
        var j :| Waits(m, node, id, j);
        assert Waits(n, node, id, j);
      }
    } else {
      VisitKeeps(m, n, node, id);
    }
  }

  lemma LockKeeps(m: Scanner, node: nat, id: nat)
    requires Possible(m, Lock) && Ahead(m, node, id) && node in m.db.nodes
    ensures Ahead(Next(m, Lock), node, id)
  {
    VisitKeeps(m, Next(m, Lock), node, id);
  }

  /** A page holds the node's latest manifest or stops short of it. */
  lemma FetchKeeps(m: Scanner, node: nat, id: nat)
    requires Possible(m, Fetch) && Keyed(m.db) && Ahead(m, node, id)
    ensures Ahead(Next(m, Fetch), node, id)
  {
    if !Recorded(m.db, node, id) {
      var i :| Waits(m, node, id, i);
      var j := LatestExists(m.db.deployments, i);
      assert j in Above(LatestIds(m.db.deployments), m.cursor);
      FetchLists(m, Next(m, Fetch), node, id, j);
    }
  }

  lemma FetchLists(m: Scanner, n: Scanner, node: nat, id: nat, j: nat)
    requires Possible(m, Fetch) && n == Next(m, Fetch) && Keyed(m.db)
    requires j in Above(LatestIds(m.db.deployments), m.cursor) && j >= id && m.db.deployments[j].node == node
    ensures HasRow(n.rows, node, id) || StillListed(n, node, id)
  {
    var ds := m.db.deployments;
    var left, ids := Scan(ds, m.cursor), Page(ds, m.cursor);
    AscendingMembers(Above(LatestIds(ds), m.cursor), j);
    AscendingRises(Above(LatestIds(ds), m.cursor));
    var k :| 0 <= k < |left| && left[k] == j;
    if k < |ids| {
      assert n.rows[k] == ds[ids[k]] && ids[k] == j;
    } else {
      forall i | 0 <= i < |n.rows|
        ensures n.rows[i].id < j
      {
        assert n.rows[i] == ds[ids[i]] && ids[i] == left[i];
      }
      assert Waits(n, node, id, j);
    }
  }

  lemma KeyedStays(m: Scanner, e: Event)
    requires Possible(m, e) && Keyed(m.db)
    ensures Keyed(Next(m, e).db) && Next(m, e).db.nodes == m.db.nodes
  {
  }

  lemma EventKeeps(m: Scanner, e: Event, node: nat, id: nat)
    requires Possible(m, e) && Keyed(m.db) && node in m.db.nodes && Ahead(m, node, id)
    ensures Ahead(Next(m, e), node, id)
  {
    match e
    case Publication(d) => PublicationKeeps(m, d, node, id);
    case Fetch => FetchKeeps(m, node, id);
    case Check => CheckKeeps(m, node, id);
    case Lock => LockKeeps(m, node, id);
  }

  lemma {:induction false} RunKeeps(trace: seq<Scanner>, events: seq<Event>, db: Store, i: nat)
    requires Run(trace, events, db) && Keyed(db)
    requires i in db.deployments && Confirmed(db.deployments[i]) && db.deployments[i].node in db.nodes
    ensures Keyed(trace[|events|].db) && trace[|events|].db.nodes == db.nodes
    ensures Ahead(trace[|events|], db.deployments[i].node, i)
    decreases |events|
  {
    if events == [] {
      assert Waits(trace[0], db.deployments[i].node, i, i);
    } else {
      var n := |events| - 1;
      RunKeeps(trace[..n + 1], events[..n], db, i);
      KeyedStays(trace[n], events[n]);
      EventKeeps(trace[n], events[n], db.deployments[i].node, i);
    }
  }

  /** However publishers commit between its pages, its visits and its locks: once the
      scan ends without a failure, the record of every node stands at or above each
      deployment that was confirmed when the scan began. */
  lemma EveryScanCatchesUp(trace: seq<Scanner>, events: seq<Event>, db: Store, i: nat)
    requires Run(trace, events, db) && Keyed(db) && Ended(trace[|events|]) && !trace[|events|].failed
    requires i in db.deployments && Confirmed(db.deployments[i]) && db.deployments[i].node in db.nodes
    ensures Recorded(trace[|events|].db, db.deployments[i].node, i)
  {
    RunKeeps(trace, events, db, i);
  }

  /** The records of one event: none is lowered, and the transaction of a visit that is
      not overtaken settles its node at the visited deployment. */
  lemma EventRecords(m: Scanner, e: Event, node: nat)
    requires Possible(m, e)
    ensures node in m.db.states ==> Recorded(Next(m, e).db, node, m.db.states[node].deployment)
    ensures e.Lock? && Effective(m.db, m.rows[0]) ==>
              Complete(Next(m, e).db, m.rows[0]) && Settled(Next(m, e).db, m.rows[0])
  {
    if e.Lock? && Effective(m.db, m.rows[0]) {
      var d := m.rows[0];
      AppliedExactly(m.db, d, d.node + 1, "-");
      CompleteIsSettled(Next(m, e).db, d);
      OwnRows(m.db, d);
    }
  }

  lemma OwnRows(s: Store, d: Deployment)
    requires Evident(d) && Effective(s, d)
    ensures NoStaleRows(Applied(s, d), d)
  {
    AppliedExactly(s, d, d.node + 1, "-");
    if d.body.manifest.entries.Some? {
      CurrentIds(d.body.manifest.entries.value, s.live);
    }
  }

  lemma {:induction false} RecordsRise(trace: seq<Scanner>, events: seq<Event>, db: Store, k: nat, node: nat)
    requires Run(trace, events, db) && k <= |events| && node in trace[k].db.states
    ensures Recorded(trace[|events|].db, node, trace[k].db.states[node].deployment)
    decreases |events| - k
  {
    if k < |events| {
      EventRecords(trace[k], events[k], node);
      assert trace[k + 1] == Next(trace[k], events[k]);
      RecordsRise(trace, events, db, k + 1, node);
    }
  }

  // ------------------------------------------------- a scan that nothing disturbs

  lemma ScanKnown(ds: map<nat, Deployment>, cursor: nat)
    ensures Known(ds, Scan(ds, cursor))
  {
    forall i | i in Scan(ds, cursor)
      ensures i in ds
    {
      AscendingMembers(Above(LatestIds(ds), cursor), i);
    }
  }

  /** What is left of the page is the beginning of what the scan still lists, and a
      visit about to lock has found its node unsettled. */
  ghost predicate OnPage(m: Scanner, db: Store) {
    var left := Scan(db.deployments, m.cursor);
    && m.db.deployments == db.deployments && Keyed(db) && Known(db.deployments, left)
    && |m.rows| <= |left| && (forall k :: 0 <= k < |m.rows| ==> m.rows[k] == db.deployments[left[k]])
    && (m.last ==> |m.rows| == |left|)
    && (m.locking ==>
          m.rows != [] && Evident(m.rows[0]) && !Newer(m.db, m.rows[0]) && !Complete(m.db, m.rows[0]))
  }

  /** Ahead of the scan lies what is left of the pass; a failed one has none. */
  ghost predicate OnPass(m: Scanner, db: Store) {
    var ds := db.deployments;
    && OnPage(m, db) && Known(ds, LatestOf(ds))
    && if m.failed then !AllEvident(ds, LatestOf(ds)) && m.db == Pass(db, LatestOf(ds))
       else (AllEvident(ds, LatestOf(ds)) <==> AllEvident(ds, Scan(ds, m.cursor)))
            && Pass(db, LatestOf(ds)) == Pass(m.db, Scan(ds, m.cursor))
  }

  lemma PassHead(s: Store, ids: seq<nat>)
    requires Known(s.deployments, ids) && ids != []
    ensures Known(s.deployments, ids[1..])
    ensures var d := s.deployments[ids[0]];
            && (!Evident(d) ==> Pass(s, ids) == s && !AllEvident(s.deployments, ids))
            && (Evident(d) ==> Pass(s, ids) == Pass(Visited(s, d), ids[1..])
                               && (AllEvident(s.deployments, ids) <==> AllEvident(s.deployments, ids[1..])))
  {
    assert ids == [ids[0]] + ids[1..];
  }

  lemma PastRowOnPage(m: Scanner, n: Scanner, db: Store)
    requires OnPage(m, db) && m.rows != [] && n.rows == m.rows[1..] && n.cursor == m.rows[0].id
    requires n.db.deployments == m.db.deployments && n.last == m.last && !n.locking
    ensures OnPage(n, db) && Scan(db.deployments, n.cursor) == Scan(db.deployments, m.cursor)[1..]
  {
    var left := Scan(db.deployments, m.cursor);
    assert left[0] in left;
    assert m.rows[0] == db.deployments[left[0]];
    ScanAdvances(db.deployments, m.cursor, 1);
    ScanKnown(db.deployments, n.cursor);
    assert forall k :: 0 <= k < |n.rows| ==> n.rows[k] == m.rows[k + 1] && left[1..][k] == left[k + 1];
  }

  /** The visit of the first row takes the scan past it. */
  lemma PastRow(m: Scanner, n: Scanner, db: Store)
    requires OnPass(m, db) && !m.failed && m.rows != [] && Evident(m.rows[0])
    requires n == m.(db := Visited(m.db, m.rows[0]), rows := m.rows[1..], cursor := m.rows[0].id, locking := false)
    ensures OnPass(n, db)
  {
    PassHead(m.db, Scan(db.deployments, m.cursor));
    PastRowOnPage(m, n, db);
  }

  lemma QuietEvent(m: Scanner, e: Event, db: Store)
    requires OnPass(m, db) && Possible(m, e) && !e.Publication?
    ensures OnPass(Next(m, e), db)
  {
    var left := Scan(db.deployments, m.cursor);
    if e.Fetch? {
      var ids := Page(db.deployments, m.cursor);
      assert forall k :: 0 <= k < |ids| ==> ids[k] == left[k];
    } else if e.Lock? {
      PastRow(m, Next(m, e), db);
    } else {
      assert m.rows[0] == db.deployments[left[0]];
      PassHead(m.db, left);
      if Evident(m.rows[0]) && (Newer(m.db, m.rows[0]) || Complete(m.db, m.rows[0])) {
        PastRow(m, Next(m, e), db);
      }
    }
  }

  lemma {:induction false} QuietRun(trace: seq<Scanner>, events: seq<Event>, db: Store)
    requires Run(trace, events, db) && Keyed(db) && forall e :: e in events ==> !e.Publication?
    ensures OnPass(trace[|events|], db)
    decreases |events|
  {
    if events == [] {
      assert Above(LatestIds(db.deployments), 0) == LatestIds(db.deployments);
      LatestKnown(db.deployments);
    } else {
      var n := |events| - 1;
      QuietRun(trace[..n + 1], events[..n], db);
      assert events[n] in events;
      QuietEvent(trace[n], events[n], db);
    }
  }

  /** Until it has ended, an undisturbed scan can take another step. */
  lemma QuietRunGoesOn(trace: seq<Scanner>, events: seq<Event>, db: Store)
    requires Run(trace, events, db) && Keyed(db) && !Ended(trace[|events|])
    requires forall e :: e in events ==> !e.Publication?
    ensures exists e :: e in {Fetch, Check, Lock} && Possible(trace[|events|], e)
  {
    QuietRun(trace, events, db);
    var m := trace[|events|];
    assert Possible(m, Fetch) || Possible(m, Check) || Possible(m, Lock);
  }

  /** Undisturbed, the machine is the scan of `DeliveryDatabase.Recover`: it fails exactly
      when that does and leaves the same database. */
  lemma QuietRunIsRecover(trace: seq<Scanner>, events: seq<Event>, db: Store)
    requires Run(trace, events, db) && Keyed(db) && Ended(trace[|events|])
    requires forall e :: e in events ==> !e.Publication?
    ensures Known(db.deployments, LatestOf(db.deployments))
    ensures !trace[|events|].failed <==> AllEvident(db.deployments, LatestOf(db.deployments))
    ensures trace[|events|].db == Pass(db, LatestOf(db.deployments))
  {
    QuietRun(trace, events, db);
  }
}
