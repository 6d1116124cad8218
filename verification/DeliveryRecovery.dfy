/** The recovery procedure: a paged scan of the latest manifests, and for each a
    transaction that re-reads what a publisher may have committed meanwhile. */
module DeliveryRecovery {
  import opened Wrappers
  import opened Order
  import opened DeliveryTables
  import opened CredentialRecovery

  const PAGE := 32

  /** A publisher's confirmation of its own deployment: rows are upserted, none is
      blanked. */
  function Published(s: Store, d: Deployment): Store
    requires Evident(d)
  {
    s.(deployments := s.deployments[d.id := d],
       credentials := Upserted(s.credentials, ReceiptOf(d), d.body.manifest.targets),
       entries := if d.body.manifest.entries.None? then s.entries
                  else Upserted(s.entries, ReceiptOf(d), EntriesOf(d, s.live)),
       states := s.states[d.node := NodeState(d.id, d.applied, d.finishedAt.value)])
  }

  /** A publication writes its targets and its live entries, records itself, and leaves
      every other row and node as it was. */
  lemma PublishedShows(s: Store, d: Deployment, c: nat)
    requires Evident(d)
    ensures var t, m := Published(s, d), d.body.manifest;
            && t.deployments == s.deployments[d.id := d] && t.nodes == s.nodes && t.live == s.live
            && t.states == s.states[d.node := NodeState(d.id, d.applied, d.finishedAt.value)]
            && (c !in Ids(m.targets) ==> (c in t.credentials <==> c in s.credentials)
                                         && (c in s.credentials ==> t.credentials[c] == s.credentials[c]))
            && (c in Ids(m.targets) ==> c in t.credentials && t.credentials[c].node == d.node
                                        && t.credentials[c].config == d.applied)
            && (m.entries.None? || c !in Ids(m.entries.value) || c !in s.live ==>
                  (c in t.entries <==> c in s.entries) && (c in s.entries ==> t.entries[c] == s.entries[c]))
            && (m.entries.Some? && c in Ids(m.entries.value) && c in s.live ==>
                  c in t.entries && t.entries[c].node == d.node && t.entries[c].config == d.applied)
  {
    var r, m := ReceiptOf(d), d.body.manifest;
    UpsertedAt(s.credentials, r, m.targets, c);
    if m.entries.Some? {
      CurrentIds(m.entries.value, s.live);
      UpsertedAt(s.entries, r, EntriesOf(d, s.live), c);
    }
  }

  /** A newer publication that commits between the scan and the lock stands. */
  lemma NewerPublicationStands(s: Store, p: Deployment, d: Deployment)
    requires Evident(p) && Evident(d) && p.node == d.node && p.id > d.id
    ensures Applied(Published(s, p), d) == Published(s, p)
  {
  }

  /** A recovery transaction or a publisher's, in the order in which they commit. */
  datatype Commit = Replay(d: Deployment) | Publish(d: Deployment)

  function After(s: Store, commits: seq<Commit>): Store
    requires forall c :: c in commits ==> Evident(c.d)
    decreases |commits|
  {
    if commits == [] then s
    else
      assert commits[0] in commits && forall c :: c in commits[1..] ==> c in commits;
      After(Committed(s, commits[0]), commits[1..])
  }

  function Committed(s: Store, c: Commit): Store
    requires Evident(c.d)
  {
    if c.Replay? then Applied(s, c.d) else Published(s, c.d)
  }

  predicate Recorded(s: Store, node: nat, id: nat) {
    node in s.states && s.states[node].deployment >= id
  }

  /** Publishers hold the node's fence and publish its deployments in order. */
  predicate InOrder(s: Store, commits: seq<Commit>)
    requires forall c :: c in commits ==> Evident(c.d)
    decreases |commits|
  {
    commits != [] ==>
      assert commits[0] in commits && forall c :: c in commits[1..] ==> c in commits;
      && (commits[0].Publish? && commits[0].d.node in s.states ==>
            s.states[commits[0].d.node].deployment <= commits[0].d.id)
      && InOrder(Committed(s, commits[0]), commits[1..])
  }

  lemma {:induction false} RecordStays(s: Store, commits: seq<Commit>, node: nat, id: nat)
    requires (forall c :: c in commits ==> Evident(c.d)) && InOrder(s, commits) && Recorded(s, node, id)
    ensures Recorded(After(s, commits), node, id)
    decreases |commits|
  {
    if commits != [] {
      assert commits[0] in commits && forall c :: c in commits[1..] ==> c in commits;
      RecordStays(Committed(s, commits[0]), commits[1..], node, id);
    }
  }

  /** In every interleaving of recoveries and publishers, what a publisher recorded
      for a node is never lowered by any commit after it. */
  lemma {:induction false} PublicationsStand(s: Store, commits: seq<Commit>, i: nat)
    requires (forall c :: c in commits ==> Evident(c.d)) && InOrder(s, commits)
    requires i < |commits| && commits[i].Publish?
    ensures Recorded(After(s, commits), commits[i].d.node, commits[i].d.id)
    decreases |commits|
  {
    assert commits[0] in commits && forall c :: c in commits[1..] ==> c in commits;
    var next := Committed(s, commits[0]);
    if i == 0 {
      RecordStays(next, commits[1..], commits[0].d.node, commits[0].d.id);
    } else {
      PublicationsStand(next, commits[1..], i - 1);
    }
  }

  function LatestOf(ds: map<nat, Deployment>): seq<nat> {
    Ascending(LatestIds(ds))
  }

  predicate Known(ds: map<nat, Deployment>, ids: seq<nat>) {
    forall i :: i in ids ==> i in ds
  }

  lemma LatestKnown(ds: map<nat, Deployment>)
    ensures Known(ds, LatestOf(ds))
  {
    forall i | i in LatestOf(ds)
      ensures i in ds
    {
      AscendingMembers(LatestIds(ds), i);
    }
  }

  /** The scan order: each node's latest manifest once, by ascending id. */
  lemma LatestOfScans(ds: map<nat, Deployment>)
    ensures Rising(LatestOf(ds)) && (forall i :: i in LatestOf(ds) <==> i in LatestIds(ds))
    ensures AllEvident(ds, LatestOf(ds)) ==> OnePerNode(ds, LatestOf(ds))
    ensures forall i :: i in ds && Confirmed(ds[i]) ==>
                          exists j :: j in LatestOf(ds) && ds[j].node == ds[i].node && j >= i
  {
    var l := LatestOf(ds);
    AscendingRises(LatestIds(ds));
    forall i
      ensures i in l <==> i in LatestIds(ds)
    {
      AscendingMembers(LatestIds(ds), i);
    }
    forall i, j | 0 <= i < j < |l|
      ensures l[i] in ds && l[j] in ds && ds[l[i]].node != ds[l[j]].node
    {
      assert l[i] in l && l[j] in l;
      if ds[l[i]].node == ds[l[j]].node {
        LatestIsPerNode(ds, l[i], l[j]);
      }
    }
    forall i | i in ds && Confirmed(ds[i])
      ensures exists j :: j in l && ds[j].node == ds[i].node && j >= i
    {
      var j := LatestExists(ds, i);
      assert j in l;
    }
  }

  /** No two targets and no two entries have the same key. */
  predicate ListsOnce(m: Manifest) {
    && (forall a, b :: 0 <= a < |m.targets| && 0 <= b < |m.targets| && a != b ==> m.targets[a].id != m.targets[b].id)
    && (m.entries != None ==>
          forall a, b :: 0 <= a < |m.entries.value| && 0 <= b < |m.entries.value| && a != b ==>
                           m.entries.value[a].id != m.entries.value[b].id)
  }

  /** Finished, and confirmed under the 64-character hash that was asked for. */
  predicate Vouched(d: Deployment) {
    d.finishedAt != None && |d.applied| == 64 && d.applied == d.desired
  }

  lemma EvidentExactly(d: Deployment)
    requires d.body.Text?
    ensures Evident(d) <==> Vouched(d) && ListsOnce(d.body.manifest)
  {
  }

  /** The scan succeeds exactly when every node's latest manifest is vouched for and lists
      each key once. */
  lemma SucceedsExactly(ds: map<nat, Deployment>)
    ensures AllEvident(ds, LatestOf(ds)) <==>
            forall i :: i in LatestIds(ds) ==> Vouched(ds[i]) && ListsOnce(ds[i].body.manifest)
  {
    LatestOfScans(ds);
    forall i | i in LatestIds(ds)
      ensures Evident(ds[i]) <==> Vouched(ds[i]) && ListsOnce(ds[i].body.manifest)
    {
      EvidentExactly(ds[i]);
    }
  }

  // ------------------------------------- deployments that did not succeed

  /** The same tables without the deployments that did not succeed. */
  function Succeeded(ds: map<nat, Deployment>): map<nat, Deployment> {
    map i | i in ds && ds[i].succeeded :: ds[i]
  }

  function Without(s: Store): Store {
    s.(deployments := Succeeded(s.deployments))
  }

  lemma SameLatestAt(ds: map<nat, Deployment>, i: nat)
    ensures i in LatestIds(Succeeded(ds)) <==> i in LatestIds(ds)
  {
    LatestExactly(ds, i);
    LatestExactly(Succeeded(ds), i);
    assert forall j :: j in ds && ds[j].succeeded ==> j in Succeeded(ds) && Succeeded(ds)[j] == ds[j];
  }

  lemma SameLatest(ds: map<nat, Deployment>)
    ensures LatestOf(Succeeded(ds)) == LatestOf(ds)
  {
    forall i
      ensures i in LatestIds(Succeeded(ds)) <==> i in LatestIds(ds)
    {
      SameLatestAt(ds, i);
    }
    assert LatestIds(Succeeded(ds)) == LatestIds(ds);
  }

  lemma {:induction false} SamePass(s: Store, ids: seq<nat>)
    requires forall i :: i in ids ==> i in s.deployments && s.deployments[i].succeeded
    ensures forall i :: i in ids ==> i in Without(s).deployments
    ensures Pass(Without(s), ids) == Without(Pass(s, ids))
    decreases |ids|
  {
    if ids != [] {
      assert ids[0] in ids && forall i :: i in ids[1..] ==> i in ids;
      var d := s.deployments[ids[0]];
      if Evident(d) {
        assert Visited(Without(s), d) == Without(Visited(s, d));
        SamePass(Visited(s, d), ids[1..]);
      }
    }
  }

  /** Deployments that did not succeed change nothing: without them the scan has the same
      result and leaves the same tables. */
  lemma UnsucceededChangeNothing(s: Store)
    ensures LatestOf(Succeeded(s.deployments)) == LatestOf(s.deployments)
    ensures Known(s.deployments, LatestOf(s.deployments))
    ensures Known(Succeeded(s.deployments), LatestOf(s.deployments))
    ensures AllEvident(Succeeded(s.deployments), LatestOf(s.deployments)) <==>
            AllEvident(s.deployments, LatestOf(s.deployments))
    ensures Pass(Without(s), LatestOf(s.deployments)) == Without(Pass(s, LatestOf(s.deployments)))
  {
    var ds, ids := s.deployments, LatestOf(s.deployments);
    SameLatest(ds);
    LatestSucceeded(ds);
    SamePass(s, ids);
    assert forall i :: i in ids ==> Succeeded(ds)[i] == ds[i];
  }

  lemma LatestSucceeded(ds: map<nat, Deployment>)
    ensures forall i :: i in LatestOf(ds) ==> i in ds && ds[i].succeeded
  {
    LatestOfScans(ds);
    forall i | i in LatestOf(ds)
      ensures i in ds && ds[i].succeeded
    {
      LatestExactly(ds, i);
    }
  }

  function Above(s: set<nat>, cursor: nat): set<nat> {
    set i | i in s && i > cursor
  }

  lemma {:induction false} LatestExists(ds: map<nat, Deployment>, i: nat) returns (j: nat)
    requires i in ds && Confirmed(ds[i])
    ensures j in LatestIds(ds) && ds[j].node == ds[i].node && j >= i
    decreases Above(ds.Keys, i)
  {
    if i in LatestIds(ds) {
      j := i;
    } else {
      var k :| k in ds && Confirmed(ds[k]) && ds[k].node == ds[i].node && k > i;
      assert k in Above(ds.Keys, i) && k !in Above(ds.Keys, k);
      j := LatestExists(ds, k);
    }
  }

  /** Restarting the scan after the k-th id lists exactly the ids that follow it. */
  lemma {:induction false} ScanResumes(s: set<nat>, k: nat)
    requires 0 < k <= |Ascending(s)|
    ensures Ascending(Above(s, Ascending(s)[k - 1])) == Ascending(s)[k..]
    decreases k
  {
    var m, rest := Least(s), s - {Least(s)};
    if k == 1 {
      assert Above(s, m) == rest;
    } else {
      ScanResumes(rest, k - 1);
      AscendingMembers(rest, Ascending(rest)[k - 2]);
      assert Above(s, Ascending(s)[k - 1]) == Above(rest, Ascending(rest)[k - 2]);
    }
  }

  lemma {:induction false} PassAppends(s: Store, a: seq<nat>, b: seq<nat>)
    requires forall i :: i in a || i in b ==> i in s.deployments
    ensures forall i :: i in a + b ==> i in s.deployments
    ensures Pass(s, a).deployments == s.deployments
    ensures Pass(s, a + b) == if AllEvident(s.deployments, a) then Pass(Pass(s, a), b) else Pass(s, a)
    decreases |a|
  {
    if a == [] {
      assert a + b == b;
    } else {
      assert (a + b)[0] == a[0] && (a + b)[1..] == a[1..] + b && a[0] in a;
      assert forall i :: i in a <==> i == a[0] || i in a[1..];
      if Evident(s.deployments[a[0]]) {
        PassAppends(Visited(s, s.deployments[a[0]]), a[1..], b);
      }
    }
  }

  /** The ids a scan from the cursor still lists. */
  function Scan(ds: map<nat, Deployment>, cursor: nat): seq<nat> {
    Ascending(Above(LatestIds(ds), cursor))
  }

  lemma ScanAdvances(ds: map<nat, Deployment>, cursor: nat, n: nat)
    requires 0 < n <= |Scan(ds, cursor)|
    ensures Scan(ds, Scan(ds, cursor)[n - 1]) == Scan(ds, cursor)[n..]
  {
    var left := Above(LatestIds(ds), cursor);
    ScanResumes(left, n);
    AscendingMembers(left, Ascending(left)[n - 1]);
    assert Above(left, Ascending(left)[n - 1]) == Above(LatestIds(ds), Ascending(left)[n - 1]);
  }

  /** A pass over what is left is a pass over one page and then over the rest. */
  lemma PassPages(s: Store, left: seq<nat>, n: nat)
    requires Known(s.deployments, left) && n <= |left|
    ensures Known(s.deployments, left[..n]) && Known(s.deployments, left[n..])
    ensures Pass(s, left[..n]).deployments == s.deployments
    ensures Pass(s, left) == if AllEvident(s.deployments, left[..n]) then Pass(Pass(s, left[..n]), left[n..])
                             else Pass(s, left[..n])
    ensures AllEvident(s.deployments, left) <==>
            AllEvident(s.deployments, left[..n]) && AllEvident(s.deployments, left[n..])
  {
    assert left == left[..n] + left[n..];
    PassAppends(s, left[..n], left[n..]);
  }

  class DeliveryDatabase {
    var db: Store

    constructor (db: Store)
      ensures this.db == db
    {
      this.db := db;
    }

    /** The transaction: fence, re-read, blank, upsert, record. */
    method Apply(d: Deployment)
      requires Evident(d)
      modifies this
      ensures db == Applied(old(db), d)
    {
      if d.node !in db.nodes {
        return;
      }
      if d.node in db.states && db.states[d.node].deployment > d.id {
        return;
      }
      var manifest, receipt := d.body.manifest, ReceiptOf(d);
      var rows := Blanked(db.credentials, d.node);
      for i := 0 to |manifest.targets|
        invariant rows == Upserted(Blanked(db.credentials, d.node), receipt, manifest.targets[..i])
      {
        assert manifest.targets[..i + 1][..i] == manifest.targets[..i];
        rows := rows[manifest.targets[i].id := RowOf(receipt, manifest.targets[i])];
      }
      assert manifest.targets[..|manifest.targets|] == manifest.targets;
      var routes := db.entries;
      if manifest.entries.Some? {
        var current := Current(manifest.entries.value, db.live);
        routes := Blanked(db.entries, d.node);
        for i := 0 to |current|
          invariant routes == Upserted(Blanked(db.entries, d.node), receipt, current[..i])
        {
          assert current[..i + 1][..i] == current[..i];
          routes := routes[current[i].id := RowOf(receipt, current[i])];
        }
        assert current[..|current|] == current;
      }
      db := db.(credentials := rows, entries := routes,
                states := db.states[d.node := NodeState(d.id, d.applied, d.finishedAt.value)]);
    }

    /** One visit of the scan. A publisher may commit after the counts were read
        and before the transaction locks its node. */
    method VisitDeployment(d: Deployment, publisher: Option<Deployment>)
      requires Evident(d) && (publisher.Some? ==> Evident(publisher.value))
      modifies this
      ensures db == if Newer(old(db), d) || Complete(old(db), d) then old(db)
                    else Applied(if publisher.None? then old(db) else Published(old(db), publisher.value), d)
      ensures publisher.None? ==> db == Visited(old(db), d)
      ensures publisher.Some? && publisher.value.node == d.node && publisher.value.id > d.id ==>
                db == old(db) || db == Published(old(db), publisher.value)
    {
      if d.node in db.states && db.states[d.node].deployment > d.id {
        return;
      }
      if d.node in db.states && db.states[d.node].deployment == d.id && db.states[d.node].config == d.applied {
        if |Carrying(db.credentials, d.node, d.applied)| == |d.body.manifest.targets| {
          var complete := true;
          if d.body.manifest.entries.Some? {
            complete := |Carrying(db.entries, d.node, d.applied)| == |EntriesOf(d, db.live)|;
          }
          if complete {
            return;
          }
        }
      }
      if publisher.Some? {
        db := Published(db, publisher.value);
      }
      Apply(d);
    }

    /** The rows of one page, in order, up to the first without exact evidence. */
    method VisitPage(rows: seq<nat>) returns (ok: bool)
      requires forall i :: i in rows ==> i in db.deployments
      modifies this
      ensures db.deployments == old(db).deployments
      ensures ok <==> AllEvident(old(db).deployments, rows)
      ensures db == Pass(old(db), rows)
    {
      for n := 0 to |rows|
        invariant db.deployments == old(db).deployments
        invariant AllEvident(db.deployments, rows[..n])
        invariant Pass(old(db), rows) == Pass(db, rows[n..])
      {
        assert rows[n] in rows && rows[n..][0] == rows[n] && rows[n..][1..] == rows[n + 1..];
        assert rows[..n + 1] == rows[..n] + [rows[n]];
        var row := db.deployments[rows[n]];
        if !Evident(row) {
          return false;
        }
        VisitDeployment(row, None);
      }
      assert rows[..|rows|] == rows && rows[|rows|..] == [];
      ok := true;
    }

    /** One page of the scan: the ids after the cursor, 32 at most. */
    method VisitNext(cursor: nat) returns (ok: bool, next: nat, more: bool)
      requires Known(db.deployments, Scan(db.deployments, cursor))
      modifies this
      ensures db.deployments == old(db).deployments
      ensures Known(db.deployments, Scan(db.deployments, next))
      ensures if more then ok && |Scan(db.deployments, next)| < |Scan(db.deployments, cursor)|
              else ok ==> Scan(db.deployments, next) == []
      ensures AllEvident(db.deployments, Scan(db.deployments, cursor)) <==>
              ok && AllEvident(db.deployments, Scan(db.deployments, next))
      ensures Pass(old(db), Scan(db.deployments, cursor)) == if ok then Pass(db, Scan(db.deployments, next)) else db
    {
      var rows := Scan(db.deployments, cursor);
      var page := rows[..if |rows| > PAGE then PAGE else |rows|];
      PassPages(db, rows, |page|);
      if page == [] {
        assert rows[0..] == rows;
      } else {
        ScanAdvances(db.deployments, cursor, |page|);
      }
      ok := VisitPage(page);
      next := if page == [] then cursor else page[|page| - 1];
      more := ok && |page| >= PAGE;
    }

    /** Visits every latest manifest in pages of 32, restarting the scan after the
        last visited id. Stops at the first one without exact evidence. */
    method Recover() returns (ok: bool)
      requires 0 !in db.deployments
      modifies this
      ensures Known(old(db).deployments, LatestOf(old(db).deployments))
      ensures ok <==> AllEvident(old(db).deployments, LatestOf(old(db).deployments))
      ensures db == Pass(old(db), LatestOf(old(db).deployments))
    {
      ghost var start, ds, all := db, db.deployments, LatestOf(db.deployments);
      LatestKnown(ds);
      var cursor, more := 0, true;
      ok := true;
      assert Above(LatestIds(ds), 0) == LatestIds(ds);
      while more
        invariant db.deployments == ds && Known(ds, Scan(ds, cursor))
        invariant AllEvident(ds, all) <==> ok && AllEvident(ds, Scan(ds, cursor))
        invariant !more && ok ==> Scan(ds, cursor) == []
        invariant more ==> ok
        invariant Pass(start, all) == if ok then Pass(db, Scan(ds, cursor)) else db
        decreases more, |Scan(ds, cursor)|
      {
        ok, cursor, more := VisitNext(cursor);
      }
    }
  }
}
