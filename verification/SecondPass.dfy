/** Exactly when a second recovery pass writes nothing, whatever rows the first one
    finds, and whether the publishers can leave rows that make it write. */
module SecondPass {
  import opened Wrappers
  import opened DeliveryTables
  import opened Order
  import opened CredentialRecovery
  import opened DeliveryRecovery

  // ------------------------------------------------ what a pass writes, foreseen

  /** The credentials and entries that visits have written. */
  datatype Taken = Taken(credentials: set<nat>, entries: set<nat>)

  function Both(a: Taken, b: Taken): Taken {
    Taken(a.credentials + b.credentials, a.entries + b.entries)
  }

  function Left(s: Store, d: Deployment, taken: Taken): set<nat> {
    Carrying(s.credentials, d.node, d.applied) - taken.credentials
  }

  function LeftEntries(s: Store, d: Deployment, taken: Taken): set<nat> {
    Carrying(s.entries, d.node, d.applied) - taken.entries
  }

  predicate RecordMatches(s: Store, d: Deployment) {
    d.node in s.states && s.states[d.node].deployment == d.id && s.states[d.node].config == d.applied
  }

  /** The counts will agree once the earlier visits have taken their rows. */
  predicate Skipped(s: Store, d: Deployment, taken: Taken)
    requires Evident(d)
  {
    && RecordMatches(s, d)
    && |Left(s, d, taken)| == |d.body.manifest.targets|
    && (d.body.manifest.entries.Some? ==> |LeftEntries(s, d, taken)| == |EntriesOf(d, s.live)|)
  }

  /** What the visit of `d` will write. */
  function Writes(s: Store, d: Deployment, taken: Taken): Taken
    requires Evident(d)
  {
    if Effective(s, d) && !Skipped(s, d, taken) then Taken(Ids(d.body.manifest.targets), Ids(EntriesOf(d, s.live)))
    else Taken({}, {})
  }

  /** The rows by which the counts of `d` agree after its visit: those it wrote, or
      those for which it was skipped. */
  function Owns(s: Store, d: Deployment, taken: Taken): Taken
    requires Evident(d)
  {
    if Skipped(s, d, taken) then
      Taken(Left(s, d, taken), if d.body.manifest.entries.Some? then LeftEntries(s, d, taken) else {})
    else Taken(Ids(d.body.manifest.targets), Ids(EntriesOf(d, s.live)))
  }

  function WritesOf(s: Store, ids: seq<nat>, taken: Taken): Taken
    requires AllEvident(s.deployments, ids)
    decreases |ids|
  {
    if ids == [] then Taken({}, {})
    else
      assert ids[0] in ids && forall i :: i in ids[1..] ==> i in ids;
      var w := Writes(s, s.deployments[ids[0]], taken);
      Both(w, WritesOf(s, ids[1..], Both(taken, w)))
  }

  predicate Apart(a: Taken, b: Taken) {
    a.credentials !! b.credentials && a.entries !! b.entries
  }

  /** No visit writes a row that an earlier one counts on. */
  predicate Lasting(s: Store, ids: seq<nat>, taken: Taken)
    requires AllEvident(s.deployments, ids)
    decreases |ids|
  {
    ids == [] ||
    (assert ids[0] in ids && forall i :: i in ids[1..] ==> i in ids;
     var d := s.deployments[ids[0]];
     var next := Both(taken, Writes(s, d, taken));
     (Effective(s, d) ==> Apart(Owns(s, d, taken), WritesOf(s, ids[1..], next)))
     && Lasting(s, ids[1..], next))
  }

  /** The visit leaves its node with what the manifest lists: it is not skipped for
      other rows that happen to be as many. */
  predicate OwnsManifest(s: Store, d: Deployment, taken: Taken)
    requires Evident(d)
  {
    Owns(s, d, taken) == Taken(Ids(d.body.manifest.targets), Ids(EntriesOf(d, s.live)))
  }

  predicate AllOwnManifest(s: Store, ids: seq<nat>, taken: Taken)
    requires AllEvident(s.deployments, ids)
    decreases |ids|
  {
    ids == [] ||
    (assert ids[0] in ids && forall i :: i in ids[1..] ==> i in ids;
     var d := s.deployments[ids[0]];
     (Effective(s, d) ==> OwnsManifest(s, d, taken))
     && AllOwnManifest(s, ids[1..], Both(taken, Writes(s, d, taken))))
  }

  // ------------------------------------------------------- the pass follows it

  predicate SameRecord(v: Store, s: Store, node: nat) {
    && (node in v.nodes <==> node in s.nodes)
    && (node in v.states <==> node in s.states)
    && (node in s.states ==> v.states[node] == s.states[node])
  }

  /** `v` is `s` as far as `e` can see, apart from the rows taken. */
  predicate Follows(v: Store, s: Store, e: Deployment, taken: Taken) {
    && SameRecord(v, s, e.node) && v.live == s.live
    && Carrying(v.credentials, e.node, e.applied) == Left(s, e, taken)
    && Carrying(v.entries, e.node, e.applied) == LeftEntries(s, e, taken)
  }

  lemma FollowsDecides(v: Store, s: Store, d: Deployment, taken: Taken)
    requires Evident(d) && Follows(v, s, d, taken)
    ensures Effective(v, d) <==> Effective(s, d)
    ensures Complete(v, d) <==> Skipped(s, d, taken)
    ensures Newer(v, d) ==> !Effective(s, d)
  {
  }

  /** The own rows of a visited node. */
  lemma VisitOwns(v: Store, s: Store, d: Deployment, taken: Taken)
    requires Evident(d) && Follows(v, s, d, taken) && Effective(s, d)
    ensures var w, own := Visited(v, d), Owns(s, d, taken);
            && Carrying(w.credentials, d.node, d.applied) == own.credentials
            && (d.body.manifest.entries.Some? ==> Carrying(w.entries, d.node, d.applied) == own.entries)
            && (d.body.manifest.entries.None? ==> own.entries == {})
            && RecordMatches(w, d) && d.node in w.nodes && w.live == s.live
            && |own.credentials| == |d.body.manifest.targets|
            && (d.body.manifest.entries.Some? ==> |own.entries| == |EntriesOf(d, s.live)|)
  {
    FollowsDecides(v, s, d, taken);
    if !Skipped(s, d, taken) {
      ReplacedCarries(v.credentials, ReceiptOf(d), d.body.manifest.targets, d.node, d.applied);
      DistinctIds(d.body.manifest.targets);
      if d.body.manifest.entries.Some? {
        ReplacedCarries(v.entries, ReceiptOf(d), EntriesOf(d, v.live), d.node, d.applied);
        CurrentIsLive(d.body.manifest.entries.value, s.live);
        DistinctIds(EntriesOf(d, s.live));
      }
    }
  }

  lemma VisitTakesCredentials(v: Store, s: Store, d: Deployment, taken: Taken, node: nat, config: string)
    requires Evident(d) && Follows(v, s, d, taken) && d.node != node && config != ""
    ensures Carrying(Visited(v, d).credentials, node, config) ==
            Carrying(v.credentials, node, config) - Writes(s, d, taken).credentials
  {
    FollowsDecides(v, s, d, taken);
    if Effective(s, d) && !Skipped(s, d, taken) {
      ReplacedCarries(v.credentials, ReceiptOf(d), d.body.manifest.targets, node, config);
    }
  }

  lemma VisitTakesEntries(v: Store, s: Store, d: Deployment, taken: Taken, node: nat, config: string)
    requires Evident(d) && Follows(v, s, d, taken) && d.node != node && config != ""
    ensures Carrying(Visited(v, d).entries, node, config) ==
            Carrying(v.entries, node, config) - Writes(s, d, taken).entries
  {
    FollowsDecides(v, s, d, taken);
    if Effective(s, d) && !Skipped(s, d, taken) {
      ReplacedCarries(v.entries, ReceiptOf(d), EntriesOf(d, v.live), node, config);
    }
  }

  lemma VisitSpares(v: Store, d: Deployment, node: nat)
    requires Evident(d) && d.node != node
    ensures var w := Visited(v, d); w.deployments == v.deployments && w.live == v.live && SameRecord(w, v, node)
  {
  }

  /** A visit takes from another node what it writes, and nothing else. */
  lemma VisitTakes(v: Store, s: Store, d: Deployment, e: Deployment, taken: Taken)
    requires Evident(d) && Evident(e) && Follows(v, s, d, taken) && d.node != e.node
    ensures var w, t := Visited(v, d), Writes(s, d, taken);
            && w.deployments == v.deployments && w.live == v.live && SameRecord(w, v, e.node)
            && Carrying(w.credentials, e.node, e.applied) == Carrying(v.credentials, e.node, e.applied) - t.credentials
            && Carrying(w.entries, e.node, e.applied) == Carrying(v.entries, e.node, e.applied) - t.entries
  {
    VisitSpares(v, d, e.node);
    VisitTakesCredentials(v, s, d, taken, e.node, e.applied);
    VisitTakesEntries(v, s, d, taken, e.node, e.applied);
  }

  lemma VisitFollows(v: Store, s: Store, d: Deployment, e: Deployment, taken: Taken)
    requires Evident(d) && Evident(e) && d.node != e.node
    requires Follows(v, s, d, taken) && Follows(v, s, e, taken)
    ensures Follows(Visited(v, d), s, e, Both(taken, Writes(s, d, taken)))
  {
    VisitTakes(v, s, d, e, taken);
    var t := Writes(s, d, taken);
    TakenTwice(Carrying(s.credentials, e.node, e.applied), taken.credentials, t.credentials);
    TakenTwice(Carrying(s.entries, e.node, e.applied), taken.entries, t.entries);
  }

  predicate Reached(v: Store, s: Store, ids: seq<nat>, taken: Taken)
    requires AllEvident(s.deployments, ids)
  {
    v.deployments == s.deployments && forall i :: i in ids ==> Follows(v, s, s.deployments[i], taken)
  }

  lemma ReachedNext(v: Store, s: Store, ids: seq<nat>, taken: Taken)
    requires ids != [] && OnePerNode(s.deployments, ids) && Reached(v, s, ids, taken)
    ensures OnePerNode(s.deployments, ids[1..]) && ids[0] in s.deployments && Evident(s.deployments[ids[0]])
    ensures var d := s.deployments[ids[0]];
            && Follows(v, s, d, taken)
            && Reached(Visited(v, d), s, ids[1..], Both(taken, Writes(s, d, taken)))
            && Pass(v, ids) == Pass(Visited(v, d), ids[1..])
  {
    EvidentTail(s.deployments, ids);
    assert ids[0] in ids;
    var d := s.deployments[ids[0]];
    var t := Both(taken, Writes(s, d, taken));
    forall i | i in ids[1..]
      ensures Follows(Visited(v, d), s, s.deployments[i], t)
    {
      VisitFollows(v, s, d, s.deployments[i], taken);
    }
  }

  /** The rest of a pass takes from a node it does not visit what the fold foresees. */
  lemma {:induction false} RestTakes(v: Store, s: Store, ids: seq<nat>, taken: Taken, e: Deployment)
    requires OnePerNode(s.deployments, ids) && Reached(v, s, ids, taken) && Evident(e)
    requires forall i :: i in ids ==> s.deployments[i].node != e.node
    ensures var f, t := Pass(v, ids), WritesOf(s, ids, taken);
            && f.deployments == s.deployments && f.live == v.live && SameRecord(f, v, e.node)
            && Carrying(f.credentials, e.node, e.applied) == Carrying(v.credentials, e.node, e.applied) - t.credentials
            && Carrying(f.entries, e.node, e.applied) == Carrying(v.entries, e.node, e.applied) - t.entries
    decreases |ids|
  {
    if ids != [] {
      ReachedNext(v, s, ids, taken);
      assert ids[0] in ids && forall i :: i in ids[1..] ==> i in ids;
      var d := s.deployments[ids[0]];
      var w := Writes(s, d, taken);
      VisitTakes(v, s, d, e, taken);
      RestTakes(Visited(v, d), s, ids[1..], Both(taken, w), e);
      var rest := WritesOf(s, ids[1..], Both(taken, w));
      TakenTwice(Carrying(v.credentials, e.node, e.applied), w.credentials, rest.credentials);
      TakenTwice(Carrying(v.entries, e.node, e.applied), w.entries, rest.entries);
    }
  }

  lemma LeftWhole(b: set<nat>, taken: set<nat>)
    ensures b !! taken ==> b - taken == b
  {
  }

  /** After the rest of the pass, the first node's counts still agree exactly when the
      rest wrote none of the rows it counts on. */
  lemma FirstLasts(v: Store, s: Store, ids: seq<nat>, taken: Taken)
    requires ids != [] && OnePerNode(s.deployments, ids) && Reached(v, s, ids, taken)
    ensures ids[0] in s.deployments && Evident(s.deployments[ids[0]]) && AllEvident(s.deployments, ids[1..])
    ensures var d, f := s.deployments[ids[0]], Pass(v, ids);
            && f.deployments == s.deployments
            && (Effective(f, d) <==> Effective(s, d))
            && (Effective(s, d) ==>
                  (Complete(f, d) <==>
                   Apart(Owns(s, d, taken), WritesOf(s, ids[1..], Both(taken, Writes(s, d, taken))))))
            && (Effective(s, d) && Complete(f, d) ==> (Settled(f, d) <==> OwnsManifest(s, d, taken)))
  {
    ReachedNext(v, s, ids, taken);
    EvidentTail(s.deployments, ids);
    var d := s.deployments[ids[0]];
    var next := Both(taken, Writes(s, d, taken));
    FollowsDecides(v, s, d, taken);
    RestTakes(Visited(v, d), s, ids[1..], next, d);
    if Effective(s, d) {
      VisitOwns(v, s, d, taken);
      NothingTaken(Owns(s, d, taken).credentials, WritesOf(s, ids[1..], next).credentials);
      NothingTaken(Owns(s, d, taken).entries, WritesOf(s, ids[1..], next).entries);
      LeftWhole(Owns(s, d, taken).credentials, WritesOf(s, ids[1..], next).credentials);
      LeftWhole(Owns(s, d, taken).entries, WritesOf(s, ids[1..], next).entries);
    }
  }

  /** The projection of every manifest that can be written is the manifest. */
  predicate Rebuilt(s: Store, ids: seq<nat>)
    requires AllEvident(s.deployments, ids)
  {
    forall i :: i in ids ==> Effective(s, s.deployments[i]) ==> Settled(s, s.deployments[i])
  }

  lemma {:induction false} PassLasts(v: Store, s: Store, ids: seq<nat>, taken: Taken)
    requires OnePerNode(s.deployments, ids) && Reached(v, s, ids, taken)
    ensures Pass(v, ids).deployments == s.deployments
    ensures Idle(Pass(v, ids), ids) <==> Lasting(s, ids, taken)
    ensures Rebuilt(Pass(v, ids), ids) <==> Lasting(s, ids, taken) && AllOwnManifest(s, ids, taken)
    decreases |ids|
  {
    if ids != [] {
      FirstLasts(v, s, ids, taken);
      ReachedNext(v, s, ids, taken);
      assert forall i :: i in ids <==> i == ids[0] || i in ids[1..];
      var d := s.deployments[ids[0]];
      CompleteIsSettled(Pass(v, ids), d);
      PassLasts(Visited(v, d), s, ids[1..], Both(taken, Writes(s, d, taken)));
    }
  }

  /** Whatever rows the first pass finds: the second writes nothing if and only if no
      visit of the first writes a row that an earlier visit counts on; and every
      projection is then its manifest if and only if moreover no visit is skipped for
      rows of other keys. */
  lemma SecondPassIdleAlways(s: Store, ids: seq<nat>)
    requires OnePerNode(s.deployments, ids)
    ensures Pass(s, ids).deployments == s.deployments
    ensures Idle(Pass(s, ids), ids) <==> Lasting(s, ids, Taken({}, {}))
    ensures Rebuilt(Pass(s, ids), ids) <==> Lasting(s, ids, Taken({}, {})) && AllOwnManifest(s, ids, Taken({}, {}))
  {
    PassLasts(s, s, ids, Taken({}, {}));
  }

  // -------------------------------------------- where the first pass's rows come from

  /** The two name different configurations, or deliver to the same keys. */
  predicate Agrees(a: Deployment, b: Deployment)
    requires Evident(a) && Evident(b)
  {
    a.node == b.node && a.applied == b.applied ==>
      && Ids(a.body.manifest.targets) == Ids(b.body.manifest.targets)
      && (a.body.manifest.entries.Some? && b.body.manifest.entries.Some? ==>
            Ids(a.body.manifest.entries.value) == Ids(b.body.manifest.entries.value))
  }

  lemma UpsertedCarries<D>(t: Table<D>, r: Receipt, items: seq<Item<D>>, node: nat, config: string)
    ensures Carrying(Upserted(t, r, items), node, config) ==
            if node == r.node && config == r.config then Carrying(t, node, config) + Ids(items)
            else Carrying(t, node, config) - Ids(items)
  {
    forall c
      ensures c in Carrying(Upserted(t, r, items), node, config) <==>
              c in (if node == r.node && config == r.config then Carrying(t, node, config) + Ids(items)
                    else Carrying(t, node, config) - Ids(items))
    {
      UpsertedAt(t, r, items, c);
    }
  }

  lemma CommitKeepsCredentials(s: Store, c: Commit, d: Deployment)
    requires Evident(c.d) && Evident(d) && Agrees(c.d, d) && NoStaleRows(s, d)
    ensures Carrying(Committed(s, c).credentials, d.node, d.applied) <= Ids(d.body.manifest.targets)
  {
    UpsertedCarries(s.credentials, ReceiptOf(c.d), c.d.body.manifest.targets, d.node, d.applied);
    ReplacedCarries(s.credentials, ReceiptOf(c.d), c.d.body.manifest.targets, d.node, d.applied);
  }

  lemma CommitKeepsEntries(s: Store, c: Commit, d: Deployment)
    requires Evident(c.d) && Evident(d) && Agrees(c.d, d) && NoStaleRows(s, d) && d.body.manifest.entries.Some?
    ensures Carrying(Committed(s, c).entries, d.node, d.applied) <= Ids(EntriesOf(d, s.live))
  {
    UpsertedCarries(s.entries, ReceiptOf(c.d), EntriesOf(c.d, s.live), d.node, d.applied);
    ReplacedCarries(s.entries, ReceiptOf(c.d), EntriesOf(c.d, s.live), d.node, d.applied);
    if c.d.body.manifest.entries.Some? {
      CurrentIds(c.d.body.manifest.entries.value, s.live);
      CurrentIds(d.body.manifest.entries.value, s.live);
    }
  }

  /** Publications and recoveries in any order leave no stale row of a deployment's
      hash as long as its node never confirmed that hash for other keys. */
  lemma {:induction false} HistoryLeavesNoStaleRows(s: Store, commits: seq<Commit>, d: Deployment)
    requires Evident(d) && NoStaleRows(s, d) && forall c :: c in commits ==> Evident(c.d) && Agrees(c.d, d)
    ensures NoStaleRows(After(s, commits), d)
    decreases |commits|
  {
    if commits != [] {
      assert commits[0] in commits && forall c :: c in commits[1..] ==> c in commits;
      CommitKeepsCredentials(s, commits[0], d);
      if d.body.manifest.entries.Some? {
        CommitKeepsEntries(s, commits[0], d);
      }
      HistoryLeavesNoStaleRows(Committed(s, commits[0]), commits[1..], d);
    }
  }

  function Empty(nodes: set<nat>, live: set<nat>): Store {
    Store(map[], nodes, live, map[], map[], map[])
  }

  /** Each hash of a node names one set of keys. */
  predicate OneDeliveryPerHash(commits: seq<Commit>)
    requires forall c :: c in commits ==> Evident(c.d)
  {
    forall a, b :: a in commits && b in commits ==> Agrees(a.d, b.d)
  }

  lemma {:induction false} DeploymentsArePublished(s: Store, commits: seq<Commit>, i: nat)
    requires (forall c :: c in commits ==> Evident(c.d)) && i in After(s, commits).deployments
    ensures (i in s.deployments && After(s, commits).deployments[i] == s.deployments[i])
            || exists c :: c in commits && c.d == After(s, commits).deployments[i]
    decreases |commits|
  {
    if commits != [] {
      assert commits[0] in commits && forall c :: c in commits[1..] ==> c in commits;
      DeploymentsArePublished(Committed(s, commits[0]), commits[1..], i);
    }
  }

  /** From empty tables on, if each hash of a node names one set of keys, a second pass
      writes nothing exactly when the manifests it visits share nothing. */
  lemma SecondPassAfterHistory(nodes: set<nat>, live: set<nat>, commits: seq<Commit>, ids: seq<nat>)
    requires (forall c :: c in commits ==> Evident(c.d)) && OneDeliveryPerHash(commits)
    requires OnePerNode(After(Empty(nodes, live), commits).deployments, ids)
    ensures var s := After(Empty(nodes, live), commits);
            Pass(s, ids).deployments == s.deployments && (Idle(Pass(s, ids), ids) <==> Disjoint(s, ids))
  {
    var s := After(Empty(nodes, live), commits);
    forall i | i in ids
      ensures NoStaleRows(s, s.deployments[i])
    {
      DeploymentsArePublished(Empty(nodes, live), commits, i);
      var c :| c in commits && c.d == s.deployments[i];
      HistoryLeavesNoStaleRows(Empty(nodes, live), commits, c.d);
    }
    SecondPassIdleExactly(s, ids);
  }

  // ------------------------------------------- a history that makes the pass write

  function Single(id: nat, node: nat, credential: nat, hash: string): Deployment {
    Deployment(id, node, true, Text(Manifest([Item(credential, Binding(1, "", "", 1))], None)), hash, hash, Some(0))
  }

  lemma SingleDelivers(id: nat, node: nat, credential: nat, hash: string)
    requires |hash| == 64
    ensures var d := Single(id, node, credential, hash);
            Evident(d) && |d.body.manifest.targets| == 1 && Ids(d.body.manifest.targets) == {credential}
  {
    IdsOfOne(Item(credential, Binding(1, "", "", 1)));
  }

  function SingleRow(id: nat, node: nat, hash: string): Row<Binding> {
    Row(node, id, hash, Binding(1, "", "", 1), 0)
  }

  /** The publication of one credential. */
  function Delivered(s: Store, id: nat, node: nat, credential: nat, hash: string): Store {
    s.(deployments := s.deployments[id := Single(id, node, credential, hash)],
       credentials := s.credentials[credential := SingleRow(id, node, hash)],
       states := s.states[node := NodeState(id, hash, 0)])
  }

  lemma PublishedSingle(s: Store, id: nat, node: nat, credential: nat, hash: string)
    requires |hash| == 64
    ensures Evident(Single(id, node, credential, hash))
    ensures Published(s, Single(id, node, credential, hash)) == Delivered(s, id, node, credential, hash)
  {
    SingleDelivers(id, node, credential, hash);
    var targets := Single(id, node, credential, hash).body.manifest.targets;
    assert targets[..0] == [];
    assert Upserted(s.credentials, ReceiptOf(Single(id, node, credential, hash)), targets[..0]) == s.credentials;
  }

  /** One more publication in front of a history. */
  lemma DeliveredFirst(s: Store, id: nat, node: nat, credential: nat, hash: string, rest: seq<Commit>)
    returns (commits: seq<Commit>)
    requires |hash| == 64 && forall c :: c in rest ==> Evident(c.d) && c.Publish?
    requires InOrder(Delivered(s, id, node, credential, hash), rest)
    requires node in s.states ==> s.states[node].deployment <= id
    ensures (forall c :: c in commits ==> Evident(c.d) && c.Publish?) && InOrder(s, commits)
    ensures After(s, commits) == After(Delivered(s, id, node, credential, hash), rest)
  {
    var d := Single(id, node, credential, hash);
    PublishedSingle(s, id, node, credential, hash);
    commits := [Publish(d)] + rest;
    assert commits[0] == Publish(d) && commits[1..] == rest;
  }

  lemma LeastFirst(s: set<nat>, m: nat)
    requires IsLeast(m, s)
    ensures Ascending(s) == [m] + Ascending(s - {m})
  {
    assert IsLeast(Least(s), s) && m == Least(s);
  }

  lemma AscendingThree(s: set<nat>, a: nat, b: nat, c: nat)
    requires s == {a, b, c} && a < b < c
    ensures Ascending(s) == [a, b, c]
  {
    LeastFirst(s, a);
    assert s - {a} == {b, c};
    LeastFirst({b, c}, b);
    assert {b, c} - {b} == {c};
    LeastFirst({c}, c);
    assert {c} - {c} == {};
  }

  function AtFirst(hash: string): Store {
    Delivered(Delivered(Empty({1, 2, 3}, {}), 4, 2, 2, hash), 1, 1, 2, hash)
  }

  /** Node 1 confirms one hash for credential 2, which it takes from node 2, and then for
      credential 1, which node 3 takes before it moves on to credential 3. */
  function Stale(hash: string): Store {
    Delivered(Delivered(Delivered(AtFirst(hash), 2, 1, 1, hash), 3, 3, 1, hash), 5, 3, 3, hash)
  }

  lemma StaleArisesLater(hash: string) returns (commits: seq<Commit>)
    requires |hash| == 64
    ensures (forall c :: c in commits ==> Evident(c.d) && c.Publish?) && InOrder(AtFirst(hash), commits)
    ensures After(AtFirst(hash), commits) == Stale(hash)
  {
    var s := AtFirst(hash);
    var t := Delivered(s, 2, 1, 1, hash);
    commits := [];
    commits := DeliveredFirst(Delivered(t, 3, 3, 1, hash), 5, 3, 3, hash, commits);
    commits := DeliveredFirst(t, 3, 3, 1, hash, commits);
    commits := DeliveredFirst(s, 2, 1, 1, hash, commits);
  }

  lemma StaleArises(hash: string) returns (commits: seq<Commit>)
    requires |hash| == 64
    ensures (forall c :: c in commits ==> Evident(c.d) && c.Publish?) && InOrder(Empty({1, 2, 3}, {}), commits)
    ensures After(Empty({1, 2, 3}, {}), commits) == Stale(hash)
  {
    var s := Empty({1, 2, 3}, {});
    commits := StaleArisesLater(hash);
    commits := DeliveredFirst(Delivered(s, 4, 2, 2, hash), 1, 1, 2, hash, commits);
    commits := DeliveredFirst(s, 4, 2, 2, hash, commits);
  }

  lemma StaleDeployments(hash: string)
    ensures var ds := Stale(hash).deployments;
            && ds.Keys == {1, 2, 3, 4, 5}
            && ds[1] == Single(1, 1, 2, hash) && ds[2] == Single(2, 1, 1, hash) && ds[3] == Single(3, 3, 1, hash)
            && ds[4] == Single(4, 2, 2, hash) && ds[5] == Single(5, 3, 3, hash)
  {
  }

  lemma StaleRows(hash: string)
    ensures Stale(hash).credentials ==
            map[1 := SingleRow(3, 3, hash), 2 := SingleRow(1, 1, hash), 3 := SingleRow(5, 3, hash)]
  {
  }

  lemma StaleRecords(hash: string)
    ensures Stale(hash).states ==
            map[1 := NodeState(2, hash, 0), 2 := NodeState(4, hash, 0), 3 := NodeState(5, hash, 0)]
  {
  }

  lemma LatestAre(ds: map<nat, Deployment>, hash: string)
    requires ds.Keys == {1, 2, 3, 4, 5}
    requires ds[1] == Single(1, 1, 2, hash) && ds[2] == Single(2, 1, 1, hash) && ds[3] == Single(3, 3, 1, hash)
    requires ds[4] == Single(4, 2, 2, hash) && ds[5] == Single(5, 3, 3, hash)
    ensures LatestIds(ds) == {2, 4, 5}
  {
    assert 2 in ds && Confirmed(ds[2]) && 5 in ds && Confirmed(ds[5]);
    forall i
      ensures i in LatestIds(ds) <==> i in {2, 4, 5}
    {
      assert i in ds <==> i == 1 || i == 2 || i == 3 || i == 4 || i == 5;
    }
  }

  lemma StaleLatest(hash: string)
    requires |hash| == 64
    ensures LatestOf(Stale(hash).deployments) == [2, 4, 5]
  {
    var ds := Stale(hash).deployments;
    StaleDeployments(hash);
    LatestAre(ds, hash);
    AscendingThree(LatestIds(ds), 2, 4, 5);
  }

  /** The manifests that the first pass visits. */
  predicate Singles(s: Store, hash: string) {
    && |hash| == 64 && 2 in s.deployments && 4 in s.deployments && 5 in s.deployments
    && s.deployments[2] == Single(2, 1, 1, hash) && s.deployments[4] == Single(4, 2, 2, hash)
    && s.deployments[5] == Single(5, 3, 3, hash)
  }

  lemma SinglesShareNothing(s: Store, hash: string)
    requires Singles(s, hash)
    ensures OnePerNode(s.deployments, [2, 4, 5]) && Disjoint(s, [2, 4, 5])
  {
    SingleDelivers(2, 1, 1, hash);
    SingleDelivers(4, 2, 2, hash);
    SingleDelivers(5, 3, 3, hash);
    assert [2, 4, 5][1..] == [4, 5] && [4, 5][1..] == [5] && [5][1..] == [];
    assert Claimed(s, [5]) <= {3};
    assert Claimed(s, [4, 5]) <= {2, 3};
    assert Disjoint(s, [4, 5]);
  }

  /** The row of credential 2 is counted for credential 1 and taken afterwards. */
  lemma StaleDefeats(s: Store, hash: string)
    requires Singles(s, hash) && s.nodes == {1, 2, 3}
    requires Carrying(s.credentials, 1, hash) == {2} && Carrying(s.credentials, 2, hash) == {}
    requires 1 in s.states && s.states[1] == NodeState(2, hash, 0)
    requires 2 in s.states && s.states[2] == NodeState(4, hash, 0)
    ensures OnePerNode(s.deployments, [2, 4, 5])
    ensures Pass(s, [2, 4, 5]).deployments == s.deployments && !Idle(Pass(s, [2, 4, 5]), [2, 4, 5])
  {
    var none := Taken({}, {});
    SinglesShareNothing(s, hash);
    SingleDelivers(2, 1, 1, hash);
    SingleDelivers(4, 2, 2, hash);
    assert [2, 4, 5][1..] == [4, 5];
    assert Left(s, s.deployments[2], none) == {2};
    assert Skipped(s, s.deployments[2], none);
    assert Both(none, Writes(s, s.deployments[2], none)) == none;
    assert Left(s, s.deployments[4], none) == {};
    assert !Skipped(s, s.deployments[4], none);
    assert 2 in WritesOf(s, [4, 5], none).credentials;
    SecondPassIdleAlways(s, [2, 4, 5]);
  }

  predicate IsStale(s: Store, hash: string) {
    && Singles(s, hash) && s.nodes == {1, 2, 3} && LatestOf(s.deployments) == [2, 4, 5]
    && Carrying(s.credentials, 1, hash) == {2} && Carrying(s.credentials, 2, hash) == {}
    && 1 in s.states && s.states[1] == NodeState(2, hash, 0)
    && 2 in s.states && s.states[2] == NodeState(4, hash, 0)
  }

  lemma StaleIs(hash: string)
    requires |hash| == 64
    ensures IsStale(Stale(hash), hash)
  {
    StaleDeployments(hash);
    StaleRows(hash);
    StaleRecords(hash);
    StaleLatest(hash);
  }

  lemma StaleIsReached(hash: string) returns (commits: seq<Commit>)
    requires |hash| == 64
    ensures (forall c :: c in commits ==> Evident(c.d) && c.Publish?) && InOrder(Empty({1, 2, 3}, {}), commits)
    ensures IsStale(After(Empty({1, 2, 3}, {}), commits), hash)
  {
    commits := StaleArises(hash);
    StaleIs(hash);
  }

  /** One node confirmed the same hash first for credential 2 and then for credential
      1, which another node has taken since. The first pass counts the row of credential
      2 for that of credential 1 and skips the node, and then takes it: the latest
      manifests share nothing, and yet the second pass has to write. */
  lemma PublicationsDefeatSecondPass(hash: string) returns (commits: seq<Commit>, s: Store)
    requires |hash| == 64
    ensures (forall c :: c in commits ==> Evident(c.d) && c.Publish?) && InOrder(Empty({1, 2, 3}, {}), commits)
    ensures s == After(Empty({1, 2, 3}, {}), commits)
    ensures OnePerNode(s.deployments, LatestOf(s.deployments)) && Disjoint(s, LatestOf(s.deployments))
    ensures Pass(s, LatestOf(s.deployments)).deployments == s.deployments
    ensures !Idle(Pass(s, LatestOf(s.deployments)), LatestOf(s.deployments))
  {
    commits := StaleIsReached(hash);
    s := After(Empty({1, 2, 3}, {}), commits);
    SinglesShareNothing(s, hash);
    StaleDefeats(s, hash);
  }
}
