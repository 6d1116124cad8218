/** Startup replay of confirmed delivery manifests into their projections, while
    a publisher may commit newer receipts. */
module CredentialRecovery {
  import opened Wrappers
  import opened DeliveryTables

  datatype Binding = Binding(endpoint: nat, material: string, endpointHash: string, revision: nat)

  /** `entries` is None for manifests without network entries. */
  datatype Manifest = Manifest(targets: seq<Item<Binding>>, entries: Option<seq<Item<string>>>)

  /** `credential_targets`: no text, or the manifest a text lists. A text that
      repeats a key stands for every text that does not decode. */
  datatype Body = NoManifest | Text(manifest: Manifest)

  datatype Deployment = Deployment(id: nat, node: nat, succeeded: bool, body: Body, desired: string, applied: string,
                                   finishedAt: Option<int>)

  datatype NodeState = NodeState(deployment: nat, config: string, at: int)

  datatype Store = Store(deployments: map<nat, Deployment>, nodes: set<nat>, live: set<nat>,
                         credentials: Table<Binding>, entries: Table<string>, states: map<nat, NodeState>)

  /** Decoding accepts only canonical text, which lists each key once. */
  predicate Decodes(b: Body) {
    b.Text? && Distinct(b.manifest.targets) && (b.manifest.entries.Some? ==> Distinct(b.manifest.entries.value))
  }

  /** The exact evidence the recovery asks of a deployment before it acts on it. */
  predicate Evident(d: Deployment) {
    d.finishedAt.Some? && |d.applied| == 64 && d.applied == d.desired && Decodes(d.body)
  }

  predicate Confirmed(d: Deployment) {
    d.succeeded && d.body.Text?
  }

  /** MAX(id) ... WHERE succeeded AND credential_targets <> '' GROUP BY node_id. */
  function LatestIds(ds: map<nat, Deployment>): set<nat> {
    set i | i in ds && Confirmed(ds[i]) &&
            forall j :: j in ds && Confirmed(ds[j]) && ds[j].node == ds[i].node ==> j <= i
  }

  /** A node's latest manifest, by the rows' own fields: it succeeded with a manifest, and
      no later one of the node did. */
  lemma LatestExactly(ds: map<nat, Deployment>, i: nat)
    ensures i in LatestIds(ds) <==>
            && i in ds && ds[i].succeeded && ds[i].body != NoManifest
            && forall j :: j in ds && j > i && ds[j].node == ds[i].node ==>
                 !ds[j].succeeded || ds[j].body == NoManifest
  {
    if i in ds && i !in LatestIds(ds) && Confirmed(ds[i]) {
      var j :| j in ds && Confirmed(ds[j]) && ds[j].node == ds[i].node && j > i;
      assert ds[j].succeeded && ds[j].body != NoManifest;
    }
  }

  lemma LatestIsPerNode(ds: map<nat, Deployment>, i: nat, j: nat)
    requires i in LatestIds(ds) && j in LatestIds(ds) && ds[i].node == ds[j].node
    ensures i == j
  {
  }

  /** Targets whose entry still exists. */
  function Current(items: seq<Item<string>>, live: set<nat>): seq<Item<string>> {
    if items == [] then []
    else Current(items[..|items| - 1], live) + if items[|items| - 1].id in live then [items[|items| - 1]] else []
  }

  lemma {:induction false} CurrentIds(items: seq<Item<string>>, live: set<nat>)
    ensures Ids(Current(items, live)) == Ids(items) * live
  {
    if items != [] {
      var n := |items| - 1;
      CurrentIds(items[..n], live);
      IdsSnoc(items[..n], items[n]);
      IdsSnoc(Current(items[..n], live), items[n]);
      assert items == items[..n] + [items[n]];
      if items[n].id !in live {
        assert Current(items, live) == Current(items[..n], live);
      }
    }
  }

  lemma {:induction false} CurrentDistinct(items: seq<Item<string>>, live: set<nat>)
    requires Distinct(items)
    ensures Distinct(Current(items, live))
  {
    if items != [] {
      var n := |items| - 1;
      var front := Current(items[..n], live);
      CurrentDistinct(items[..n], live);
      CurrentIds(items[..n], live);
      assert items[n].id !in Ids(items[..n]);
      assert forall i :: 0 <= i < |front| ==> front[i].id in Ids(front);
    }
  }

  lemma CurrentIsLive(items: seq<Item<string>>, live: set<nat>)
    requires Distinct(items)
    ensures Ids(Current(items, live)) == Ids(items) * live && Distinct(Current(items, live))
  {
    CurrentIds(items, live);
    CurrentDistinct(items, live);
  }

  lemma IdsSnoc<D>(items: seq<Item<D>>, item: Item<D>)
    ensures Ids(items + [item]) == Ids(items) + {item.id}
  {
    assert forall i :: 0 <= i < |items| ==> (items + [item])[i] == items[i];
    assert (items + [item])[|items|] == item;
  }

  function ReceiptOf(d: Deployment): Receipt
    requires Evident(d)
  {
    Receipt(d.node, d.id, d.applied, d.finishedAt.value)
  }

  function EntriesOf(d: Deployment, live: set<nat>): seq<Item<string>>
    requires Decodes(d.body)
  {
    if d.body.manifest.entries.None? then [] else Current(d.body.manifest.entries.value, live)
  }

  // ---------------------------------------------------------- one deployment

  predicate Newer(s: Store, d: Deployment) {
    d.node in s.states && s.states[d.node].deployment > d.id
  }

  /** The re-read behind the node fence lets the transaction write. */
  predicate Effective(s: Store, d: Deployment) {
    d.node in s.nodes && !Newer(s, d)
  }

  /** The counts that let a visit be skipped. */
  predicate Complete(s: Store, d: Deployment)
    requires Evident(d)
  {
    && d.node in s.states && s.states[d.node].deployment == d.id && s.states[d.node].config == d.applied
    && |Carrying(s.credentials, d.node, d.applied)| == |d.body.manifest.targets|
    && (d.body.manifest.entries.Some? ==>
          |Carrying(s.entries, d.node, d.applied)| == |EntriesOf(d, s.live)|)
  }

  /** The recovery transaction on the state it locks. */
  function Applied(s: Store, d: Deployment): Store
    requires Evident(d)
  {
    if !Effective(s, d) then s
    else
      s.(credentials := Replaced(s.credentials, ReceiptOf(d), d.body.manifest.targets),
         entries := if d.body.manifest.entries.None? then s.entries
                    else Replaced(s.entries, ReceiptOf(d), EntriesOf(d, s.live)),
         states := s.states[d.node := NodeState(d.id, d.applied, d.finishedAt.value)])
  }

  /** A visit with no publisher in between. */
  function Visited(s: Store, d: Deployment): Store
    requires Evident(d)
  {
    if Newer(s, d) || Complete(s, d) then s else Applied(s, d)
  }

  /** Whatever a publisher committed before the lock, no node's recorded
      deployment is ever lowered, and no node loses its record. */
  lemma NeverLowers(locked: Store, d: Deployment, node: nat)
    requires Evident(d) && node in locked.states
    ensures node in Applied(locked, d).states
    ensures Applied(locked, d).states[node].deployment >= locked.states[node].deployment
  {
  }

  /** A transaction that writes leaves exactly the manifest's targets carrying the
      node's confirmed hash, each with its own details, exactly the extant entries
      likewise, and takes from other nodes only what it delivers. */
  lemma AppliedExactly(s: Store, d: Deployment, node: nat, config: string)
    requires Evident(d) && Effective(s, d) && config != "" && node != d.node
    ensures var v := Applied(s, d);
            && Carrying(v.credentials, d.node, d.applied) == Ids(d.body.manifest.targets)
            && (forall i :: 0 <= i < |d.body.manifest.targets| ==>
                  var t := d.body.manifest.targets[i];
                  t.id in v.credentials && v.credentials[t.id] == RowOf(ReceiptOf(d), t))
            && (d.body.manifest.entries.Some? ==>
                  Carrying(v.entries, d.node, d.applied) == Ids(d.body.manifest.entries.value) * s.live)
            && Carrying(v.credentials, node, config) ==
               Carrying(s.credentials, node, config) - Ids(d.body.manifest.targets)
            && v.states[d.node] == NodeState(d.id, d.applied, d.finishedAt.value)
            && Complete(v, d)
  {
    var m, r := d.body.manifest, ReceiptOf(d);
    ReplacedCarries(s.credentials, r, m.targets, d.node, d.applied);
    ReplacedCarries(s.credentials, r, m.targets, node, config);
    DistinctIds(m.targets);
    forall i | 0 <= i < |m.targets|
      ensures m.targets[i].id in Applied(s, d).credentials
      ensures Applied(s, d).credentials[m.targets[i].id] == RowOf(r, m.targets[i])
    {
      ReplacedDetail(s.credentials, r, m.targets, i);
    }
    if m.entries.Some? {
      ReplacedCarries(s.entries, r, EntriesOf(d, s.live), d.node, d.applied);
      CurrentIsLive(m.entries.value, s.live);
      DistinctIds(EntriesOf(d, s.live));
    }
  }

  // ----------------------------------------------------------- a whole pass

  /** Visits in the given order, up to the first deployment without evidence. */
  function Pass(s: Store, ids: seq<nat>): Store
    requires forall i :: i in ids ==> i in s.deployments
    decreases |ids|
  {
    if ids == [] then s
    else
      assert ids[0] in ids && forall i :: i in ids[1..] ==> i in ids;
      if !Evident(s.deployments[ids[0]]) then s else Pass(Visited(s, s.deployments[ids[0]]), ids[1..])
  }

  predicate AllEvident(ds: map<nat, Deployment>, ids: seq<nat>) {
    forall i :: i in ids ==> i in ds && Evident(ds[i])
  }

  /** One latest manifest per node, in the order of the pass. */
  predicate OnePerNode(ds: map<nat, Deployment>, ids: seq<nat>) {
    AllEvident(ds, ids) && forall i, j :: 0 <= i < j < |ids| ==> ds[ids[i]].node != ds[ids[j]].node
  }

  /** Only rows that a manifest delivers carry its node's hash. */
  predicate NoStaleRows(s: Store, d: Deployment)
    requires Evident(d)
  {
    && Carrying(s.credentials, d.node, d.applied) <= Ids(d.body.manifest.targets)
    && (d.body.manifest.entries.Some? ==>
          Carrying(s.entries, d.node, d.applied) <= Ids(EntriesOf(d, s.live)))
  }

  predicate Settled(s: Store, d: Deployment)
    requires Evident(d)
  {
    && d.node in s.states && s.states[d.node].deployment == d.id && s.states[d.node].config == d.applied
    && Carrying(s.credentials, d.node, d.applied) == Ids(d.body.manifest.targets)
    && (d.body.manifest.entries.Some? ==> Carrying(s.entries, d.node, d.applied) == Ids(EntriesOf(d, s.live)))
  }

  /** The projection is the manifest exactly when the counts agree and no stale row is
      among those counted. */
  lemma CompleteIsSettled(s: Store, d: Deployment)
    requires Evident(d)
    ensures Settled(s, d) <==> Complete(s, d) && NoStaleRows(s, d)
  {
    DistinctIds(d.body.manifest.targets);
    if d.body.manifest.entries.Some? {
      CurrentIsLive(d.body.manifest.entries.value, s.live);
      DistinctIds(EntriesOf(d, s.live));
    }
    if Complete(s, d) && NoStaleRows(s, d) {
      SubsetOfSameSize(Carrying(s.credentials, d.node, d.applied), Ids(d.body.manifest.targets));
      if d.body.manifest.entries.Some? {
        SubsetOfSameSize(Carrying(s.entries, d.node, d.applied), Ids(EntriesOf(d, s.live)));
      }
    }
  }

  /** What the effective manifests of `ids` deliver. */
  function Claimed(s: Store, ids: seq<nat>): set<nat>
    requires AllEvident(s.deployments, ids)
    decreases |ids|
  {
    if ids == [] then {}
    else
      assert ids[0] in ids && forall i :: i in ids[1..] ==> i in ids;
      (if Effective(s, s.deployments[ids[0]]) then Ids(s.deployments[ids[0]].body.manifest.targets) else {})
      + Claimed(s, ids[1..])
  }

  function ClaimedEntries(s: Store, ids: seq<nat>): set<nat>
    requires AllEvident(s.deployments, ids)
    decreases |ids|
  {
    if ids == [] then {}
    else
      assert ids[0] in ids && forall i :: i in ids[1..] ==> i in ids;
      (if Effective(s, s.deployments[ids[0]]) then Ids(EntriesOf(s.deployments[ids[0]], s.live)) else {})
      + ClaimedEntries(s, ids[1..])
  }

  /** No two effective manifests deliver the same credential or entry. */
  predicate Disjoint(s: Store, ids: seq<nat>)
    requires AllEvident(s.deployments, ids)
    decreases |ids|
  {
    ids == [] ||
    (assert ids[0] in ids && forall i :: i in ids[1..] ==> i in ids;
     var d := s.deployments[ids[0]];
     (Effective(s, d) ==>
        && Ids(d.body.manifest.targets) !! Claimed(s, ids[1..])
        && Ids(EntriesOf(d, s.live)) !! ClaimedEntries(s, ids[1..]))
     && Disjoint(s, ids[1..]))
  }

  /** No visit of the pass would write. */
  predicate Idle(s: Store, ids: seq<nat>)
    requires AllEvident(s.deployments, ids)
  {
    forall i :: i in ids ==> Effective(s, s.deployments[i]) ==> Complete(s, s.deployments[i])
  }

  // ------------------------------------------------------- what a pass leaves

  lemma EvidentTail(ds: map<nat, Deployment>, ids: seq<nat>)
    requires ids != [] && OnePerNode(ds, ids)
    ensures ids[0] in ds && Evident(ds[ids[0]]) && OnePerNode(ds, ids[1..])
    ensures forall i :: i in ids[1..] ==> i in ids && ds[i].node != ds[ids[0]].node
  {
    assert ids[0] in ids && forall i :: i in ids[1..] ==> i in ids;
    forall i | i in ids[1..]
      ensures ds[i].node != ds[ids[0]].node
    {
      var k :| 0 <= k < |ids[1..]| && ids[1..][k] == i;
      assert ids[k + 1] == i;
    }
  }

  function Delivers(s: Store, d: Deployment): set<nat>
    requires Evident(d)
  {
    if Effective(s, d) then Ids(d.body.manifest.targets) else {}
  }

  function DeliversEntries(s: Store, d: Deployment): set<nat>
    requires Evident(d)
  {
    if Effective(s, d) then Ids(EntriesOf(d, s.live)) else {}
  }

  /** How a visit leaves its own node. */
  lemma OwnVisit(s: Store, d: Deployment)
    requires Evident(d) && NoStaleRows(s, d)
    ensures var v := Visited(s, d);
            && v.deployments == s.deployments && v.nodes == s.nodes && v.live == s.live
            && (Effective(v, d) <==> Effective(s, d))
            && (Effective(s, d) ==> Settled(v, d))
            && NoStaleRows(v, d)
  {
    CompleteIsSettled(s, d);
    ReplacedCarries(s.credentials, ReceiptOf(d), d.body.manifest.targets, d.node, d.applied);
    if d.body.manifest.entries.Some? {
      ReplacedCarries(s.entries, ReceiptOf(d), EntriesOf(d, s.live), d.node, d.applied);
    }
  }

  /** Keys that carry one node's hash do not carry another's. */
  lemma TakenElsewhere<D>(t: Table<D>, a: nat, x: string, b: nat, y: string)
    requires a != b
    ensures Carrying(t, b, y) - Carrying(t, a, x) == Carrying(t, b, y)
  {
  }

  lemma OtherVisitCredentials(s: Store, d: Deployment, node: nat, config: string)
    requires Evident(d) && NoStaleRows(s, d) && d.node != node && config != ""
    ensures Carrying(Visited(s, d).credentials, node, config) == Carrying(s.credentials, node, config) - Delivers(s, d)
  {
    CompleteIsSettled(s, d);
    if Complete(s, d) {
      TakenElsewhere(s.credentials, d.node, d.applied, node, config);
    } else {
      ReplacedCarries(s.credentials, ReceiptOf(d), d.body.manifest.targets, node, config);
    }
  }

  lemma OtherVisitEntries(s: Store, d: Deployment, node: nat, config: string)
    requires Evident(d) && NoStaleRows(s, d) && d.node != node && config != ""
    ensures Carrying(Visited(s, d).entries, node, config) == Carrying(s.entries, node, config) - DeliversEntries(s, d)
  {
    CompleteIsSettled(s, d);
    if Complete(s, d) {
      TakenElsewhere(s.entries, d.node, d.applied, node, config);
    } else {
      ReplacedCarries(s.entries, ReceiptOf(d), EntriesOf(d, s.live), node, config);
    }
  }

  /** What a visit does to the projection of another node. */
  lemma OtherVisit(s: Store, d: Deployment, e: Deployment)
    requires Evident(d) && Evident(e) && NoStaleRows(s, d) && d.node != e.node
    ensures var v := Visited(s, d);
            && (Effective(v, e) <==> Effective(s, e))
            && (e.node in v.states <==> e.node in s.states)
            && (e.node in s.states ==> v.states[e.node] == s.states[e.node])
            && Carrying(v.credentials, e.node, e.applied) == Carrying(s.credentials, e.node, e.applied) - Delivers(s, d)
            && Carrying(v.entries, e.node, e.applied) == Carrying(s.entries, e.node, e.applied) - DeliversEntries(s, d)
  {
    OtherVisitCredentials(s, d, e.node, e.applied);
    OtherVisitEntries(s, d, e.node, e.applied);
  }

  /** The pass over the other nodes takes from this one what they deliver. */
  lemma {:induction false} OthersPass(s: Store, ids: seq<nat>, e: Deployment)
    requires OnePerNode(s.deployments, ids) && Evident(e)
    requires forall i :: i in ids ==> NoStaleRows(s, s.deployments[i]) && s.deployments[i].node != e.node
    ensures var v := Pass(s, ids);
            && v.deployments == s.deployments && v.nodes == s.nodes && v.live == s.live
            && (Effective(v, e) <==> Effective(s, e))
            && (e.node in v.states <==> e.node in s.states)
            && (e.node in s.states ==> v.states[e.node] == s.states[e.node])
            && Carrying(v.credentials, e.node, e.applied) ==
               Carrying(s.credentials, e.node, e.applied) - Claimed(s, ids)
            && Carrying(v.entries, e.node, e.applied) ==
               Carrying(s.entries, e.node, e.applied) - ClaimedEntries(s, ids)
    decreases |ids|
  {
    if ids != [] {
      EvidentTail(s.deployments, ids);
      var d := s.deployments[ids[0]];
      assert ids[0] in ids;
      var next := Visited(s, d);
      OwnVisit(s, d);
      OtherVisit(s, d, e);
      VisitKeepsRest(s, ids);
      OthersPass(next, ids[1..], e);
      assert Pass(s, ids) == Pass(next, ids[1..]);
      TakenTwice(Carrying(s.credentials, e.node, e.applied), Delivers(s, d), Claimed(s, ids[1..]));
      TakenTwice(Carrying(s.entries, e.node, e.applied), DeliversEntries(s, d), ClaimedEntries(s, ids[1..]));
    }
  }

  lemma {:induction false} SameEffectiveSameClaims(a: Store, b: Store, ids: seq<nat>)
    requires a.deployments == b.deployments && a.live == b.live && AllEvident(a.deployments, ids)
    requires forall i :: i in ids ==> (Effective(a, a.deployments[i]) <==> Effective(b, a.deployments[i]))
    ensures Claimed(a, ids) == Claimed(b, ids) && ClaimedEntries(a, ids) == ClaimedEntries(b, ids)
    ensures Disjoint(a, ids) <==> Disjoint(b, ids)
    decreases |ids|
  {
    if ids != [] {
      assert ids[0] in ids && forall i :: i in ids[1..] ==> i in ids;
      SameEffectiveSameClaims(a, b, ids[1..]);
    }
  }

  /** The first visit leaves what the rest of the pass relies on. */
  lemma VisitKeepsRest(s: Store, ids: seq<nat>)
    requires ids != [] && OnePerNode(s.deployments, ids)
    requires forall i :: i in ids ==> NoStaleRows(s, s.deployments[i])
    ensures var v := Visited(s, s.deployments[ids[0]]);
            && v.deployments == s.deployments && v.live == s.live
            && (forall i :: i in ids[1..] ==> NoStaleRows(v, s.deployments[i]))
            && (forall i :: i in ids[1..] ==> (Effective(v, s.deployments[i]) <==> Effective(s, s.deployments[i])))
            && Claimed(v, ids[1..]) == Claimed(s, ids[1..])
            && ClaimedEntries(v, ids[1..]) == ClaimedEntries(s, ids[1..])
            && (Disjoint(v, ids[1..]) <==> Disjoint(s, ids[1..]))
  {
    EvidentTail(s.deployments, ids);
    assert ids[0] in ids;
    var d := s.deployments[ids[0]];
    var v := Visited(s, d);
    OwnVisit(s, d);
    forall i | i in ids[1..]
      ensures NoStaleRows(v, s.deployments[i])
      ensures Effective(v, s.deployments[i]) <==> Effective(s, s.deployments[i])
    {
      OtherVisit(s, d, s.deployments[i]);
    }
    SameEffectiveSameClaims(v, s, ids[1..]);
  }

  /** After the rest of the pass, the first node is complete exactly when the rest
      delivered nothing of its own. */
  lemma FirstStaysComplete(s: Store, ids: seq<nat>)
    requires ids != [] && OnePerNode(s.deployments, ids)
    requires forall i :: i in ids ==> NoStaleRows(s, s.deployments[i])
    ensures var d, final := s.deployments[ids[0]], Pass(s, ids);
            && final.deployments == s.deployments && final.live == s.live && Evident(d)
            && NoStaleRows(final, d)
            && (Effective(final, d) <==> Effective(s, d))
            && (Effective(s, d) ==>
                  (Complete(final, d) <==>
                   Ids(d.body.manifest.targets) !! Claimed(s, ids[1..])
                   && Ids(EntriesOf(d, s.live)) !! ClaimedEntries(s, ids[1..])))
  {
    EvidentTail(s.deployments, ids);
    var d := s.deployments[ids[0]];
    assert ids[0] in ids;
    var v := Visited(s, d);
    OwnVisit(s, d);
    VisitKeepsRest(s, ids);
    OthersPass(v, ids[1..], d);
    DistinctIds(d.body.manifest.targets);
    NothingTaken(Ids(d.body.manifest.targets), Claimed(s, ids[1..]));
    if d.body.manifest.entries.Some? {
      CurrentIsLive(d.body.manifest.entries.value, s.live);
      DistinctIds(EntriesOf(d, s.live));
      NothingTaken(Ids(EntriesOf(d, s.live)), ClaimedEntries(s, ids[1..]));
    }
  }

  /** Where no stale row carries a manifest's hash, a second pass writes nothing
      exactly when no two effective manifests share a credential or an entry. */
  lemma {:induction false} SecondPassIdleExactly(s: Store, ids: seq<nat>)
    requires OnePerNode(s.deployments, ids)
    requires forall i :: i in ids ==> NoStaleRows(s, s.deployments[i])
    ensures var final := Pass(s, ids);
            && final.deployments == s.deployments
            && (Idle(final, ids) <==> Disjoint(s, ids))
            && forall i :: i in ids ==> NoStaleRows(final, s.deployments[i])
    decreases |ids|
  {
    if ids != [] {
      FirstStaysComplete(s, ids);
      EvidentTail(s.deployments, ids);
      assert ids[0] in ids;
      OwnVisit(s, s.deployments[ids[0]]);
      VisitKeepsRest(s, ids);
      var v := Visited(s, s.deployments[ids[0]]);
      SecondPassIdleExactly(v, ids[1..]);
      assert forall i :: i in ids <==> i == ids[0] || i in ids[1..];
    }
  }

  lemma {:induction false} IdlePassWritesNothing(s: Store, ids: seq<nat>)
    requires AllEvident(s.deployments, ids) && Idle(s, ids)
    ensures Pass(s, ids) == s
    decreases |ids|
  {
    if ids != [] {
      assert ids[0] in ids && forall i :: i in ids[1..] ==> i in ids;
      IdlePassWritesNothing(s, ids[1..]);
    }
  }

  /** A pass over disjoint manifests rebuilds every effective one, and a second
      pass changes nothing. */
  lemma PassRebuilds(s: Store, ids: seq<nat>)
    requires OnePerNode(s.deployments, ids) && Disjoint(s, ids)
    requires forall i :: i in ids ==> NoStaleRows(s, s.deployments[i])
    ensures var final := Pass(s, ids);
            && final.deployments == s.deployments
            && (forall i :: i in ids && Effective(final, s.deployments[i]) ==> Settled(final, s.deployments[i]))
            && Pass(final, ids) == final
  {
    SecondPassIdleExactly(s, ids);
    var final := Pass(s, ids);
    IdlePassWritesNothing(final, ids);
    forall i | i in ids && Effective(final, s.deployments[i])
      ensures Settled(final, s.deployments[i])
    {
      CompleteIsSettled(final, s.deployments[i]);
    }
  }

  lemma IdsOfOne<D>(item: Item<D>)
    ensures Ids([item]) == {item.id}
  {
    assert [] + [item] == [item];
    IdsSnoc([], item);
  }
}
