/** Dropping redundant metering indexes by a fixed budget of names, exact shapes
    and replacements. */
module IndexBudget {
  import opened Wrappers

  datatype Table = FlowUsages | TrafficRecords

  datatype Column =
    | NodeId | FlowId | EndpointId | PrincipalKey | Status | LastSeenAt
    | EventType | UserId | SubscriptionId | RecordAt | Id
    | OtherColumn(text: string)

  /** The names of the budget and of the history cursor; any other name is free. */
  datatype Name =
    | FlowNode | FlowEndpoint | FlowProtocolEndpoint | FlowPrincipal | FlowPrincipalKey
    | FlowStatusSeen | FlowStatus | FlowLastSeen
    | TrafficFlow | TrafficFlowId | TrafficEventType | TrafficUser | TrafficUserId | TrafficSubscription
    | TrafficNode | TrafficNodeId | TrafficEndpoint | TrafficProtocolEndpoint
    | TrafficTime | TrafficRecordsAt | HistoryCursor
    | OtherName(text: string)

  datatype Index = Index(columns: seq<Column>, unique: bool)

  type Inventory = map<Name, Index>

  datatype Policy = Policy(columns: seq<Column>, names: seq<Name>, replacement: Option<seq<Column>>)

  function Policies(t: Table): nat {
    if t == FlowUsages then 6 else 7
  }

  /** The i-th policy of a table's budget. */
  function Budget(t: Table, i: nat): Policy
    requires i < Policies(t)
  {
    match t
    case FlowUsages =>
      if i == 0 then Policy([NodeId], [FlowNode], Some([NodeId, FlowId]))
      else if i == 1 then
        Policy([EndpointId], [FlowEndpoint, FlowProtocolEndpoint], Some([EndpointId, Status, LastSeenAt]))
      else if i == 2 then Policy([PrincipalKey], [FlowPrincipal, FlowPrincipalKey], None)
      else if i == 3 then Policy([Status, LastSeenAt], [FlowStatusSeen], None)
      else if i == 4 then Policy([Status], [FlowStatus], None)
      else Policy([LastSeenAt], [FlowLastSeen], None)
    case TrafficRecords =>
      if i == 0 then Policy([FlowId], [TrafficFlow, TrafficFlowId], None)
      else if i == 1 then Policy([EventType], [TrafficEventType], None)
      else if i == 2 then Policy([UserId], [TrafficUser, TrafficUserId], Some([UserId, RecordAt]))
      else if i == 3 then Policy([SubscriptionId], [TrafficSubscription], Some([SubscriptionId, RecordAt]))
      else if i == 4 then Policy([NodeId], [TrafficNode, TrafficNodeId], Some([NodeId, RecordAt]))
      else if i == 5 then Policy([EndpointId], [TrafficEndpoint, TrafficProtocolEndpoint], Some([EndpointId, RecordAt]))
      else Policy([RecordAt], [TrafficTime, TrafficRecordsAt], Some([RecordAt, Id]))
  }

  predicate Listed(t: Table, i: nat, name: Name) {
    i < Policies(t) && name in Budget(t, i).names
  }

  // ------------------------------------------------- facts of the fixed table

  /** The policy that lists a name, if any. */
  function RuleOf(t: Table, name: Name): Option<nat> {
    match (t, name)
    case (FlowUsages, FlowNode) => Some(0)
    case (FlowUsages, FlowEndpoint) => Some(1)
    case (FlowUsages, FlowProtocolEndpoint) => Some(1)
    case (FlowUsages, FlowPrincipal) => Some(2)
    case (FlowUsages, FlowPrincipalKey) => Some(2)
    case (FlowUsages, FlowStatusSeen) => Some(3)
    case (FlowUsages, FlowStatus) => Some(4)
    case (FlowUsages, FlowLastSeen) => Some(5)
    case (TrafficRecords, TrafficFlow) => Some(0)
    case (TrafficRecords, TrafficFlowId) => Some(0)
    case (TrafficRecords, TrafficEventType) => Some(1)
    case (TrafficRecords, TrafficUser) => Some(2)
    case (TrafficRecords, TrafficUserId) => Some(2)
    case (TrafficRecords, TrafficSubscription) => Some(3)
    case (TrafficRecords, TrafficNode) => Some(4)
    case (TrafficRecords, TrafficNodeId) => Some(4)
    case (TrafficRecords, TrafficEndpoint) => Some(5)
    case (TrafficRecords, TrafficProtocolEndpoint) => Some(5)
    case (TrafficRecords, TrafficTime) => Some(6)
    case (TrafficRecords, TrafficRecordsAt) => Some(6)
    case _ => None
  }

  /** A list of one or two names. */
  predicate OneOrTwo(names: seq<Name>) {
    1 <= |names| <= 2
  }

  lemma InOneOrTwo(names: seq<Name>, name: Name)
    requires OneOrTwo(names)
    ensures name in names <==> name == names[0] || name == names[|names| - 1]
  {
  }

  /** A policy lists the one or two names that lead back to it. */
  lemma ListsItsOwn(t: Table, i: nat)
    requires i < Policies(t)
    ensures var names := Budget(t, i).names;
            && OneOrTwo(names) && (|names| == 2 ==> names[0] != names[1])
            && RuleOf(t, names[0]) == Some(i) && RuleOf(t, names[|names| - 1]) == Some(i)
  {
  }

  lemma FlowIsListed(name: Name)
    requires RuleOf(FlowUsages, name).Some?
    ensures RuleOf(FlowUsages, name).value < Policies(FlowUsages)
    ensures var names := Budget(FlowUsages, RuleOf(FlowUsages, name).value).names;
            OneOrTwo(names) && (name == names[0] || name == names[|names| - 1])
  {
  }

  lemma TrafficIsListed(name: Name)
    requires RuleOf(TrafficRecords, name).Some?
    ensures RuleOf(TrafficRecords, name).value < Policies(TrafficRecords)
    ensures var names := Budget(TrafficRecords, RuleOf(TrafficRecords, name).value).names;
            OneOrTwo(names) && (name == names[0] || name == names[|names| - 1])
  {
  }

  lemma IsListed(t: Table, name: Name)
    requires RuleOf(t, name).Some?
    ensures Listed(t, RuleOf(t, name).value, name)
  {
    match t
    case FlowUsages => FlowIsListed(name);
    case TrafficRecords => TrafficIsListed(name);
  }

  lemma LeadsBack(t: Table, i: nat, name: Name)
    requires Listed(t, i, name)
    ensures RuleOf(t, name) == Some(i)
  {
    ListsItsOwn(t, i);
    InOneOrTwo(Budget(t, i).names, name);
  }

  /** Every name is listed by one policy at most. */
  lemma ListedOnce(t: Table, i: nat, name: Name)
    ensures Listed(t, i, name) <==> RuleOf(t, name) == Some(i)
  {
    if Listed(t, i, name) {
      LeadsBack(t, i, name);
    }
    if RuleOf(t, name).Some? {
      IsListed(t, name);
    }
  }

  /** A replacement starts with the columns it replaces and is no policy's own shape. */
  lemma ReplacementSurvives(t: Table, i: nat, j: nat)
    requires i < Policies(t) && j < Policies(t) && Budget(t, i).replacement.Some?
    ensures Budget(t, i).columns <= Budget(t, i).replacement.value
    ensures Budget(t, j).columns != Budget(t, i).replacement.value
  {
    var p, q := Budget(t, i), Budget(t, j);
    assert |p.columns| == 1 && |p.replacement.value| >= 2 && p.replacement.value[0] == p.columns[0];
    assert |q.columns| == 1 || (t == FlowUsages && q.columns == [Status, LastSeenAt]);
  }

  // --------------------------------------------------------------- planning

  /** A plain index that can serve as SQLite's time cursor. */
  predicate TimeShape(inv: Inventory, name: Name) {
    && name in inv && !inv[name].unique
    && (inv[name].columns == [RecordAt] || inv[name].columns == [RecordAt, Id])
  }

  function TimeIndex(inv: Inventory, sqlite: bool, t: Table): Option<Name> {
    if !sqlite || t != TrafficRecords then None
    else if TimeShape(inv, TrafficRecordsAt) then Some(TrafficRecordsAt)
    else if TimeShape(inv, HistoryCursor) then Some(HistoryCursor)
    else if TimeShape(inv, TrafficTime) then Some(TrafficTime)
    else None
  }

  /** On SQLite the first of three names that has a plain index on the time, with or
      without the id behind it, serves as the cursor of the traffic records. */
  lemma TimeIndexExactly(inv: Inventory, sqlite: bool, t: Table, name: Name)
    ensures var names, plain := [TrafficRecordsAt, HistoryCursor, TrafficTime],
                                {Index([RecordAt], false), Index([RecordAt, Id], false)};
            TimeIndex(inv, sqlite, t) == Some(name) <==>
            && sqlite && t == TrafficRecords
            && exists k :: 0 <= k < 3 && names[k] == name && name in inv && inv[name] in plain
                           && forall j :: 0 <= j < k ==> names[j] !in inv || inv[names[j]] !in plain
  {
    var names := [TrafficRecordsAt, HistoryCursor, TrafficTime];
    assert names[0] == TrafficRecordsAt && names[1] == HistoryCursor && names[2] == TrafficTime;
  }

  predicate Spared(inv: Inventory, sqlite: bool, t: Table, p: Policy, name: Name) {
    p.columns == [RecordAt] && TimeIndex(inv, sqlite, t) == Some(name)
  }

  /** Another index takes over for `name`. */
  predicate Replaces(inv: Inventory, sqlite: bool, t: Table, p: Policy, name: Name, other: Name) {
    && p.replacement.Some? && other in inv
    && (inv[other].columns == p.replacement.value
        || (p.columns == [RecordAt] && TimeIndex(inv, sqlite, t) == Some(other) && other != name))
  }

  predicate Admitted(inv: Inventory, sqlite: bool, t: Table, p: Policy, name: Name)
    requires name in inv
  {
    && !inv[name].unique && inv[name].columns == p.columns
    && (Spared(inv, sqlite, t, p, name) || p.replacement.None?
        || exists other :: other in inv && Replaces(inv, sqlite, t, p, name, other))
  }

  lemma ReplacesExactly(inv: Inventory, sqlite: bool, t: Table, p: Policy, name: Name, other: Name)
    ensures Replaces(inv, sqlite, t, p, name, other) <==>
            && p.replacement != None && other in inv
            && (|| p.replacement == Some(inv[other].columns)
                || (p.columns == [RecordAt] && TimeIndex(inv, sqlite, t) == Some(other) && other != name))
  {
  }

  /** A listed index is admitted when it has the budget's plain shape, and it is the
      cursor, or needs no replacement, or another index replaces it. */
  lemma AdmittedExactly(inv: Inventory, sqlite: bool, t: Table, p: Policy, name: Name)
    requires name in inv
    ensures Admitted(inv, sqlite, t, p, name) <==>
            && inv[name] == Index(p.columns, false)
            && (|| (p.columns == [RecordAt] && TimeIndex(inv, sqlite, t) == Some(name))
                || p.replacement == None
                || exists other :: Replaces(inv, sqlite, t, p, name, other))
  {
    if other :| Replaces(inv, sqlite, t, p, name, other) {
      ReplacesExactly(inv, sqlite, t, p, name, other);
    }
  }

  /** Nothing in the table's inventory contradicts the budget. */
  ghost predicate Acceptable(inv: Inventory, sqlite: bool, t: Table) {
    forall i: nat, name: Name :: Listed(t, i, name) && name in inv ==> Admitted(inv, sqlite, t, Budget(t, i), name)
  }

  predicate Drops(inv: Inventory, sqlite: bool, t: Table, name: Name) {
    name in inv && RuleOf(t, name).Some? && TimeIndex(inv, sqlite, t) != Some(name)
  }

  function DropSet(inv: Inventory, sqlite: bool, t: Table): set<Name> {
    set name | name in inv && Drops(inv, sqlite, t, name)
  }

  /** Dropped is every index of the table that some policy lists, but for the cursor. */
  lemma DropsExactly(inv: Inventory, sqlite: bool, t: Table, name: Name)
    ensures name in DropSet(inv, sqlite, t) <==>
            name in inv && (exists i: nat :: Listed(t, i, name)) && TimeIndex(inv, sqlite, t) != Some(name)
  {
    if RuleOf(t, name).Some? {
      IsListed(t, name);
    }
    if i: nat :| Listed(t, i, name) {
      LeadsBack(t, i, name);
    }
  }

  /** A spared index is the time index, and the time index is dropped under no policy. */
  lemma SparedExactly(inv: Inventory, sqlite: bool, t: Table, i: nat, name: Name)
    requires Listed(t, i, name)
    ensures Spared(inv, sqlite, t, Budget(t, i), name) <==> TimeIndex(inv, sqlite, t) == Some(name)
  {
    ListedOnce(t, i, name);
  }

  lemma ReplacerStays(inv: Inventory, sqlite: bool, t: Table, i: nat, name: Name, other: Name)
    requires Acceptable(inv, sqlite, t) && Listed(t, i, name) && Replaces(inv, sqlite, t, Budget(t, i), name, other)
    ensures other !in DropSet(inv, sqlite, t)
    ensures Budget(t, i).columns <= inv[other].columns
  {
    ReplacementSurvives(t, i, i);
    if other in DropSet(inv, sqlite, t) {
      DroppedShape(inv, sqlite, t, other);
      ReplacementSurvives(t, i, RuleOf(t, other).value);
    }
  }

  lemma DroppedShape(inv: Inventory, sqlite: bool, t: Table, name: Name)
    requires Acceptable(inv, sqlite, t) && name in DropSet(inv, sqlite, t)
    ensures Listed(t, RuleOf(t, name).value, name)
    ensures inv[name].columns == Budget(t, RuleOf(t, name).value).columns && !inv[name].unique
  {
    ListedOnce(t, RuleOf(t, name).value, name);
    assert Admitted(inv, sqlite, t, Budget(t, RuleOf(t, name).value), name);
  }

  /** No unique index is dropped, and whatever a policy wants replaced stays covered
      by an index that the pass does not drop. */
  lemma DroppedStayCovered(inv: Inventory, sqlite: bool, t: Table, name: Name)
    requires Acceptable(inv, sqlite, t) && name in DropSet(inv, sqlite, t)
    ensures !inv[name].unique
    ensures RuleOf(t, name).Some? && RuleOf(t, name).value < Policies(t)
    ensures Budget(t, RuleOf(t, name).value).replacement.Some? ==>
              exists other :: other in inv && other !in DropSet(inv, sqlite, t)
                              && inv[name].columns <= inv[other].columns
  {
    var i := RuleOf(t, name).value;
    ListedOnce(t, i, name);
    var p := Budget(t, i);
    SparedExactly(inv, sqlite, t, i, name);
    assert Admitted(inv, sqlite, t, p, name);
    if p.replacement.Some? {
      var other :| other in inv && Replaces(inv, sqlite, t, p, name, other);
      ReplacerStays(inv, sqlite, t, i, name, other);
      assert other !in DropSet(inv, sqlite, t) && inv[name].columns <= inv[other].columns;
    }
  }

  function Without(inv: Inventory, gone: set<Name>): Inventory {
    inv - gone
  }

  lemma TimeIndexStays(inv: Inventory, sqlite: bool, t: Table, gone: set<Name>)
    requires gone <= DropSet(inv, sqlite, t)
    ensures TimeIndex(Without(inv, gone), sqlite, t) == TimeIndex(inv, sqlite, t)
  {
  }

  /** A pass that stopped after any of its drops can be rerun: the rest of the plan is
      still acceptable and is exactly what was left to drop. */
  lemma RerunFinishes(inv: Inventory, sqlite: bool, t: Table, gone: set<Name>)
    requires Acceptable(inv, sqlite, t) && gone <= DropSet(inv, sqlite, t)
    ensures var now := Without(inv, gone);
            Acceptable(now, sqlite, t) && DropSet(now, sqlite, t) == DropSet(inv, sqlite, t) - gone
  {
    var now := Without(inv, gone);
    TimeIndexStays(inv, sqlite, t, gone);
    forall i: nat, name: Name | Listed(t, i, name) && name in now
      ensures Admitted(now, sqlite, t, Budget(t, i), name)
    {
      ListedOnce(t, i, name);
      SparedExactly(inv, sqlite, t, i, name);
      SparedExactly(now, sqlite, t, i, name);
      var p := Budget(t, i);
      assert Admitted(inv, sqlite, t, p, name);
      if !Spared(inv, sqlite, t, p, name) && p.replacement.Some? {
        var other :| other in inv && Replaces(inv, sqlite, t, p, name, other);
        ReplacerStays(inv, sqlite, t, i, name, other);
        assert other in now && Replaces(now, sqlite, t, p, name, other);
      }
    }
  }

  /** A second pass over a finished table has nothing to drop and no complaint. */
  lemma SecondPassDropsNothing(inv: Inventory, sqlite: bool, t: Table)
    requires Acceptable(inv, sqlite, t)
    ensures var after := Without(inv, DropSet(inv, sqlite, t));
            Acceptable(after, sqlite, t) && DropSet(after, sqlite, t) == {}
  {
    RerunFinishes(inv, sqlite, t, DropSet(inv, sqlite, t));
  }

  // ---------------------------------------------------------- the procedure

  /** Planned before position `k` of policy `i`. */
  predicate Before(t: Table, i: nat, k: nat, name: Name) {
    RuleOf(t, name).Some? && i < Policies(t) && k <= |Budget(t, i).names|
    && (RuleOf(t, name).value < i || (RuleOf(t, name).value == i && name in Budget(t, i).names[..k]))
  }

  ghost predicate Planned(inv: Inventory, sqlite: bool, t: Table, i: nat, k: nat, drops: seq<Name>) {
    && (forall n :: n in drops <==> n in DropSet(inv, sqlite, t) && Before(t, i, k, n))
    && (forall a, b :: 0 <= a < b < |drops| ==> drops[a] != drops[b])
    && (forall n :: n in inv && Before(t, i, k, n) ==> Admitted(inv, sqlite, t, Budget(t, RuleOf(t, n).value), n))
  }

  lemma TakenNext(names: seq<Name>, k: nat, name: Name)
    requires k < |names| && OneOrTwo(names) && (|names| == 2 ==> names[0] != names[1])
    ensures name in names[..k + 1] <==> name in names[..k] || name == names[k]
    ensures names[k] !in names[..k]
  {
    assert names[..k + 1] == names[..k] + [names[k]];
  }

  lemma BeforeNext(t: Table, i: nat, k: nat, name: Name)
    requires i < Policies(t) && k < |Budget(t, i).names|
    ensures RuleOf(t, Budget(t, i).names[k]) == Some(i) && !Before(t, i, k, Budget(t, i).names[k])
    ensures Before(t, i, k + 1, name) <==> Before(t, i, k, name) || name == Budget(t, i).names[k]
  {
    var names := Budget(t, i).names;
    assert Listed(t, i, names[k]);
    ListedOnce(t, i, names[k]);
    ListsItsOwn(t, i);
    TakenNext(names, k, name);
  }

  lemma BeforePolicy(t: Table, i: nat, name: Name)
    requires i + 1 < Policies(t)
    ensures Before(t, i, |Budget(t, i).names|, name) <==> Before(t, i + 1, 0, name)
  {
    var names := Budget(t, i).names;
    assert names[..|names|] == names;
    ListedOnce(t, i, name);
  }

  lemma BeforeAll(t: Table, name: Name)
    ensures Policies(t) > 0
    ensures var last := Policies(t) - 1;
            Before(t, last, |Budget(t, last).names|, name) <==> RuleOf(t, name).Some?
  {
    var last := Policies(t) - 1;
    var names := Budget(t, last).names;
    assert names[..|names|] == names;
    ListedOnce(t, last, name);
  }

  /** One more name: `next` has it too if it is to be dropped. */
  lemma PlannedNext(inv: Inventory, sqlite: bool, t: Table, i: nat, k: nat, drops: seq<Name>, next: seq<Name>)
    requires i < Policies(t) && k < |Budget(t, i).names| && Planned(inv, sqlite, t, i, k, drops)
    requires var name := Budget(t, i).names[k];
             && (name in inv ==> Admitted(inv, sqlite, t, Budget(t, i), name))
             && next == drops + if name in DropSet(inv, sqlite, t) then [name] else []
    ensures Planned(inv, sqlite, t, i, k + 1, next)
  {
    forall n
      ensures Before(t, i, k + 1, n) <==> Before(t, i, k, n) || n == Budget(t, i).names[k]
    {
      BeforeNext(t, i, k, n);
    }
    BeforeNext(t, i, k, Budget(t, i).names[k]);
  }

  /** The drops that one policy adds, or None for a refusal. */
  method PlanName(inv: Inventory, sqlite: bool, t: Table, i: nat, k: nat, drops: seq<Name>)
    returns (r: Option<seq<Name>>)
    requires i < Policies(t) && k < |Budget(t, i).names| && Planned(inv, sqlite, t, i, k, drops)
    ensures r.Some? <==> Budget(t, i).names[k] in inv ==>
                           Admitted(inv, sqlite, t, Budget(t, i), Budget(t, i).names[k])
    ensures r.Some? ==> Planned(inv, sqlite, t, i, k + 1, r.value)
  {
    var policy, name := Budget(t, i), Budget(t, i).names[k];
    assert Listed(t, i, name);
    SparedExactly(inv, sqlite, t, i, name);
    BeforeNext(t, i, k, name);
    if name !in inv {
      PlannedNext(inv, sqlite, t, i, k, drops, drops);
      return Some(drops);
    }
    if inv[name].unique || inv[name].columns != policy.columns {
      return None;
    }
    if Spared(inv, sqlite, t, policy, name) {
      PlannedNext(inv, sqlite, t, i, k, drops, drops);
      return Some(drops);
    }
    if policy.replacement.Some? && !exists other :: other in inv && Replaces(inv, sqlite, t, policy, name, other) {
      return None;
    }
    PlannedNext(inv, sqlite, t, i, k, drops, drops + [name]);
    return Some(drops + [name]);
  }

  lemma RefusalStands(inv: Inventory, sqlite: bool, t: Table, i: nat, name: Name)
    requires Listed(t, i, name) && name in inv && !Admitted(inv, sqlite, t, Budget(t, i), name)
    ensures !Acceptable(inv, sqlite, t)
  {
  }

  /** All names of one policy, in the order of the table. */
  method PlanPolicy(inv: Inventory, sqlite: bool, t: Table, i: nat, before: seq<Name>)
    returns (r: Option<seq<Name>>)
    requires i < Policies(t) && Planned(inv, sqlite, t, i, 0, before)
    ensures r.None? ==> !Acceptable(inv, sqlite, t)
    ensures r.Some? ==> Planned(inv, sqlite, t, i, |Budget(t, i).names|, r.value)
  {
    var drops := before;
    for k := 0 to |Budget(t, i).names|
      invariant Planned(inv, sqlite, t, i, k, drops)
    {
      var next := PlanName(inv, sqlite, t, i, k, drops);
      if next.None? {
        RefusalStands(inv, sqlite, t, i, Budget(t, i).names[k]);
        return None;
      }
      drops := next.value;
    }
    r := Some(drops);
  }

  /** The plan of one table: exactly the names to drop, each once, or a refusal
      exactly when the inventory contradicts the budget. */
  method Plan(inv: Inventory, sqlite: bool, t: Table) returns (r: Option<seq<Name>>)
    ensures r.Some? <==> Acceptable(inv, sqlite, t)
    ensures r.Some? ==> forall n :: n in r.value <==> n in DropSet(inv, sqlite, t)
    ensures r.Some? ==> forall a, b :: 0 <= a < b < |r.value| ==> r.value[a] != r.value[b]
  {
    var drops: seq<Name> := [];
    BeforeAll(t, HistoryCursor);
    var i, last := 0, Policies(t) - 1;
    Nothing(inv, sqlite, t);
    while true
      invariant 0 <= i <= last && Planned(inv, sqlite, t, i, 0, drops)
      decreases last - i
    {
      var next := PlanPolicy(inv, sqlite, t, i, drops);
      if next.None? {
        return None;
      }
      drops := next.value;
      if i == last {
        break;
      }
      PlannedPolicy(inv, sqlite, t, i, drops);
      i := i + 1;
    }
    PlannedAll(inv, sqlite, t, drops);
    r := Some(drops);
  }

  lemma Nothing(inv: Inventory, sqlite: bool, t: Table)
    ensures Planned(inv, sqlite, t, 0, 0, [])
  {
    assert Budget(t, 0).names[..0] == [];
  }

  lemma PlannedPolicy(inv: Inventory, sqlite: bool, t: Table, i: nat, drops: seq<Name>)
    requires i + 1 < Policies(t) && Planned(inv, sqlite, t, i, |Budget(t, i).names|, drops)
    ensures Planned(inv, sqlite, t, i + 1, 0, drops)
  {
    forall n
      ensures Before(t, i, |Budget(t, i).names|, n) <==> Before(t, i + 1, 0, n)
    {
      BeforePolicy(t, i, n);
    }
  }

  lemma PlannedAll(inv: Inventory, sqlite: bool, t: Table, drops: seq<Name>)
    requires Planned(inv, sqlite, t, Policies(t) - 1, |Budget(t, Policies(t) - 1).names|, drops)
    ensures Acceptable(inv, sqlite, t)
    ensures forall n :: n in drops <==> n in DropSet(inv, sqlite, t)
  {
    forall n
      ensures Before(t, Policies(t) - 1, |Budget(t, Policies(t) - 1).names|, n) <==> RuleOf(t, n).Some?
    {
      BeforeAll(t, n);
    }
    forall i: nat, n: Name | Listed(t, i, n) && n in inv
      ensures Admitted(inv, sqlite, t, Budget(t, i), n)
    {
      ListedOnce(t, i, n);
    }
  }

  function NameSet(names: seq<Name>): set<Name> {
    set i | 0 <= i < |names| :: names[i]
  }

  /** What a stopped pass may have done to a table: some of its planned drops. */
  predicate Between(was: Inventory, now: Inventory, sqlite: bool, t: Table) {
    Gone(was, now) <= DropSet(was, sqlite, t) && now == Without(was, Gone(was, now))
  }

  function Gone(was: Inventory, now: Inventory): set<Name> {
    was.Keys - now.Keys
  }

  /** What one pass makes of a table: a refused table is left alone, a successful pass
      drops all of the plan, and MySQL drops all or nothing. */
  ghost predicate Settles(was: Inventory, now: Inventory, sqlite: bool, t: Table, ok: bool) {
    && Between(was, now, sqlite, t)
    && (!Acceptable(was, sqlite, t) ==> !ok && now == was)
    && (ok ==> now == Without(was, DropSet(was, sqlite, t)))
    && (!sqlite ==> now == was || now == Without(was, DropSet(was, sqlite, t)))
  }

  lemma Untouched(was: Inventory, sqlite: bool, t: Table)
    ensures Settles(was, was, sqlite, t, false)
  {
    assert Gone(was, was) == {};
  }

  /** The DDL statements of a pass over one table: one for each index on SQLite, and a
      single one on MySQL. */
  function Statements(inv: Inventory, sqlite: bool, t: Table): nat {
    var drops := DropSet(inv, sqlite, t);
    if drops == {} then 0 else if sqlite then |drops| else 1
  }

  function AllStatements(tables: map<Table, Inventory>, sqlite: bool): nat {
    (if FlowUsages in tables then Statements(tables[FlowUsages], sqlite, FlowUsages) else 0)
    + if TrafficRecords in tables then Statements(tables[TrafficRecords], sqlite, TrafficRecords) else 0
  }

  lemma {:induction false} DistinctSize(names: seq<Name>)
    requires forall a, b :: 0 <= a < b < |names| ==> names[a] != names[b]
    ensures |NameSet(names)| == |names|
    decreases |names|
  {
    if names != [] {
      var n := |names| - 1;
      DistinctSize(names[..n]);
      assert NameSet(names) == NameSet(names[..n]) + {names[n]};
    }
  }

  /** `budget` is how many more DDL statements the server takes before one fails. */
  class MeteringDatabase {
    const sqlite: bool
    var tables: map<Table, Inventory>
    var budget: nat

    constructor (sqlite: bool, tables: map<Table, Inventory>, budget: nat)
      ensures this.sqlite == sqlite && this.tables == tables && this.budget == budget
    {
      this.sqlite, this.tables, this.budget := sqlite, tables, budget;
    }

    /** One DDL statement: it drops all its names and commits, or changes nothing. */
    method Exec(t: Table, names: set<Name>) returns (ok: bool)
      requires t in tables && names <= tables[t].Keys
      modifies this
      ensures ok <==> old(budget) > 0
      ensures tables == if ok then old(tables)[t := Without(old(tables)[t], names)] else old(tables)
      ensures budget == old(budget) - if ok then 1 else 0
    {
      ok := budget > 0;
      if ok {
        budget := budget - 1;
        tables := tables[t := Without(tables[t], names)];
      }
    }

    /** One table. SQLite drops index by index, MySQL in one statement. */
    method ReconcileTable(t: Table) returns (ok: bool)
      requires t in tables
      modifies this
      ensures t in tables && tables == old(tables)[t := tables[t]]
      ensures Settles(old(tables)[t], tables[t], sqlite, t, ok)
      ensures ok <==> Acceptable(old(tables)[t], sqlite, t) && Statements(old(tables)[t], sqlite, t) <= old(budget)
      ensures ok ==> budget == old(budget) - Statements(old(tables)[t], sqlite, t)
      ensures Acceptable(old(tables)[t], sqlite, t) && DropSet(old(tables)[t], sqlite, t) == {} ==>
                ok && tables == old(tables) && budget == old(budget)
    {
      var inv := tables[t];
      var plan := Plan(inv, sqlite, t);
      if plan.None? {
        return false;
      }
      var drops := plan.value;
      assert NameSet(drops) == DropSet(inv, sqlite, t);
      DistinctSize(drops);
      if drops == [] {
        return true;
      }
      assert drops[0] in DropSet(inv, sqlite, t);
      if sqlite {
        for n := 0 to |drops|
          invariant t in tables && tables == old(tables)[t := tables[t]]
          invariant tables[t] == Without(inv, NameSet(drops[..n])) && budget == old(budget) - n
        {
          NextDrop(inv, drops, n);
          ok := Exec(t, {drops[n]});
          if !ok {
            return;
          }
        }
        assert drops[..|drops|] == drops;
        return true;
      }
      ok := Exec(t, NameSet(drops));
    }

    /** Both tables in turn, up to the first refusal or failing statement. */
    method Reconcile() returns (ok: bool)
      modifies this
      ensures tables.Keys == old(tables).Keys
      ensures forall t :: t in tables ==> Settles(old(tables)[t], tables[t], sqlite, t, ok)
      ensures ok <==> && (forall t :: t in tables ==> Acceptable(old(tables)[t], sqlite, t))
                      && AllStatements(old(tables), sqlite) <= old(budget)
    {
      ok := true;
      if FlowUsages in tables {
        ok := ReconcileTable(FlowUsages);
      }
      forall t | t in tables
        ensures Settles(old(tables)[t], tables[t], sqlite, t, false)
      {
        Untouched(old(tables)[t], sqlite, t);
      }
      if ok && TrafficRecords in tables {
        ok := ReconcileTable(TrafficRecords);
      }
    }
  }

  /** Wherever a pass stopped, the next successful one ends where an undisturbed pass
      would have ended. */
  lemma StoppedPassConverges(was: Inventory, now: Inventory, sqlite: bool, t: Table)
    requires Acceptable(was, sqlite, t) && Between(was, now, sqlite, t)
    ensures Acceptable(now, sqlite, t)
    ensures Without(now, DropSet(now, sqlite, t)) == Without(was, DropSet(was, sqlite, t))
  {
    RerunFinishes(was, sqlite, t, Gone(was, now));
  }

  lemma NextDrop(inv: Inventory, drops: seq<Name>, n: nat)
    requires n < |drops| && NameSet(drops) <= inv.Keys
    requires forall a, b :: 0 <= a < b < |drops| ==> drops[a] != drops[b]
    ensures NameSet(drops[..n]) <= NameSet(drops) && drops[n] in Without(inv, NameSet(drops[..n]))
    ensures Without(Without(inv, NameSet(drops[..n])), {drops[n]}) == Without(inv, NameSet(drops[..n + 1]))
  {
    assert drops[..n + 1] == drops[..n] + [drops[n]];
    assert NameSet(drops[..n + 1]) == NameSet(drops[..n]) + {drops[n]} by {
      assert forall i :: 0 <= i < n ==> drops[..n][i] == drops[..n + 1][i];
      assert drops[..n + 1][n] == drops[n];
    }
  }
}
