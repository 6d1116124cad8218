/** Moving historical owner columns from `users` to immutable subjects. Every
    statement commits by itself, so the procedure is a script of statements that
    may stop after any one of them and be run again. */
module SubjectSchema {
  import opened Wrappers

  datatype Target = Users | Subjects | Elsewhere

  /** The foreign keys on one column: constraint name to referenced table. */
  type Keys = map<string, Target>

  datatype Column = Column(table: string, column: string)

  function TrimId(column: string): string {
    if |column| >= 3 && column[|column| - 3..] == "_id" then column[..|column| - 3] else column
  }

  function Canonical(c: Column): string {
    match c.table
    case "audit_logs" => "fk_audit_user"
    case "orders" => "fk_order_user"
    case "subscriptions" => "fk_sub_user"
    case "traffic_records" => "fk_traffic_user"
    case "node_operations" => "fk_node_operations_requester"
    case "provider_accounts" => "fk_provider_accounts_creator"
    case "managed_dns_records" => "fk_managed_dns_creator"
    case "payment_receipts" => "fk_payment_receipts_resolver"
    case _ => "fk_" + c.table + "_" + TrimId(c.column)
  }

  function Temporary(c: Column): string {
    "as_" + c.table + "_" + c.column
  }

  lemma NamesDiffer(c: Column)
    ensures Canonical(c) != Temporary(c)
  {
    assert Canonical(c)[0] == 'f' && Temporary(c)[0] == 'a';
  }

  /** The names of a column's two keys: the eight historical ones, else the table and the
      column without its `_id`, and the same with another prefix for the temporary one. */
  lemma KeyNames(c: Column, stem: string)
    ensures c.column == stem + "_id" ==> TrimId(c.column) == stem
    ensures (forall other :: c.column != other + "_id") ==> TrimId(c.column) == c.column
    ensures Canonical(Column("audit_logs", c.column)) == "fk_audit_user"
    ensures Canonical(Column("orders", c.column)) == "fk_order_user"
    ensures Canonical(Column("subscriptions", c.column)) == "fk_sub_user"
    ensures Canonical(Column("traffic_records", c.column)) == "fk_traffic_user"
    ensures Canonical(Column("node_operations", c.column)) == "fk_node_operations_requester"
    ensures Canonical(Column("provider_accounts", c.column)) == "fk_provider_accounts_creator"
    ensures Canonical(Column("managed_dns_records", c.column)) == "fk_managed_dns_creator"
    ensures Canonical(Column("payment_receipts", c.column)) == "fk_payment_receipts_resolver"
    ensures c.table !in {"audit_logs", "orders", "subscriptions", "traffic_records", "node_operations",
                         "provider_accounts", "managed_dns_records", "payment_receipts"} ==>
              Canonical(c) == "fk_" + c.table + "_" + TrimId(c.column)
    ensures Temporary(c) == "as_" + c.table + "_" + c.column
  {
    if c.column == stem + "_id" {
      assert c.column[|c.column| - 3..] == "_id" && c.column[..|c.column| - 3] == stem;
    }
    if |c.column| >= 3 && c.column[|c.column| - 3..] == "_id" {
      assert c.column == c.column[..|c.column| - 3] + "_id";
    }
  }

  // ------------------------------------------------------------ one column

  datatype DDL =
    | Retarget(live: string)  // drop the users key, add the temporary subject key
    | AddCanonical
    | DropTemporary

  /** A committed ALTER, or None when the server refuses it: a name to drop must
      exist, and a name to add must not, not even in the same statement. */
  function Altered(c: Column, keys: Keys, ddl: DDL): Option<Keys> {
    match ddl
    case Retarget(live) =>
      if live in keys && Temporary(c) !in keys then Some((keys - {live})[Temporary(c) := Subjects]) else None
    case AddCanonical => if Canonical(c) in keys then None else Some(keys[Canonical(c) := Subjects])
    case DropTemporary => if Temporary(c) in keys then Some(keys - {Temporary(c)}) else None
  }

  /** When the server takes a statement, and what the keys are then, name by name. */
  lemma AlteredExactly(c: Column, keys: Keys, live: string, name: string)
    ensures var done := Altered(c, keys, Retarget(live));
            && (done != None <==> live in keys && Temporary(c) !in keys)
            && (done != None ==>
                  && (name in done.value <==> name == Temporary(c) || (name in keys && name != live))
                  && (name in done.value ==>
                        done.value[name] == if name == Temporary(c) then Subjects else keys[name]))
    ensures var done := Altered(c, keys, AddCanonical);
            && (done != None <==> Canonical(c) !in keys)
            && (done != None ==>
                  && (name in done.value <==> name == Canonical(c) || name in keys)
                  && (name in done.value ==>
                        done.value[name] == if name == Canonical(c) then Subjects else keys[name]))
    ensures var done := Altered(c, keys, DropTemporary);
            && (done != None <==> Temporary(c) in keys)
            && (done != None ==>
                  && (name in done.value <==> name in keys && name != Temporary(c))
                  && (name in done.value ==> done.value[name] == keys[name]))
  {
  }

  /** A single live key on users that a first run may retarget. */
  predicate Old(c: Column, keys: Keys, recorded: bool) {
    !recorded && |keys| == 1 &&
    exists name :: name in keys && keys[name].Users? && '`' !in name && name != Temporary(c)
  }

  /** The canonical key, the temporary key, or both, all on subjects. */
  predicate Moved(c: Column, keys: Keys) {
    keys != map[] && forall name :: name in keys ==>
                                      keys[name].Subjects? && (name == Canonical(c) || name == Temporary(c))
  }

  predicate Acceptable(c: Column, keys: Keys, recorded: bool) {
    Old(c, keys, recorded) || Moved(c, keys)
  }

  function OnlyName(keys: Keys): (name: string)
    requires |keys| == 1
    ensures keys.Keys == {name}
  {
    SingletonKeys(keys);
    var name :| name in keys;
    name
  }

  lemma SingletonKeys(keys: Keys)
    requires |keys| == 1
    ensures exists name :: name in keys
    ensures forall a, b :: a in keys && b in keys ==> a == b
    ensures forall a :: a in keys ==> keys.Keys == {a}
  {
    assert |keys.Keys| == 1;
    var a :| a in keys.Keys;
    assert keys.Keys - {a} == {} by {
      assert |keys.Keys - {a}| == 0;
    }
    assert keys.Keys == {a};
  }

  /** The statements a run issues for one acceptable column. */
  function Plan(c: Column, keys: Keys): seq<DDL>
    requires Acceptable(c, keys, false)
  {
    if Moved(c, keys) then
      (if Canonical(c) in keys then [] else [AddCanonical])
      + (if Temporary(c) in keys then [DropTemporary] else [])
    else [Retarget(OnlyName(keys)), AddCanonical, DropTemporary]
  }

  function Done(c: Column): Keys {
    map[Canonical(c) := Subjects]
  }

  /** The two layouts on the way: only the temporary key, then both. */
  function Half(c: Column): Keys {
    map[Temporary(c) := Subjects]
  }

  function Both(c: Column): Keys {
    map[Canonical(c) := Subjects, Temporary(c) := Subjects]
  }

  lemma MovedShapes(c: Column, keys: Keys)
    requires Moved(c, keys)
    ensures keys == Done(c) || keys == Half(c) || keys == Both(c)
  {
    NamesDiffer(c);
    var name :| name in keys;
    assert keys.Keys <= {Canonical(c), Temporary(c)};
  }

  /** The layouts a run accepts, written out: the canonical key, the temporary one, both,
      and on a first run a single key on users whose name can be quoted. */
  lemma AcceptableExactly(c: Column, keys: Keys, recorded: bool)
    ensures Acceptable(c, keys, recorded) <==>
            || keys == map[Canonical(c) := Subjects] || keys == map[Temporary(c) := Subjects]
            || keys == map[Canonical(c) := Subjects, Temporary(c) := Subjects]
            || (!recorded && exists name :: keys == map[name := Users] && name != Temporary(c)
                                            && forall i :: 0 <= i < |name| ==> name[i] as int != 96)
  {
    if Moved(c, keys) {
      MovedShapes(c, keys);
    }
    if Old(c, keys, recorded) {
      var name := OnlyName(keys);
      assert keys == map[name := Users] && '`' !in name;
    }
    if exists name :: keys == map[name := Users] {
      var name :| keys == map[name := Users];
      assert keys.Keys == {name} && keys[name] == Users;
      assert |keys| == |keys.Keys| == 1;
    }
  }

  lemma PlansOfMoved(c: Column)
    ensures Moved(c, Done(c)) && Plan(c, Done(c)) == []
    ensures Moved(c, Half(c)) && Plan(c, Half(c)) == [AddCanonical, DropTemporary]
    ensures Moved(c, Both(c)) && Plan(c, Both(c)) == [DropTemporary]
    ensures Half(c) != Done(c) && Both(c) != Done(c)
  {
    NamesDiffer(c);
    assert Canonical(c) in Done(c) && Canonical(c) in Both(c) && Canonical(c) !in Half(c);
    assert Temporary(c) !in Done(c) && Temporary(c) in Both(c) && Temporary(c) in Half(c);
  }

  lemma HalfAdvances(c: Column)
    ensures Altered(c, Half(c), AddCanonical) == Some(Both(c))
  {
    NamesDiffer(c);
    assert Half(c)[Canonical(c) := Subjects] == Both(c);
  }

  lemma BothAdvances(c: Column)
    ensures Altered(c, Both(c), DropTemporary) == Some(Done(c))
  {
    NamesDiffer(c);
    assert Both(c) - {Temporary(c)} == Done(c);
  }

  lemma OldAdvances(c: Column, keys: Keys, recorded: bool)
    requires Acceptable(c, keys, recorded) && !Moved(c, keys)
    ensures !recorded && keys != Done(c)
    ensures Plan(c, keys) == [Retarget(OnlyName(keys)), AddCanonical, DropTemporary]
    ensures Altered(c, keys, Retarget(OnlyName(keys))) == Some(Half(c))
  {
    SingletonKeys(keys);
    var name := OnlyName(keys);
    assert (keys - {name})[Temporary(c) := Subjects] == Half(c);
    assert name in keys && keys[name].Users?;
  }

  /** The first statement of a plan commits, leaves a key in force and an
      acceptable layout, and the rest of the plan is what a rerun would issue. */
  lemma PlanAdvances(c: Column, keys: Keys, recorded: bool)
    requires Acceptable(c, keys, recorded)
    ensures |Plan(c, keys)| <= 3 && (recorded ==> |Plan(c, keys)| <= 2)
    ensures Plan(c, keys) == [] <==> keys == Done(c)
    ensures Plan(c, keys) != [] ==>
              var next := Altered(c, keys, Plan(c, keys)[0]);
              && next.Some? && next.value != map[]
              && Moved(c, next.value)
              && Plan(c, next.value) == Plan(c, keys)[1..]
  {
    PlansOfMoved(c);
    if Moved(c, keys) {
      MovedShapes(c, keys);
      if keys == Half(c) {
        HalfAdvances(c);
      } else if keys == Both(c) {
        BothAdvances(c);
      }
    } else {
      OldAdvances(c, keys, recorded);
    }
  }

  /** One column under a script prefix. */
  function AlteredBy(c: Column, keys: Keys, ddls: seq<DDL>): Keys
    decreases |ddls|
  {
    if ddls == [] then keys
    else
      var next := Altered(c, keys, ddls[0]);
      if next.None? then keys else AlteredBy(c, next.value, ddls[1..])
  }

  /** Wherever a run stops, at least one key is in force, a rerun accepts the
      layout and issues exactly the statements that were left, and a run that
      does not stop ends with the canonical key alone. */
  lemma {:induction false} EveryCrashResumes(c: Column, keys: Keys, recorded: bool, n: nat)
    requires Acceptable(c, keys, recorded) && n <= |Plan(c, keys)|
    ensures var left := AlteredBy(c, keys, Plan(c, keys)[..n]);
            && left != map[]
            && Acceptable(c, left, recorded)
            && Plan(c, left) == Plan(c, keys)[n..]
            && (n == |Plan(c, keys)| <==> left == Done(c))
            && (n > 0 ==> Moved(c, left))
    decreases n
  {
    PlanAdvances(c, keys, recorded);
    if n == 0 {
      if Old(c, keys, recorded) {
        SingletonKeys(keys);
      }
    } else {
      var plan := Plan(c, keys);
      var next := Altered(c, keys, plan[0]).value;
      EveryCrashResumes(c, next, recorded, n - 1);
      assert plan[..n][1..] == plan[1..][..n - 1];
    }
  }

  // ------------------------------------------------------------ the database

  /** A column's foreign keys and its non-null values. */
  datatype Owner = Owner(keys: Keys, values: set<nat>)

  datatype Database = Database(users: set<nat>, subjects: Option<set<nat>>, owners: map<Column, Owner>, recorded: bool)

  datatype Statement = CreateSubjects | CopyUsers | Alter(column: Column, ddl: DDL) | Record

  /** A statement that the server refuses changes nothing. Constraint checks are
      off while a key is added, so no statement looks at the stored values. */
  function Exec(d: Database, s: Statement): Database {
    match s
    case CreateSubjects => if d.subjects.None? then d.(subjects := Some({})) else d
    case CopyUsers => if d.subjects.None? then d else d.(subjects := Some(d.subjects.value + d.users))
    case Alter(c, ddl) =>
      if c in d.owners && Altered(c, d.owners[c].keys, ddl).Some? then
        d.(owners := d.owners[c := d.owners[c].(keys := Altered(c, d.owners[c].keys, ddl).value)])
      else d
    case Record => d.(recorded := true)
  }

  function ExecAll(d: Database, script: seq<Statement>): Database
    decreases |script|
  {
    if script == [] then d else ExecAll(Exec(d, script[0]), script[1..])
  }

  predicate References(keys: Keys, t: Target) {
    exists name :: name in keys && keys[name] == t
  }

  /** Every key in force is true of the stored values. */
  predicate Sound(d: Database) {
    forall c :: c in d.owners ==>
      && (References(d.owners[c].keys, Users) ==> d.owners[c].values <= d.users)
      && (References(d.owners[c].keys, Subjects) ==> d.subjects.Some? && d.owners[c].values <= d.subjects.value)
  }

  predicate Ready(d: Database, order: seq<Column>) {
    && (forall c :: c in order ==> c in d.owners && Acceptable(c, d.owners[c].keys, d.recorded))
    && (forall i, j :: 0 <= i < j < |order| ==> order[i] != order[j])
  }

  /** Every user id is a subject before a column leaves `users`. */
  predicate Copied(d: Database) {
    d.recorded || (d.subjects.Some? && d.users <= d.subjects.value)
  }

  function Alters(c: Column, ddls: seq<DDL>): (r: seq<Statement>)
    ensures |r| == |ddls|
  {
    seq(|ddls|, i requires 0 <= i < |ddls| => Alter(c, ddls[i]))
  }

  /** The statements for the columns, in the order in which they are visited. */
  function ColumnScript(d: Database, order: seq<Column>): seq<Statement>
    requires Ready(d, order)
    decreases |order|
  {
    if order == [] then []
    else
      assert order[0] in order && forall c :: c in order[1..] ==> c in order;
      Alters(order[0], Plan(order[0], d.owners[order[0]].keys)) + ColumnScript(d, order[1..])
  }

  /** A whole run. */
  function Script(d: Database, order: seq<Column>): seq<Statement>
    requires Ready(d, order)
  {
    (if d.recorded then [] else [CreateSubjects, CopyUsers]) + ColumnScript(d, order) + [Record]
  }

  function ToSet(order: seq<Column>): set<Column> {
    set c | c in order
  }

  function FinalSubjects(d: Database): Option<set<nat>> {
    if d.recorded then d.subjects else Some((if d.subjects.Some? then d.subjects.value else {}) + d.users)
  }

  /** The one final state: it does not mention the order of the visit. */
  function Finished(d: Database, columns: set<Column>): Database {
    Database(d.users, FinalSubjects(d),
             map c | c in d.owners :: if c in columns then d.owners[c].(keys := Done(c)) else d.owners[c],
             true)
  }

  /** What every statement of a run keeps. */
  ghost predicate Kept(start: Database, d: Database, order: seq<Column>) {
    && Sound(d) && Ready(d, order)
    && d.users == start.users && d.owners.Keys == start.owners.Keys
    && FinalSubjects(d) == FinalSubjects(start)
    && forall c :: c in d.owners ==>
         d.owners[c].values == start.owners[c].values && (c in order || d.owners[c] == start.owners[c])
  }

  /** What that means for a committed state: every foreign key in force is true of
      the data, every column still has one, every value of a moved column is a
      subject, no row or user changed, and the final state ahead is the same. */
  ghost predicate Holds(start: Database, d: Database, order: seq<Column>) {
    && Sound(d) && Ready(d, order)
    && Finished(d, ToSet(order)) == Finished(start, ToSet(order))
    && d.users == start.users && d.owners.Keys == start.owners.Keys
    && (forall c :: c in d.owners ==> d.owners[c].values == start.owners[c].values)
    && (forall c :: c in order ==> d.owners[c].keys != map[])
    && (forall c :: c in order && Moved(c, d.owners[c].keys) ==>
          d.subjects.Some? && d.owners[c].values <= d.subjects.value)
  }

  lemma KeptHolds(start: Database, d: Database, order: seq<Column>)
    requires Kept(start, d, order)
    ensures Holds(start, d, order)
  {
    forall c | c in order
      ensures d.owners[c].keys != map[]
      ensures Moved(c, d.owners[c].keys) ==> References(d.owners[c].keys, Subjects)
    {
      if Moved(c, d.owners[c].keys) {
        var name :| name in d.owners[c].keys;
      }
    }
    FinishedOwners(start, d, order);
  }

  lemma FinishedOwners(start: Database, d: Database, order: seq<Column>)
    requires Kept(start, d, order)
    ensures Finished(d, ToSet(order)) == Finished(start, ToSet(order))
  {
    forall c | c in d.owners
      ensures Finished(d, ToSet(order)).owners[c] == Finished(start, ToSet(order)).owners[c]
    {
      assert c in ToSet(order) <==> c in order;
    }
  }

  lemma KeptRefl(d: Database, order: seq<Column>)
    requires Sound(d) && Ready(d, order)
    ensures Kept(d, d, order)
  {
  }

  lemma KeptTrans(a: Database, b: Database, d: Database, order: seq<Column>)
    requires Kept(a, b, order) && Kept(b, d, order)
    ensures Kept(a, d, order)
  {
  }

  lemma CreateKeeps(d: Database, order: seq<Column>)
    requires Sound(d) && Ready(d, order) && !d.recorded
    ensures Kept(d, Exec(d, CreateSubjects), order)
  {
  }

  lemma CopyKeeps(d: Database, order: seq<Column>)
    requires Sound(d) && Ready(d, order) && !d.recorded && d.subjects.Some?
    ensures Kept(d, Exec(d, CopyUsers), order) && Copied(Exec(d, CopyUsers))
  {
    assert d.subjects.value + d.users + d.users == d.subjects.value + d.users;
  }

  /** The values of a column are subjects before and after one ALTER of its plan,
      although nothing checks them. */
  lemma AlterCovered(d: Database, order: seq<Column>, c: Column)
    requires Sound(d) && Ready(d, order) && Copied(d) && c in order && Plan(c, d.owners[c].keys) != []
    ensures d.subjects.Some? && d.owners[c].values <= d.subjects.value
  {
    var keys := d.owners[c].keys;
    if Moved(c, keys) {
      var name :| name in keys;
      assert References(keys, Subjects);
    } else {
      assert References(keys, Users);
    }
  }

  /** One ALTER of a plan. */
  lemma AlterKeeps(d: Database, order: seq<Column>, c: Column)
    requires Sound(d) && Ready(d, order) && Copied(d) && c in order && Plan(c, d.owners[c].keys) != []
    ensures var next := Exec(d, Alter(c, Plan(c, d.owners[c].keys)[0]));
            && Kept(d, next, order) && Copied(next) && next.recorded == d.recorded
            && Plan(c, next.owners[c].keys) == Plan(c, d.owners[c].keys)[1..]
            && forall b :: b in d.owners && b != c ==> next.owners[b] == d.owners[b]
  {
    var keys := d.owners[c].keys;
    PlanAdvances(c, keys, d.recorded);
    AlterCovered(d, order, c);
    var altered := Altered(c, keys, Plan(c, keys)[0]).value;
    assert Exec(d, Alter(c, Plan(c, keys)[0])) == d.(owners := d.owners[c := d.owners[c].(keys := altered)]);
    assert !References(altered, Users);
  }

  lemma ReadyTail(d: Database, order: seq<Column>)
    requires order != [] && Ready(d, order)
    ensures order[0] in d.owners && Acceptable(order[0], d.owners[order[0]].keys, d.recorded)
    ensures Ready(d, order[1..]) && order[0] !in order[1..]
  {
    assert order[0] in order && forall c :: c in order[1..] ==> c in order;
  }

  lemma {:induction false} SameKeysSameScript(a: Database, b: Database, order: seq<Column>)
    requires Ready(a, order) && Ready(b, order)
    requires forall c :: c in order ==> a.owners[c].keys == b.owners[c].keys
    ensures ColumnScript(a, order) == ColumnScript(b, order)
    decreases |order|
  {
    if order != [] {
      ReadyTail(a, order);
      ReadyTail(b, order);
      assert forall c :: c in order[1..] ==> c in order;
      SameKeysSameScript(a, b, order[1..]);
    }
  }

  lemma AltersTail(c: Column, ddls: seq<DDL>)
    requires ddls != []
    ensures Alters(c, ddls) == [Alter(c, ddls[0])] + Alters(c, ddls[1..])
  {
  }

  /** `c` is the first visited column with anything left to do. */
  predicate FirstActive(d: Database, order: seq<Column>, c: Column)
    requires Ready(d, order)
    decreases |order|
  {
    order != [] &&
    (ReadyTail(d, order);
     if Plan(order[0], d.owners[order[0]].keys) != [] then c == order[0] else FirstActive(d, order[1..], c))
  }

  lemma {:induction false} FindActive(d: Database, order: seq<Column>) returns (c: Column)
    requires Ready(d, order) && ColumnScript(d, order) != []
    ensures c in order && FirstActive(d, order, c) && Plan(c, d.owners[c].keys) != []
    ensures ColumnScript(d, order)[0] == Alter(c, Plan(c, d.owners[c].keys)[0])
    decreases |order|
  {
    ReadyTail(d, order);
    c := order[0];
    if Plan(c, d.owners[c].keys) == [] {
      assert ColumnScript(d, order) == ColumnScript(d, order[1..]);
      c := FindActive(d, order[1..]);
      assert c in order;
    }
  }

  lemma DropFirst(a: Statement, b: seq<Statement>, c: seq<Statement>)
    ensures (([a] + b) + c)[1..] == b + c
  {
  }

  lemma HeadShortens(d: Database, next: Database, order: seq<Column>)
    requires order != [] && Ready(d, order) && Ready(next, order)
    requires forall b :: b in order && b != order[0] ==> next.owners[b].keys == d.owners[b].keys
    requires Plan(order[0], d.owners[order[0]].keys) != []
    requires Plan(order[0], next.owners[order[0]].keys) == Plan(order[0], d.owners[order[0]].keys)[1..]
    ensures ColumnScript(d, order) != [] && ColumnScript(next, order) == ColumnScript(d, order)[1..]
  {
    ReadyTail(d, order);
    ReadyTail(next, order);
    var rest, plan := order[1..], Plan(order[0], d.owners[order[0]].keys);
    assert forall b :: b in rest ==> b in order;
    SameKeysSameScript(d, next, rest);
    AltersTail(order[0], plan);
    DropFirst(Alter(order[0], plan[0]), Alters(order[0], plan[1..]), ColumnScript(d, rest));
  }

  /** Once its first statement has committed, what is left of a script is what a
      rerun would issue. */
  lemma {:induction false} ScriptShortens(d: Database, next: Database, order: seq<Column>, c: Column)
    requires Ready(d, order) && Ready(next, order) && FirstActive(d, order, c) && c in order
    requires forall b :: b in order && b != c ==> next.owners[b].keys == d.owners[b].keys
    requires Plan(c, d.owners[c].keys) != []
    requires Plan(c, next.owners[c].keys) == Plan(c, d.owners[c].keys)[1..]
    requires ColumnScript(d, order) != []
    ensures ColumnScript(next, order) == ColumnScript(d, order)[1..]
    decreases |order|
  {
    ReadyTail(d, order);
    ReadyTail(next, order);
    if order[0] == c {
      HeadShortens(d, next, order);
    } else {
      assert forall b :: b in order <==> b == order[0] || b in order[1..];
      assert Alters(order[0], []) == [];
      assert ColumnScript(d, order) == ColumnScript(d, order[1..]);
      assert ColumnScript(next, order) == ColumnScript(next, order[1..]);
      ScriptShortens(d, next, order[1..], c);
    }
  }

  lemma {:induction false} EmptyScriptIsDone(d: Database, order: seq<Column>)
    requires Ready(d, order) && ColumnScript(d, order) == []
    ensures forall c :: c in order ==> d.owners[c].keys == Done(c)
    decreases |order|
  {
    if order != [] {
      ReadyTail(d, order);
      EmptyScriptIsDone(d, order[1..]);
      PlanAdvances(order[0], d.owners[order[0]].keys, d.recorded);
      assert forall c :: c in order <==> c == order[0] || c in order[1..];
    }
  }

  lemma ColumnsStep(d: Database, order: seq<Column>)
    requires Sound(d) && Ready(d, order) && Copied(d) && ColumnScript(d, order) != []
    ensures var next := Exec(d, ColumnScript(d, order)[0]);
            Kept(d, next, order) && Copied(next) && next.recorded == d.recorded
            && ColumnScript(next, order) == ColumnScript(d, order)[1..]
  {
    var c := FindActive(d, order);
    AlterKeeps(d, order, c);
    ScriptShortens(d, Exec(d, ColumnScript(d, order)[0]), order, c);
  }

  lemma ExecCons(d: Database, a: Statement, rest: seq<Statement>)
    ensures ExecAll(d, [a] + rest) == ExecAll(Exec(d, a), rest)
  {
    assert ([a] + rest)[1..] == rest;
  }

  lemma TakenFirst(script: seq<Statement>, n: nat)
    requires 0 < n <= |script|
    ensures script[..n] == [script[0]] + script[1..][..n - 1] && script[n..] == script[1..][n - 1..]
  {
  }

  lemma {:induction false} ColumnsStop(d: Database, order: seq<Column>, n: nat)
    requires Sound(d) && Ready(d, order) && Copied(d) && n <= |ColumnScript(d, order)|
    ensures var left := ExecAll(d, ColumnScript(d, order)[..n]);
            Kept(d, left, order) && Copied(left) && left.recorded == d.recorded
            && ColumnScript(left, order) == ColumnScript(d, order)[n..]
    decreases n
  {
    var script := ColumnScript(d, order);
    if n == 0 {
      KeptRefl(d, order);
    } else {
      var next, taken := Exec(d, script[0]), script[1..][..n - 1];
      ColumnsStep(d, order);
      ColumnsStop(next, order, n - 1);
      TakenFirst(script, n);
      ExecCons(d, script[0], taken);
      KeptTrans(d, next, ExecAll(next, taken), order);
    }
  }

  lemma {:induction false} ExecAllAppends(d: Database, a: seq<Statement>, b: seq<Statement>)
    ensures ExecAll(d, a + b) == ExecAll(ExecAll(d, a), b)
    decreases |a|
  {
    if a == [] {
      assert a + b == b;
    } else {
      assert (a + b)[1..] == a[1..] + b;
      ExecAllAppends(Exec(d, a[0]), a[1..], b);
    }
  }

  // ------------------------------------------------------------- whole runs

  lemma RecordKeeps(d: Database, order: seq<Column>)
    requires Sound(d) && Ready(d, order) && Copied(d) && ColumnScript(d, order) == []
    ensures Exec(d, Record) == Finished(d, ToSet(order)) && Kept(d, Exec(d, Record), order)
  {
    EmptyScriptIsDone(d, order);
    var next := Exec(d, Record);
    if !d.recorded {
      assert d.subjects.value + d.users == d.subjects.value;
    }
    forall c | c in order
      ensures Acceptable(c, next.owners[c].keys, true)
    {
      assert Moved(c, Done(c));
    }
    assert next.owners == Finished(d, ToSet(order)).owners;
  }

  /** A run whose owners are already covered by subjects, stopped after n statements. */
  lemma CoveredRunStops(d: Database, order: seq<Column>, n: nat)
    requires Sound(d) && Ready(d, order) && Copied(d) && n <= |ColumnScript(d, order)| + 1
    ensures var script := ColumnScript(d, order) + [Record];
            var left := ExecAll(d, script[..n]);
            Kept(d, left, order) && (n == |script| ==> left == Finished(d, ToSet(order)))
  {
    var columns := ColumnScript(d, order);
    var script := columns + [Record];
    if n <= |columns| {
      assert script[..n] == columns[..n];
      ColumnsStop(d, order, n);
    } else {
      assert script[..n] == columns + [Record] && columns[..|columns|] == columns;
      ColumnsStop(d, order, |columns|);
      var left := ExecAll(d, columns);
      RecordKeeps(left, order);
      FinishedOwners(d, left, order);
      ExecAllAppends(d, columns, [Record]);
      ExecOne(left, Record);
      KeptTrans(d, left, Exec(left, Record), order);
    }
  }

  lemma PreludeKeeps(d: Database, order: seq<Column>)
    requires Sound(d) && Ready(d, order) && !d.recorded
    ensures Kept(d, Exec(d, CreateSubjects), order)
    ensures var copied := Exec(Exec(d, CreateSubjects), CopyUsers);
            Kept(d, copied, order) && Copied(copied)
  {
    var created := Exec(d, CreateSubjects);
    CreateKeeps(d, order);
    CopyKeeps(created, order);
    KeptTrans(d, created, Exec(created, CopyUsers), order);
  }

  lemma ExecTwo(d: Database, a: Statement, b: Statement, rest: seq<Statement>, n: nat)
    requires n <= |rest|
    ensures ExecAll(d, ([a, b] + rest)[..n + 2]) == ExecAll(Exec(Exec(d, a), b), rest[..n])
  {
    assert ([a, b] + rest)[..n + 2] == [a] + ([b] + rest[..n]);
    ExecCons(d, a, [b] + rest[..n]);
    ExecCons(Exec(d, a), b, rest[..n]);
  }

  lemma ExecOne(d: Database, a: Statement)
    ensures ExecAll(d, [a]) == Exec(d, a)
  {
    assert [a][1..] == [];
  }

  lemma PreludeStops(d: Database, order: seq<Column>, rest: seq<Statement>, n: nat)
    requires Sound(d) && Ready(d, order) && !d.recorded && n < 2
    ensures Kept(d, ExecAll(d, ([CreateSubjects, CopyUsers] + rest)[..n]), order)
  {
    var script := [CreateSubjects, CopyUsers] + rest;
    KeptRefl(d, order);
    if n == 1 {
      CreateKeeps(d, order);
      assert script[..1] == [CreateSubjects];
      ExecOne(d, CreateSubjects);
    } else {
      assert script[..0] == [];
    }
  }

  lemma CopiedRunStops(d: Database, copied: Database, order: seq<Column>, n: nat)
    requires Ready(d, order) && Kept(d, copied, order) && Copied(copied)
    requires forall c :: c in order ==> copied.owners[c].keys == d.owners[c].keys
    requires n <= |ColumnScript(d, order)| + 1
    ensures var rest := ColumnScript(d, order) + [Record];
            var left := ExecAll(copied, rest[..n]);
            Kept(d, left, order) && (n == |rest| ==> left == Finished(d, ToSet(order)))
  {
    SameKeysSameScript(d, copied, order);
    CoveredRunStops(copied, order, n);
    KeptTrans(d, copied, ExecAll(copied, (ColumnScript(d, order) + [Record])[..n]), order);
    FinishedOwners(d, copied, order);
  }

  lemma AfterPrelude(d: Database, order: seq<Column>, n: nat)
    requires Ready(d, order) && !d.recorded && n <= |ColumnScript(d, order)| + 1
    ensures |Script(d, order)| == |ColumnScript(d, order)| + 3
    ensures ExecAll(d, Script(d, order)[..n + 2]) ==
            ExecAll(Exec(Exec(d, CreateSubjects), CopyUsers), (ColumnScript(d, order) + [Record])[..n])
  {
    var rest := ColumnScript(d, order) + [Record];
    assert Script(d, order) == [CreateSubjects, CopyUsers] + rest;
    ExecTwo(d, CreateSubjects, CopyUsers, rest, n);
  }

  lemma FirstRunStopsEarly(d: Database, order: seq<Column>, n: nat)
    requires Sound(d) && Ready(d, order) && !d.recorded && n < 2
    ensures n < |Script(d, order)| && Kept(d, ExecAll(d, Script(d, order)[..n]), order)
  {
    var rest := ColumnScript(d, order) + [Record];
    assert Script(d, order) == [CreateSubjects, CopyUsers] + rest;
    PreludeStops(d, order, rest, n);
  }

  lemma FirstRunStopsLater(d: Database, order: seq<Column>, n: nat)
    requires Sound(d) && Ready(d, order) && !d.recorded && n + 2 <= |Script(d, order)|
    ensures var left := ExecAll(d, Script(d, order)[..n + 2]);
            Kept(d, left, order) && (n + 2 == |Script(d, order)| ==> left == Finished(d, ToSet(order)))
  {
    var copied := Exec(Exec(d, CreateSubjects), CopyUsers);
    PreludeKeeps(d, order);
    assert |Script(d, order)| == |ColumnScript(d, order)| + 3;
    AfterPrelude(d, order, n);
    CopiedRunStops(d, copied, order, n);
  }

  lemma FirstRunStops(d: Database, order: seq<Column>, n: nat)
    requires Sound(d) && Ready(d, order) && !d.recorded && n <= |Script(d, order)|
    ensures var left := ExecAll(d, Script(d, order)[..n]);
            Kept(d, left, order) && (n == |Script(d, order)| ==> left == Finished(d, ToSet(order)))
  {
    if n < 2 {
      FirstRunStopsEarly(d, order, n);
    } else {
      FirstRunStopsLater(d, order, n - 2);
    }
  }

  /** Wherever a run stops the database holds, and a run that does not stop
      reaches the final state. */
  lemma EveryStoppedRun(d: Database, order: seq<Column>, n: nat)
    requires Sound(d) && Ready(d, order) && n <= |Script(d, order)|
    ensures var left := ExecAll(d, Script(d, order)[..n]);
            Holds(d, left, order) && (n == |Script(d, order)| ==> left == Finished(d, ToSet(order)))
  {
    if d.recorded {
      assert Script(d, order) == ColumnScript(d, order) + [Record];
      CoveredRunStops(d, order, n);
    } else {
      FirstRunStops(d, order, n);
    }
    KeptHolds(d, ExecAll(d, Script(d, order)[..n]), order);
  }

  /** One run: the order in which it visits the columns, and after how many
      statements it stops. */
  datatype Attempt = Attempt(order: seq<Column>, statements: nat)

  predicate Distinct(order: seq<Column>) {
    forall i, j :: 0 <= i < j < |order| ==> order[i] != order[j]
  }

  predicate Visits(a: Attempt, columns: set<Column>) {
    ToSet(a.order) == columns && Distinct(a.order)
  }

  function Stopped(d: Database, a: Attempt): Database
    requires Ready(d, a.order)
  {
    ExecAll(d, if a.statements <= |Script(d, a.order)| then Script(d, a.order)[..a.statements] else Script(d, a.order))
  }

  /** A history of runs, of which each plans from what the one before left. */
  ghost predicate History(states: seq<Database>, attempts: seq<Attempt>) {
    && |states| == |attempts| + 1
    && forall i :: 0 <= i < |attempts| ==>
                     Ready(states[i], attempts[i].order) ==> states[i + 1] == Stopped(states[i], attempts[i])
  }

  lemma SameColumnsReady(d: Database, order: seq<Column>, again: seq<Column>)
    requires Ready(d, order) && ToSet(again) == ToSet(order) && Distinct(again)
    ensures Ready(d, again)
  {
    forall c | c in again
      ensures c in order
    {
      assert c in ToSet(again);
    }
  }

  lemma AttemptHolds(d: Database, a: Attempt)
    requires Sound(d) && Ready(d, a.order)
    ensures Holds(d, Stopped(d, a), a.order)
    ensures a.statements >= |Script(d, a.order)| ==> Stopped(d, a) == Finished(d, ToSet(a.order))
  {
    var script := Script(d, a.order);
    assert script[..|script|] == script;
    EveryStoppedRun(d, a.order, if a.statements <= |script| then a.statements else |script|);
  }

  /** However often and wherever earlier runs stopped, and in whatever order each of
      them visited the columns: a further run can start, every state between holds,
      and a run that completes ends in the one final state of the first database. */
  lemma {:induction false} RerunConverges(states: seq<Database>, attempts: seq<Attempt>, last: Attempt)
    requires History(states, attempts) && Sound(states[0]) && Ready(states[0], last.order)
    requires forall i :: 0 <= i < |attempts| ==> Visits(attempts[i], ToSet(last.order))
    ensures var left := states[|attempts|];
            && Holds(states[0], left, last.order)
            && (last.statements >= |Script(left, last.order)| ==>
                  Stopped(left, last) == Finished(states[0], ToSet(last.order)))
    decreases |attempts|
  {
    if attempts == [] {
      KeptRefl(states[0], last.order);
      KeptHolds(states[0], states[0], last.order);
    } else {
      var n := |attempts| - 1;
      RerunConverges(states[..n + 1], attempts[..n], last);
      SameColumnsReady(states[n], last.order, attempts[n].order);
      AttemptHolds(states[n], attempts[n]);
      SameColumnsReady(states[n + 1], attempts[n].order, last.order);
      HoldsTrans(states[0], states[n], states[n + 1], attempts[n].order, last.order);
    }
    AttemptHolds(states[|attempts|], last);
  }

  lemma HoldsTrans(a: Database, b: Database, d: Database, order: seq<Column>, again: seq<Column>)
    requires ToSet(again) == ToSet(order)
    requires Holds(a, b, again) && Holds(b, d, order) && Ready(d, again)
    ensures Holds(a, d, again)
  {
    forall c | c in again
      ensures c in order
    {
      assert c in ToSet(again);
    }
  }

  // -------------------------------------------------------------- validation

  /** checkAccountSubjectSchema: one or two subject keys with owned names on every
      column, and every live account has its immutable identity. */
  predicate Validates(d: Database, order: seq<Column>) {
    && d.subjects.Some? && d.users <= d.subjects.value
    && forall c :: c in order ==>
         && c in d.owners
         && (forall name :: name in d.owners[c].keys ==>
               d.owners[c].keys[name].Subjects? && (name == Canonical(c) || name == Temporary(c)))
         && 1 <= |d.owners[c].keys| <= 2
  }

  lemma MovedSize(c: Column, keys: Keys)
    requires Moved(c, keys)
    ensures 1 <= |keys| <= 2
  {
    PlansOfMoved(c);
    MovedShapes(c, keys);
    assert |Done(c)| == 1 && |Half(c)| == 1 && |Both(c)| == 2;
  }

  /** A database validates exactly when every user has a subject and every column is one
      that a recorded run accepts: moved, wholly or on the way. */
  lemma ValidatesExactly(d: Database, order: seq<Column>)
    ensures Validates(d, order) <==>
            && d.subjects.Some? && d.users <= d.subjects.value
            && forall c :: c in order ==> c in d.owners && Acceptable(c, d.owners[c].keys, true)
  {
    forall c | c in order && c in d.owners && Moved(c, d.owners[c].keys)
      ensures 1 <= |d.owners[c].keys| <= 2
    {
      MovedSize(c, d.owners[c].keys);
    }
    forall c | c in order && c in d.owners && |d.owners[c].keys| > 0
      ensures d.owners[c].keys != map[]
    {
    }
  }

  /** In a validated database no key of a visited column is on `users`, and every value
      of such a column is a subject. */
  lemma ValidatedIsMoved(d: Database, order: seq<Column>)
    requires Validates(d, order) && Sound(d)
    ensures forall c :: c in order ==>
              && c in d.owners && !References(d.owners[c].keys, Users) && References(d.owners[c].keys, Subjects)
              && d.owners[c].values <= d.subjects.value
  {
    ValidatesExactly(d, order);
    forall c | c in order
      ensures References(d.owners[c].keys, Subjects)
    {
      var keys := d.owners[c].keys;
      MovedShapes(c, keys);
      PlansOfMoved(c);
      assert Canonical(c) in keys || Temporary(c) in keys;
    }
  }

  /** The final state validates exactly when no recorded schema lost a subject. */
  lemma FinishedValidates(d: Database, order: seq<Column>)
    requires Ready(d, order)
    ensures Validates(Finished(d, ToSet(order)), order) <==>
            !d.recorded || (d.subjects.Some? && d.users <= d.subjects.value)
  {
  }
}
