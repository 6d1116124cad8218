/** The migrator itself, on a connection that may be lost before any statement. */
module SubjectMigration {
  import opened Wrappers
  import opened SubjectSchema

  function Smaller(a: nat, b: nat): nat {
    if a < b then a else b
  }

  /** The statements of one column's plan that still commit. */
  function Surviving(c: Column, keys: Keys, budget: nat): seq<Statement>
    requires Acceptable(c, keys, false)
  {
    Alters(c, Plan(c, keys))[..Smaller(budget, |Plan(c, keys)|)]
  }

  lemma PlanKinds(c: Column, keys: Keys, recorded: bool)
    requires Acceptable(c, keys, recorded)
    ensures Moved(c, keys) ==>
              Plan(c, keys) == (if Canonical(c) in keys then [] else [AddCanonical])
                               + if Temporary(c) in keys then [DropTemporary] else []
    ensures !Moved(c, keys) ==> Plan(c, keys) == [Retarget(OnlyName(keys)), AddCanonical, DropTemporary]
    ensures !Moved(c, keys) ==> |keys| == 1 && keys[OnlyName(keys)].Users? && OnlyName(keys) != Temporary(c)
    ensures !Moved(c, keys) ==> !recorded && '`' !in OnlyName(keys)
  {
    if !Moved(c, keys) {
      SingletonKeys(keys);
    }
  }

  lemma AltersPrefix(c: Column, ddls: seq<DDL>, n: nat)
    requires 0 < n <= |ddls|
    ensures Alters(c, ddls)[..n] == [Alter(c, ddls[0])] + Alters(c, ddls[1..])[..n - 1]
  {
  }

  lemma {:induction false} AltersKeep(d: Database, order: seq<Column>, c: Column, n: nat)
    requires Sound(d) && Ready(d, order) && Copied(d) && c in order && n <= |Plan(c, d.owners[c].keys)|
    ensures var left := ExecAll(d, Alters(c, Plan(c, d.owners[c].keys))[..n]);
            && Kept(d, left, order) && Copied(left) && left.recorded == d.recorded
            && (n == |Plan(c, d.owners[c].keys)| ==> left.owners[c].keys == Done(c))
            && forall b :: b in d.owners && b != c ==> left.owners[b] == d.owners[b]
    decreases n
  {
    var plan := Plan(c, d.owners[c].keys);
    if n == 0 {
      KeptRefl(d, order);
      PlanAdvances(c, d.owners[c].keys, d.recorded);
    } else {
      var next := Exec(d, Alter(c, plan[0]));
      var rest := Alters(c, plan[1..])[..n - 1];
      AlterKeeps(d, order, c);
      AltersKeep(next, order, c, n - 1);
      AltersPrefix(c, plan, n);
      ExecCons(d, Alter(c, plan[0]), rest);
      KeptTrans(d, next, ExecAll(next, rest), order);
    }
  }

  predicate Refused(d: Database, c: Column) {
    c !in d.owners || !Acceptable(c, d.owners[c].keys, d.recorded)
  }

  /** The run can move the first columns of the order, up to one it refuses if there
      are any more. */
  predicate ReadyUpTo(d: Database, order: seq<Column>, ready: nat) {
    ready <= |order| && Distinct(order) && Ready(d, order[..ready]) && (ready < |order| ==> Refused(d, order[ready]))
  }

  function Movable(d: Database, order: seq<Column>): (ready: nat)
    requires Distinct(order)
    ensures ReadyUpTo(d, order, ready)
  {
    FirstRefused(d, order, 0)
  }

  function FirstRefused(d: Database, order: seq<Column>, from: nat): (ready: nat)
    requires Distinct(order) && from <= |order| && Ready(d, order[..from])
    ensures ReadyUpTo(d, order, ready)
    decreases |order| - from
  {
    if from == |order| || Refused(d, order[from]) then from
    else
      assert forall c :: c in order[..from + 1] ==> c in order[..from] || c == order[from];
      FirstRefused(d, order, from + 1)
  }

  predicate DoneUpTo(d: Database, order: seq<Column>, i: nat) {
    i <= |order| && forall j :: 0 <= j < i ==> order[j] in d.owners && d.owners[order[j]].keys == Done(order[j])
  }

  lemma DoneNext(before: Database, d: Database, order: seq<Column>, i: nat)
    requires Distinct(order) && i < |order| && DoneUpTo(before, order, i) && d.owners.Keys == before.owners.Keys
    requires order[i] in d.owners && d.owners[order[i]].keys == Done(order[i])
    requires forall b :: b in d.owners && b != order[i] ==> d.owners[b] == before.owners[b]
    ensures DoneUpTo(d, order, i + 1)
  {
  }

  /** Moving the columns before it leaves a refused column as it was. */
  lemma RefusedStays(start: Database, d: Database, order: seq<Column>, ready: nat)
    requires ready < |order| && ReadyUpTo(start, order, ready) && Kept(start, d, order[..ready])
    requires d.recorded == start.recorded
    ensures Refused(d, order[ready])
  {
    assert order[ready] !in order[..ready];
  }

  class Migrator {
    var db: Database
    /** How many more statements commit before the connection is lost. */
    var budget: nat

    constructor (db: Database, budget: nat)
      ensures this.db == db && this.budget == budget
    {
      this.db, this.budget := db, budget;
    }

    function KeysOn(c: Column): Keys
      reads this
    {
      if c in db.owners then db.owners[c].keys else map[]
    }

    method Execute(s: Statement) returns (ok: bool)
      modifies this
      ensures ok ==> db == Exec(old(db), s) && budget == old(budget) - 1
      ensures !ok ==> db == old(db) && budget == old(budget)
      ensures ok <==> old(budget) > 0 &&
                      (s.Alter? ==> s.column in old(db).owners &&
                                    Altered(s.column, old(db).owners[s.column].keys, s.ddl).Some?)
    {
      ok := budget > 0;
      if s.Alter? {
        ok := ok && s.column in db.owners && Altered(s.column, db.owners[s.column].keys, s.ddl).Some?;
      }
      if ok {
        db := Exec(db, s);
        budget := budget - 1;
      }
    }

    /** Looks at each key once: any order of the rows gives the same answer. */
    method Classify(c: Column, keys: Keys) returns (hasCanonical: bool, hasTemporary: bool, ok: bool)
      ensures ok <==> forall name :: name in keys ==>
                                       keys[name].Subjects? && (name == Canonical(c) || name == Temporary(c))
      ensures ok ==> (hasCanonical <==> Canonical(c) in keys) && (hasTemporary <==> Temporary(c) in keys)
    {
      hasCanonical, hasTemporary := false, false;
      var rest := keys.Keys;
      while rest != {}
        invariant rest <= keys.Keys
        invariant forall name :: name in keys && name !in rest ==>
                                   keys[name].Subjects? && (name == Canonical(c) || name == Temporary(c))
        invariant hasCanonical <==> Canonical(c) in keys && Canonical(c) !in rest
        invariant hasTemporary <==> Temporary(c) in keys && Temporary(c) !in rest
        decreases rest
      {
        var name :| name in rest;
        NamesDiffer(c);
        if !keys[name].Subjects? {
          return false, false, false;
        }
        if name == Canonical(c) {
          hasCanonical := true;
        } else if name == Temporary(c) {
          hasTemporary := true;
        } else {
          return false, false, false;
        }
        rest := rest - {name};
      }
      ok := true;
    }

    /** Installs the canonical key where it is missing, then drops the temporary one. */
    method FinishMoved(c: Column, keys: Keys) returns (ok: bool)
      requires c in db.owners ==> keys == db.owners[c].keys
      requires c !in db.owners ==> keys == map[]
      modifies this
      ensures !Moved(c, keys) ==> !ok && db == old(db) && budget == old(budget)
      ensures Moved(c, keys) ==>
                && (ok <==> old(budget) >= |Plan(c, keys)|)
                && db == ExecAll(old(db), Surviving(c, keys, old(budget)))
                && budget == old(budget) - |Surviving(c, keys, old(budget))|
    {
      if Moved(c, keys) {
        MovedShapes(c, keys);
        MovedPlans(c, db, keys, budget);
      }
      if |keys| < 1 || |keys| > 2 {
        return false;
      }
      var hasCanonical, hasTemporary;
      hasCanonical, hasTemporary, ok := Classify(c, keys);
      if !ok {
        return;
      }
      NamesDiffer(c);
      if !hasCanonical {
        ok := Execute(Alter(c, AddCanonical));
        if !ok {
          return;
        }
      }
      if hasTemporary {
        ok := Execute(Alter(c, DropTemporary));
      }
    }

    /** One column: at most three statements, as many of its plan as the
        connection survives; any other layout is refused unchanged. */
    method ReconcileReference(c: Column, recorded: bool) returns (ok: bool)
      modifies this
      ensures !Acceptable(c, old(KeysOn(c)), recorded) ==> !ok && db == old(db) && budget == old(budget)
      ensures Acceptable(c, old(KeysOn(c)), recorded) ==>
                && (ok <==> old(budget) >= |Plan(c, old(KeysOn(c)))|)
                && db == ExecAll(old(db), Surviving(c, old(KeysOn(c)), old(budget)))
                && budget == old(budget) - |Surviving(c, old(KeysOn(c)), old(budget))|
    {
      var keys := KeysOn(c);
      if |keys| == 1 && keys[OnlyName(keys)].Users? && !recorded {
        var name := OnlyName(keys);
        SingletonKeys(keys);
        if '`' in name {
          return false;
        }
        ghost var before := db;
        ghost var allowed := budget;
        ok := Execute(Alter(c, Retarget(name)));
        if !ok {
          return;
        }
        RetargetedPlan(c, keys, before, allowed);
        keys := map[Temporary(c) := Subjects];
      }
      ok := FinishMoved(c, keys);
    }

    /** The validation that precedes the receipt. */
    method Validate(order: seq<Column>) returns (ok: bool)
      ensures ok <==> Validates(db, order)
    {
      if db.subjects.None? || !(db.users <= db.subjects.value) {
        return false;
      }
      for i := 0 to |order|
        invariant forall j :: 0 <= j < i ==>
                                && order[j] in db.owners
                                && (forall name :: name in db.owners[order[j]].keys ==>
                                      db.owners[order[j]].keys[name].Subjects?
                                      && (name == Canonical(order[j]) || name == Temporary(order[j])))
                                && 1 <= |db.owners[order[j]].keys| <= 2
      {
        var c := order[i];
        assert c in order;
        if c !in db.owners {
          return false;
        }
        var keys := db.owners[c].keys;
        if !(forall name :: name in keys ==> keys[name].Subjects? && (name == Canonical(c) || name == Temporary(c))) {
          return false;
        }
        if !(1 <= |keys| <= 2) {
          return false;
        }
      }
      ok := true;
    }

    /** Creates the subjects and copies every user id into them. */
    method Prepare(ghost order: seq<Column>) returns (ok: bool)
      requires Sound(db) && Ready(db, order)
      modifies this
      ensures Kept(old(db), db, order) && db.recorded == old(db).recorded
      ensures ok ==> Copied(db) && budget >= old(budget) - 2
      ensures db.owners == old(db).owners
      ensures old(budget) >= 2 ==> ok
    {
      KeptRefl(db, order);
      ok := true;
      if !db.recorded {
        PreludeKeeps(db, order);
        ok := Execute(CreateSubjects);
        if ok {
          ok := Execute(CopyUsers);
        }
      }
    }

    method VisitColumn(ghost order: seq<Column>, c: Column) returns (ok: bool)
      requires Sound(db) && Ready(db, order) && Copied(db) && (c in order || Refused(db, c))
      modifies this
      ensures c !in order ==> !ok && db == old(db)
      ensures Kept(old(db), db, order) && Copied(db) && db.recorded == old(db).recorded
      ensures ok ==> db.owners[c].keys == Done(c)
      ensures forall b :: b in db.owners && b != c ==> db.owners[b] == old(db).owners[b]
      ensures c in order && old(budget) >= 3 ==> ok && budget >= old(budget) - 3
    {
      KeptRefl(db, order);
      if c in order {
        PlanAdvances(c, db.owners[c].keys, db.recorded);
        AltersKeep(db, order, c, Smaller(budget, |Plan(c, db.owners[c].keys)|));
      }
      ok := ReconcileReference(c, db.recorded);
    }

    /** The columns up to the first, if any, whose layout is refused. */
    method Visit(order: seq<Column>, ghost ready: nat) returns (ok: bool)
      requires Sound(db) && Copied(db) && ReadyUpTo(db, order, ready)
      modifies this
      ensures Kept(old(db), db, order[..ready]) && db.recorded == old(db).recorded
      ensures ok ==> ready == |order| && Copied(db)
      ensures ok || (old(budget) >= 3 * ready && ready < |order|) ==>
                DoneUpTo(db, order, ready)
      ensures old(budget) >= 3 * |order| && ready == |order| ==> ok && budget >= old(budget) - 3 * |order|
    {
      ghost var moved := order[..ready];
      KeptRefl(db, moved);
      for i := 0 to |order|
        invariant i <= ready
        invariant Kept(old(db), db, moved) && Copied(db) && db.recorded == old(db).recorded
        invariant DoneUpTo(db, order, i)
        invariant old(budget) >= 3 * ready ==> budget >= old(budget) - 3 * i
      {
        ghost var before := db;
        if i < ready {
          assert moved[i] == order[i];
        } else {
          RefusedStays(old(db), db, order, ready);
        }
        ok := VisitColumn(moved, order[i]);
        KeptTrans(old(db), before, db, moved);
        if !ok {
          return;
        }
        DoneNext(before, db, order, i);
      }
      ok := true;
    }

    method Conclude(order: seq<Column>) returns (ok: bool)
      requires Sound(db) && Ready(db, order) && Copied(db)
      requires forall c :: c in order ==> db.owners[c].keys == Done(c)
      modifies this
      ensures Kept(old(db), db, order)
      ensures ok ==> db == Finished(old(db), ToSet(order)) && Validates(db, order)
      ensures old(budget) >= 1 && Validates(Finished(old(db), ToSet(order)), order) ==> ok
    {
      DoneIsEmpty(db, order);
      KeptRefl(db, order);
      RecordKeeps(db, order);
      DoneValidates(db, order);
      ok := Validate(order);
      if ok {
        ok := Execute(Record);
      }
    }

    /** One run of the migrator over the columns. Wherever it stops the database
        holds, and a run that is not cut short ends in the one final state. A column
        with a foreign layout ends the run with the columns before it moved, itself and
        all others as they were, and no receipt. */
    method Reconcile(order: seq<Column>) returns (ok: bool)
      requires Sound(db) && Distinct(order)
      modifies this
      ensures Holds(old(db), db, order[..Movable(old(db), order)])
      ensures forall c :: c in db.owners && c !in order[..Movable(old(db), order)] ==> db.owners[c] == old(db).owners[c]
      ensures Movable(old(db), order) < |order| ==> !ok && db.recorded == old(db).recorded
      ensures Movable(old(db), order) < |order| && old(budget) >= 3 * Movable(old(db), order) + 2 ==>
                forall c :: c in order[..Movable(old(db), order)] ==> db.owners[c].keys == Done(c)
      ensures ok ==> db == Finished(old(db), ToSet(order)) && Validates(db, order)
      ensures Movable(old(db), order) == |order| && Validates(Finished(old(db), ToSet(order)), order) ==>
                old(budget) >= 3 * |order| + 3 ==> ok
    {
      ghost var start, ready := db, Movable(db, order);
      ghost var moved := order[..ready];
      ok := Prepare(moved);
      KeptHolds(start, db, moved);
      if !ok {
        return;
      }
      ghost var prepared := db;
      ok := Visit(order, ready);
      KeptTrans(start, prepared, db, moved);
      KeptHolds(start, db, moved);
      if !ok {
        return;
      }
      assert moved == order;
      ghost var visited := db;
      ok := Conclude(order);
      KeptTrans(start, visited, db, order);
      KeptHolds(start, db, order);
    }
  }

  lemma {:induction false} DoneIsEmpty(d: Database, order: seq<Column>)
    requires Ready(d, order) && forall c :: c in order ==> d.owners[c].keys == Done(c)
    ensures ColumnScript(d, order) == []
    decreases |order|
  {
    if order != [] {
      ReadyTail(d, order);
      assert forall c :: c in order[1..] ==> c in order;
      assert order[0] in order;
      NamesDiffer(order[0]);
      DoneIsEmpty(d, order[1..]);
    }
  }

  lemma DoneValidates(d: Database, order: seq<Column>)
    requires Ready(d, order) && Copied(d) && forall c :: c in order ==> d.owners[c].keys == Done(c)
    ensures Validates(d, order) <==> Validates(Finished(d, ToSet(order)), order)
    ensures Validates(d, order) <==> Validates(Exec(d, Record), order)
  {
    if !d.recorded {
      assert d.subjects.value + d.users == d.subjects.value;
    }
  }

  lemma ExecFew(d: Database, a: Statement, b: Statement)
    ensures ExecAll(d, []) == d && ExecAll(d, [a]) == Exec(d, a) && ExecAll(d, [a, b]) == Exec(Exec(d, a), b)
  {
    ExecOne(d, a);
    assert [a, b][1..] == [b];
    ExecOne(Exec(d, a), b);
  }

  /** What survives of the at most two statements of a moved column. */
  lemma MovedPlans(c: Column, d: Database, keys: Keys, budget: nat)
    requires Moved(c, keys)
    ensures var s, add, drop := Surviving(c, keys, budget), Alter(c, AddCanonical), Alter(c, DropTemporary);
            if Canonical(c) in keys then
              s == if Temporary(c) in keys && budget > 0 then [drop] else []
            else
              s == if budget == 0 then [] else if budget == 1 then [add] else [add, drop]
    ensures var add, drop := Alter(c, AddCanonical), Alter(c, DropTemporary);
            ExecAll(d, []) == d && ExecAll(d, [add]) == Exec(d, add) && ExecAll(d, [drop]) == Exec(d, drop)
            && ExecAll(d, [add, drop]) == Exec(Exec(d, add), drop)
  {
    NamesDiffer(c);
    MovedShapes(c, keys);
    ExecFew(d, Alter(c, AddCanonical), Alter(c, DropTemporary));
    ExecFew(d, Alter(c, DropTemporary), Alter(c, DropTemporary));
  }

  /** Retargeting commits first; the rest is the plan of the temporary layout. */
  lemma RetargetedPlan(c: Column, keys: Keys, d: Database, budget: nat)
    requires Old(c, keys, false) && budget > 0
    ensures var t := map[Temporary(c) := Subjects];
            var first := Alter(c, Retarget(OnlyName(keys)));
            && Altered(c, keys, Retarget(OnlyName(keys))) == Some(t)
            && Moved(c, t) && !Moved(c, keys) && |Plan(c, keys)| == 1 + |Plan(c, t)|
            && Surviving(c, keys, budget) == [first] + Surviving(c, t, budget - 1)
            && ExecAll(d, Surviving(c, keys, budget)) == ExecAll(Exec(d, first), Surviving(c, t, budget - 1))
  {
    var t := map[Temporary(c) := Subjects];
    var name := OnlyName(keys);
    SingletonKeys(keys);
    NamesDiffer(c);
    assert (keys - {name})[Temporary(c) := Subjects] == t;
    PlanKinds(c, keys, false);
    PlanKinds(c, t, false);
    AltersPrefix(c, Plan(c, keys), Smaller(budget, |Plan(c, keys)|));
    ExecCons(d, Alter(c, Retarget(name)), Surviving(c, t, budget - 1));
  }
}
