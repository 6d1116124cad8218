/** The partition of a test inventory into profiles, and of a profile into groups
    that a test runner selects by packages and exact names. */
module TestPlan {
  import opened Wrappers
  import opened Names

  const JOBSTORE := "./internal/adapters/persistence/jobstore"
  const COPYSTORE := "./internal/adapters/persistence/platformstore"
  const MAX_PACKAGE_TESTS := 32

  datatype Test = Test(package: string, name: string)

  datatype Entry = Entry(package: string, test: string, reason: string, scale: string)

  datatype Profile = Profile(version: int, extended: seq<Entry>)

  predicate WordChar(c: char) {
    'a' <= c <= 'z' || 'A' <= c <= 'Z' || '0' <= c <= '9' || c == '_'
  }

  /** Test\w+ */
  predicate TestName(name: string) {
    |name| > 4 && name[..4] == "Test" && forall i :: 4 <= i < |name| ==> WordChar(name[i])
  }

  lemma TestNameExactly(name: string)
    ensures TestName(name) <==>
            exists rest :: name == "Test" + rest && rest != ""
                           && forall c :: c in rest ==> Digit(c) || Letter(c) || c as int == 95
  {
    if TestName(name) {
      var rest := name[4..];
      assert name == "Test" + rest;
      assert forall i :: 0 <= i < |rest| ==> rest[i] == name[i + 4];
    }
    if rest :| name == "Test" + rest && rest != ""
               && forall c :: c in rest ==> Digit(c) || Letter(c) || c as int == 95 {
      assert forall i :: 4 <= i < |name| ==> name[i] == rest[i - 4] && name[i] in rest;
    }
  }

  ghost predicate Digit(c: char) {
    48 <= c as int <= 57
  }

  ghost predicate Letter(c: char) {
    65 <= c as int <= 90 || 97 <= c as int <= 122
  }

  /** What str.strip removes. */
  predicate Space(c: char) {
    var n := c as int;
    || 9 <= n <= 13 || 28 <= n <= 32 || n == 0x85 || n == 0xa0 || n == 0x1680 || 0x2000 <= n <= 0x200a
    || n == 0x2028 || n == 0x2029 || n == 0x202f || n == 0x205f || n == 0x3000
  }

  predicate Blank(text: string) {
    forall i :: 0 <= i < |text| ==> Space(text[i])
  }

  function KeyOf(e: Entry): Test {
    Test(e.package, e.test)
  }

  function Keys(entries: seq<Entry>): set<Test> {
    set i | 0 <= i < |entries| :: KeyOf(entries[i])
  }

  predicate Reviewed(e: Entry) {
    && 2 <= |e.package| && e.package[..2] == "./" && TestName(e.test)
    && !Blank(e.reason) && !Blank(e.scale)
  }

  lemma KeysExactly(entries: seq<Entry>, t: Test)
    ensures t in Keys(entries) <==> exists e :: e in entries && e.package == t.package && e.test == t.name
  {
    if e :| e in entries && e.package == t.package && e.test == t.name {
      var i :| 0 <= i < |entries| && entries[i] == e;
      assert KeyOf(entries[i]) == t;
    }
  }

  /** The Unicode blanks written out. */
  ghost predicate White(c: char) {
    || c in " \t\n\r\U{0b}\U{0c}\U{1c}\U{1d}\U{1e}\U{1f}\U{85}\U{a0}\U{1680}"
    || c in "\U{2028}\U{2029}\U{202f}\U{205f}\U{3000}" || '\U{2000}' <= c <= '\U{200a}'
  }

  lemma SpaceExactly(c: char)
    ensures Space(c) <==> White(c)
  {
  }

  lemma BlankExactly(text: string)
    ensures Blank(text) <==> forall c :: c in text ==> White(c)
  {
    forall c
      ensures Space(c) <==> White(c)
    {
      SpaceExactly(c);
    }
  }

  /** An entry names a test of the module exactly and says why and how large. */
  lemma ReviewedExactly(e: Entry)
    ensures Reviewed(e) <==>
            && (exists path :: e.package == "./" + path) && TestName(e.test)
            && (exists c :: c in e.reason && !White(c)) && (exists c :: c in e.scale && !White(c))
  {
    BlankExactly(e.reason);
    BlankExactly(e.scale);
    if Reviewed(e) {
      assert e.package == "./" + e.package[2..];
    }
  }

  // -------------------------------------------------------------- inventory

  predicate MentionsMySQL(name: string) {
    exists i :: 0 <= i <= |name| && "MySQL" <= name[i..]
  }

  /** What the two listing runs find among all tests: every name the inventory
      expression matches, and the whole jobs package. */
  predicate Matches(name: string, profile: Profile) {
    MentionsMySQL(name) || exists i :: 0 <= i < |profile.extended| && profile.extended[i].test == name
  }

  function Inventory(all: set<Test>, profile: Profile): set<Test> {
    set t | t in all && TestName(t.name) && (Matches(t.name, profile) || t.package == JOBSTORE)
  }

  lemma MentionsExactly(name: string)
    ensures MentionsMySQL(name) <==> exists front, back :: name == front + "MySQL" + back
  {
    if MentionsMySQL(name) {
      var i :| 0 <= i <= |name| && "MySQL" <= name[i..];
      assert name == name[..i] + "MySQL" + name[i + 5..];
    }
    if front, back :| name == front + "MySQL" + back {
      assert name[|front|..] == "MySQL" + back;
    }
  }

  /** A test is planned exactly when it carries a test name and its name holds MySQL
      somewhere, or the profile lists the name, or it belongs to the jobs package. */
  lemma InventoryExactly(all: set<Test>, profile: Profile, t: Test)
    ensures t in Inventory(all, profile) <==>
            && t in all && TestName(t.name)
            && (|| (exists front, back :: t.name == front + "MySQL" + back)
                || (exists e :: e in profile.extended && e.test == t.name)
                || t.package == "./internal/adapters/persistence/jobstore")
  {
    MentionsExactly(t.name);
    if exists e :: e in profile.extended && e.test == t.name {
      var e :| e in profile.extended && e.test == t.name;
      var i :| 0 <= i < |profile.extended| && profile.extended[i] == e;
      assert profile.extended[i].test == t.name;
    }
  }

  // -------------------------------------------------------------- partition

  /** Every entry is reviewed, known and listed once, and neither side is empty. */
  predicate ValidProfile(profile: Profile, inventory: set<Test>) {
    && profile.version == 1 && inventory != {}
    && (forall i :: 0 <= i < |profile.extended| ==>
          Reviewed(profile.extended[i]) && KeyOf(profile.extended[i]) in inventory)
    && (forall i, j :: 0 <= i < j < |profile.extended| ==> KeyOf(profile.extended[i]) != KeyOf(profile.extended[j]))
    && profile.extended != [] && Keys(profile.extended) != inventory
  }

  ghost predicate Distinct(e: Entry, d: Entry) {
    e.package != d.package || e.test != d.test
  }

  /** A profile is accepted exactly when its version is 1, each entry is reviewed, of the
      inventory and unlike the others, and some test is listed and some is not. */
  lemma ValidProfileExactly(profile: Profile, inventory: set<Test>)
    ensures ValidProfile(profile, inventory) <==>
            && profile.version == 1
            && (forall e :: e in profile.extended ==> Reviewed(e) && Test(e.package, e.test) in inventory)
            && (forall i, j :: 0 <= i < j < |profile.extended| ==>
                                 Distinct(profile.extended[i], profile.extended[j]))
            && |profile.extended| > 0 && (exists t :: t in inventory && Unlisted(t, profile))
  {
    forall t: Test
      ensures t in Keys(profile.extended) <==> !Unlisted(t, profile)
    {
      KeysExactly(profile.extended, t);
    }
    if ValidProfile(profile, inventory) {
      assert Keys(profile.extended) <= inventory;
    }
  }

  ghost predicate Unlisted(t: Test, profile: Profile) {
    forall e :: e in profile.extended ==> e.package != t.package || e.test != t.name
  }

  datatype Partitions = Partitions(core: set<Test>, extended: set<Test>)

  method Partition(inventory: set<Test>, profile: Profile) returns (r: Option<Partitions>)
    ensures r.Some? <==> ValidProfile(profile, inventory)
    ensures r.Some? ==> r.value.extended == Keys(profile.extended)
    ensures r.Some? ==> r.value.core + r.value.extended == inventory && r.value.core !! r.value.extended
    ensures r.Some? ==> r.value.core != {} && r.value.extended != {}
  {
    if profile.version != 1 || inventory == {} {
      return None;
    }
    var extended: set<Test> := {};
    for i := 0 to |profile.extended|
      invariant extended == Keys(profile.extended[..i]) && extended <= inventory
      invariant forall k :: 0 <= k < i ==>
                              Reviewed(profile.extended[k]) && KeyOf(profile.extended[k]) in inventory
      invariant forall k, l :: 0 <= k < l < i ==> KeyOf(profile.extended[k]) != KeyOf(profile.extended[l])
    {
      var entry := profile.extended[i];
      KeysSnoc(profile.extended, i);
      if !Reviewed(entry) || KeyOf(entry) !in inventory {
        return None;
      }
      if KeyOf(entry) in extended {
        var k :| 0 <= k < i && KeyOf(profile.extended[k]) == KeyOf(entry);
        return None;
      }
      extended := extended + {KeyOf(entry)};
    }
    assert profile.extended[..|profile.extended|] == profile.extended;
    assert profile.extended != [] ==> KeyOf(profile.extended[0]) in extended;
    var core := inventory - extended;
    NothingLeft(inventory, extended);
    if core == {} || extended == {} {
      return None;
    }
    return Some(Partitions(core, extended));
  }

  lemma NothingLeft(all: set<Test>, some: set<Test>)
    requires some <= all
    ensures all - some == {} <==> some == all
  {
    if all - some == {} {
      assert forall t :: t in all ==> t in some || t in all - some;
    }
  }

  lemma KeysSnoc(entries: seq<Entry>, i: nat)
    requires i < |entries|
    ensures Keys(entries[..i + 1]) == Keys(entries[..i]) + {KeyOf(entries[i])}
    ensures forall t :: t in Keys(entries[..i]) <==> exists k :: 0 <= k < i && KeyOf(entries[k]) == t
  {
    assert forall k :: 0 <= k < i ==> entries[..i][k] == entries[k] == entries[..i + 1][k];
    assert entries[..i + 1][i] == entries[i];
  }

  // ------------------------------------------------------------------ groups

  /** One runner invocation: its packages, the names of its positive expression,
      and the tests the plan expects of it. */
  datatype Group = Group(packages: seq<string>, names: set<string>, expected: set<Test>)

  /** What the runner executes: the named tests of the packages. */
  function Selects(g: Group, tests: set<Test>): set<Test> {
    set t | t in tests && t.package in g.packages && t.name in g.names
  }

  function InPackage(tests: set<Test>, package: string): set<Test> {
    set t | t in tests && t.package == package
  }

  /** 0 for business packages, 1 for jobs, 2 for the copy. */
  function SuiteOf(package: string): nat {
    if package == JOBSTORE then 1 else if package == COPYSTORE then 2 else 0
  }

  function InSuite(tests: set<Test>, suite: nat): set<Test> {
    set t | t in tests && SuiteOf(t.package) == suite
  }

  predicate Bounded(g: Group) {
    forall p :: p in g.packages ==> |InPackage(g.expected, p)| <= MAX_PACKAGE_TESTS
  }

  /** The jobs and the copy share their run with no other package. */
  predicate Apart(g: Group) {
    forall p, q :: p in g.packages && q in g.packages ==> SuiteOf(p) == SuiteOf(q)
  }

  /** Among all tests of the module it runs exactly what the plan expects. */
  predicate Sound(g: Group, all: set<Test>) {
    Selects(g, all) == g.expected && Bounded(g) && Apart(g)
  }

  function Expected(plan: seq<Group>): seq<set<Test>> {
    if plan == [] then [] else Expected(plan[..|plan| - 1]) + [plan[|plan| - 1].expected]
  }

  function Total(parts: seq<set<Test>>): nat {
    if parts == [] then 0 else Total(parts[..|parts| - 1]) + |parts[|parts| - 1]|
  }

  /** Pairwise disjoint sets that together are `done`. */
  ghost predicate Parts(parts: seq<set<Test>>, done: set<Test>) {
    && (forall i :: 0 <= i < |parts| ==> parts[i] <= done)
    && (forall t :: t in done ==> exists i :: 0 <= i < |parts| && t in parts[i])
    && (forall i, j :: 0 <= i < j < |parts| ==> parts[i] !! parts[j])
  }

  lemma PartsSnoc(parts: seq<set<Test>>, done: set<Test>, part: set<Test>)
    requires Parts(parts, done) && part !! done
    ensures Parts(parts + [part], done + part)
  {
    var after := parts + [part];
    forall t | t in done + part
      ensures exists i :: 0 <= i < |after| && t in after[i]
    {
      if t in done {
        var i :| 0 <= i < |parts| && t in parts[i];
        assert t in after[i];
      } else {
        assert t in after[|parts|];
      }
    }
  }

  lemma {:induction false} PartsTotal(parts: seq<set<Test>>, done: set<Test>)
    requires Parts(parts, done)
    ensures Total(parts) == |done|
  {
    if parts == [] {
      assert done == {};
    } else {
      var n := |parts| - 1;
      var front := done - parts[n];
      forall t | t in front
        ensures exists i :: 0 <= i < n && t in parts[..n][i]
      {
        var i :| 0 <= i < |parts| && t in parts[i];
        assert t in parts[..n][i];
      }
      PartsTotal(parts[..n], front);
      assert done == front + parts[n];
    }
  }

  predicate AllSound(plan: seq<Group>, all: set<Test>) {
    forall i :: 0 <= i < |plan| ==> Sound(plan[i], all)
  }

  /** Sound groups that together expect exactly `done`, each test in one group. */
  ghost predicate Covers(plan: seq<Group>, done: set<Test>, all: set<Test>) {
    AllSound(plan, all) && Parts(Expected(plan), done)
  }

  lemma CoversSnoc(plan: seq<Group>, done: set<Test>, g: Group, all: set<Test>)
    requires Covers(plan, done, all) && Sound(g, all) && g.expected !! done
    ensures Covers(plan + [g], done + g.expected, all)
  {
    assert (plan + [g])[..|plan|] == plan;
    PartsSnoc(Expected(plan), done, g.expected);
  }

  function TestsOf(package: string, names: seq<string>): set<Test> {
    set i | 0 <= i < |names| :: Test(package, names[i])
  }

  function NameSet(names: seq<string>): set<string> {
    set i | 0 <= i < |names| :: names[i]
  }

  lemma {:induction false} TestsOfSize(package: string, names: seq<string>)
    ensures |TestsOf(package, names)| <= |names|
  {
    if names != [] {
      var n := |names| - 1;
      TestsOfSize(package, names[..n]);
      assert TestsOf(package, names) == TestsOf(package, names[..n]) + {Test(package, names[n])};
    }
  }

  /** A batch of at most 32 names of one package selects exactly its own tests. */
  lemma BatchSound(package: string, batch: seq<string>, all: set<Test>)
    requires |batch| <= MAX_PACKAGE_TESTS && TestsOf(package, batch) <= all
    ensures Sound(Group([package], NameSet(batch), TestsOf(package, batch)), all)
  {
    var g := Group([package], NameSet(batch), TestsOf(package, batch));
    TestsOfSize(package, batch);
    assert InPackage(g.expected, package) == g.expected;
    forall t
      ensures t in Selects(g, all) <==> t in g.expected
    {
      if t in Selects(g, all) {
        var i :| 0 <= i < |batch| && batch[i] == t.name;
        assert Test(package, batch[i]) == t;
      }
    }
  }

  lemma NextBatch(package: string, names: seq<string>, offset: nat, end: nat)
    requires offset <= end <= |names|
    requires forall i, j :: 0 <= i < j < |names| ==> names[i] != names[j]
    ensures TestsOf(package, names[..end]) == TestsOf(package, names[..offset]) + TestsOf(package, names[offset..end])
    ensures TestsOf(package, names[..offset]) !! TestsOf(package, names[offset..end])
    ensures TestsOf(package, names[offset..end]) <= TestsOf(package, names)
  {
    var all, front, back := names[..end], names[..offset], names[offset..end];
    assert forall i :: 0 <= i < offset ==> all[i] == front[i] == names[i];
    assert forall i :: 0 <= i < end - offset ==> back[i] == all[offset + i] == names[offset + i];
    assert forall i :: offset <= i < end ==> all[i] == back[i - offset];
  }

  /** One oversized package: its sorted names, 32 at a time. */
  method SplitPackage(before: seq<Group>, ghost done: set<Test>, package: string, wanted: set<Test>,
                      ghost all: set<Test>) returns (plan: seq<Group>)
    requires Covers(before, done, all) && wanted <= all && InPackage(wanted, package) !! done
    ensures Covers(plan, done + InPackage(wanted, package), all)
  {
    var found := set t | t in wanted && t.package == package :: t.name;
    var names := Sorted(found);
    SortedLists(found);
    SortedDistinct(found);
    PackageTests(wanted, package, names);
    plan := before;
    var offset := 0;
    assert done + TestsOf(package, names[..0]) == done;
    while offset < |names|
      invariant 0 <= offset <= |names|
      invariant Covers(plan, done + TestsOf(package, names[..offset]), all)
    {
      var end := if offset + MAX_PACKAGE_TESTS < |names| then offset + MAX_PACKAGE_TESTS else |names|;
      var batch := names[offset..end];
      NextBatch(package, names, offset, end);
      BatchSound(package, batch, all);
      var g := Group([package], NameSet(batch), TestsOf(package, batch));
      CoversSnoc(plan, done + TestsOf(package, names[..offset]), g, all);
      assert done + TestsOf(package, names[..end]) == done + TestsOf(package, names[..offset]) + g.expected;
      plan := plan + [g];
      offset := end;
    }
    assert names[..|names|] == names;
  }

  lemma PackageTests(wanted: set<Test>, package: string, names: seq<string>)
    requires forall n :: n in names <==> n in (set t | t in wanted && t.package == package :: t.name)
    ensures TestsOf(package, names) == InPackage(wanted, package)
  {
    forall t
      ensures t in TestsOf(package, names) <==> t in InPackage(wanted, package)
    {
      if t in InPackage(wanted, package) {
        assert t.name in names;
        var i :| 0 <= i < |names| && names[i] == t.name;
        assert Test(package, names[i]) == t;
      }
      if t in TestsOf(package, names) {
        assert t.name in names;
        var u :| u in wanted && u.package == package && u.name == t.name;
        assert u == t;
      }
    }
  }

  // ------------------------------------------------------------- the profile

  /** Equal names in one suite stay together: the inventory misses no test that a
      group's expression could reach. */
  predicate Closed(all: set<Test>, inventory: set<Test>) {
    && inventory <= all
    && forall t, u :: t in all && u in inventory && t.name == u.name && SuiteOf(t.package) == SuiteOf(u.package) ==>
                        t in inventory
  }

  lemma InventoryIsClosed(all: set<Test>, profile: Profile)
    ensures Closed(all, Inventory(all, profile))
  {
  }

  /** Packages of one suite that have selected tests. */
  function PackagesOf(selection: set<Test>, suite: nat): set<string> {
    set t | t in selection && SuiteOf(t.package) == suite :: t.package
  }

  function NamesOf(selection: set<Test>, suite: nat): set<string> {
    set t | t in selection && SuiteOf(t.package) == suite :: t.name
  }

  /** A test outside the selection that the group's packages and names re-add. */
  predicate Readded(t: Test, selection: set<Test>) {
    && t !in selection
    && (exists u :: u in selection && u.package == t.package)
    && (exists u :: u in selection && u.name == t.name && SuiteOf(u.package) == SuiteOf(t.package))
  }

  ghost predicate Collides(selection: set<Test>, inventory: set<Test>) {
    exists t :: t in inventory && Readded(t, selection)
  }

  function Actual(inventory: set<Test>, packages: set<string>, names: set<string>): set<Test> {
    set t | t in inventory && t.package in packages && t.name in names
  }

  /** The check on one suite fails exactly for a re-added test of that suite. */
  lemma ActualExactly(selection: set<Test>, inventory: set<Test>, suite: nat, t: Test)
    requires selection <= inventory
    ensures t in Actual(inventory, PackagesOf(selection, suite), NamesOf(selection, suite)) <==>
            t in InSuite(selection, suite) || (t in inventory && Readded(t, selection) && SuiteOf(t.package) == suite)
  {
    if t in InSuite(selection, suite) {
      assert t.package in PackagesOf(selection, suite) && t.name in NamesOf(selection, suite);
    }
    if t in inventory && Readded(t, selection) && SuiteOf(t.package) == suite {
      var u :| u in selection && u.package == t.package;
      assert u.package in PackagesOf(selection, suite);
      var v :| v in selection && v.name == t.name && SuiteOf(v.package) == SuiteOf(t.package);
      assert v.name in NamesOf(selection, suite);
    }
  }

  ghost predicate SameSuite(p: string, q: string) {
    && (p == "./internal/adapters/persistence/jobstore" <==> q == "./internal/adapters/persistence/jobstore")
    && (p == "./internal/adapters/persistence/platformstore" <==> q == "./internal/adapters/persistence/platformstore")
  }

  lemma SuiteExactly(p: string, q: string)
    ensures SuiteOf(p) == SuiteOf(q) <==> SameSuite(p, q)
    ensures 0 <= SuiteOf(p) < 3
  {
  }

  /** The test t is left out although u of its package and v of its name and suite are not. */
  ghost predicate LeftOut(t: Test, u: Test, v: Test, selection: set<Test>, inventory: set<Test>) {
    && t in inventory && t !in selection && u in selection && v in selection
    && u.package == t.package && v.name == t.name && SameSuite(t.package, v.package)
  }

  lemma ReaddedIsLeftOut(t: Test, selection: set<Test>, inventory: set<Test>)
    requires t in inventory && Readded(t, selection)
    ensures exists u, v :: LeftOut(t, u, v, selection, inventory)
  {
    var u :| u in selection && u.package == t.package;
    var v :| v in selection && v.name == t.name && SuiteOf(v.package) == SuiteOf(t.package);
    SuiteExactly(t.package, v.package);
    assert LeftOut(t, u, v, selection, inventory);
  }

  lemma LeftOutIsReadded(t: Test, u: Test, v: Test, selection: set<Test>, inventory: set<Test>)
    requires LeftOut(t, u, v, selection, inventory)
    ensures Readded(t, selection)
  {
    SuiteExactly(t.package, v.package);
  }

  /** A selection collides exactly when a test is left out of it although its package
      is selected from and its name is selected in a package of the same suite. */
  lemma CollidesExactly(selection: set<Test>, inventory: set<Test>)
    ensures Collides(selection, inventory) <==> exists t, u, v :: LeftOut(t, u, v, selection, inventory)
  {
    if Collides(selection, inventory) {
      var t :| t in inventory && Readded(t, selection);
      ReaddedIsLeftOut(t, selection, inventory);
    }
    if t, u, v :| LeftOut(t, u, v, selection, inventory) {
      LeftOutIsReadded(t, u, v, selection, inventory);
    }
  }

  /** A whole suite in one invocation. */
  lemma SuiteSound(selection: set<Test>, inventory: set<Test>, all: set<Test>, suite: nat, g: Group)
    requires selection <= inventory && Closed(all, inventory)
    requires Actual(inventory, PackagesOf(selection, suite), NamesOf(selection, suite)) == InSuite(selection, suite)
    requires (forall p :: p in g.packages <==> p in PackagesOf(selection, suite))
    requires g.names == NamesOf(selection, suite) && g.expected == InSuite(selection, suite)
    ensures Selects(g, all) == g.expected && Apart(g)
  {
    forall t | t in Selects(g, all)
      ensures t in g.expected
    {
      var u :| u in selection && SuiteOf(u.package) == suite && u.name == t.name;
      assert SuiteOf(t.package) == suite;
      assert t in inventory;
      assert t in Actual(inventory, PackagesOf(selection, suite), NamesOf(selection, suite));
    }
    forall t | t in g.expected
      ensures t in Selects(g, all)
    {
      assert t in Actual(inventory, PackagesOf(selection, suite), NamesOf(selection, suite));
    }
  }

  /** An oversized suite: every package in batches of its own. */
  method SplitSuite(before: seq<Group>, ghost done: set<Test>, packages: seq<string>, wanted: set<Test>,
                    ghost all: set<Test>) returns (plan: seq<Group>)
    requires Covers(before, done, all) && wanted <= all && done !! wanted
    requires forall i, j :: 0 <= i < j < |packages| ==> packages[i] != packages[j]
    ensures Covers(plan, done + OfPackages(wanted, packages), all)
  {
    plan := before;
    assert done + OfPackages(wanted, []) == done;
    for n := 0 to |packages|
      invariant Covers(plan, done + OfPackages(wanted, packages[..n]), all)
    {
      NextPackage(wanted, packages, n);
      plan := SplitPackage(plan, done + OfPackages(wanted, packages[..n]), packages[n], wanted, all);
      assert done + OfPackages(wanted, packages[..n + 1]) ==
             done + OfPackages(wanted, packages[..n]) + InPackage(wanted, packages[n]);
    }
    assert packages[..|packages|] == packages;
  }

  lemma SuiteHasPackages(selection: set<Test>, suite: nat)
    ensures InSuite(selection, suite) != {} ==> PackagesOf(selection, suite) != {}
  {
    if t :| t in InSuite(selection, suite) {
      assert t.package in PackagesOf(selection, suite);
    }
  }

  /** No package is oversized. */
  ghost predicate Light(tests: set<Test>) {
    forall package :: |InPackage(tests, package)| <= 32
  }

  lemma SmallerSet(part: set<Test>, whole: set<Test>)
    requires part <= whole
    ensures |part| <= |whole|
  {
    assert whole == part + (whole - part);
  }

  lemma LightPart(part: set<Test>, whole: set<Test>)
    requires part <= whole && Light(whole)
    ensures Light(part)
  {
    forall package
      ensures |InPackage(part, package)| <= 32
    {
      SmallerSet(InPackage(part, package), InPackage(whole, package));
    }
  }

  /** The groups of one suite: one invocation, or batches per package when some
      package holds more than 32 of its tests. */
  method GroupSuite(before: seq<Group>, ghost done: set<Test>, suite: nat, selection: set<Test>,
                    inventory: set<Test>, ghost all: set<Test>) returns (r: Option<seq<Group>>)
    requires Covers(before, done, all) && done !! InSuite(selection, suite)
    requires selection <= inventory && Closed(all, inventory)
    ensures r.Some? <==>
            Actual(inventory, PackagesOf(selection, suite), NamesOf(selection, suite)) == InSuite(selection, suite)
    ensures r.Some? ==> Covers(r.value, done + InSuite(selection, suite), all)
    ensures r.Some? && Light(selection) ==> |r.value| <= |before| + 1
  {
    var packages := Sorted(PackagesOf(selection, suite));
    SortedLists(PackagesOf(selection, suite));
    SortedDistinct(PackagesOf(selection, suite));
    var names := NamesOf(selection, suite);
    var wanted := InSuite(selection, suite);
    if Actual(inventory, PackagesOf(selection, suite), names) != wanted {
      return None;
    }
    if packages == [] {
      SuiteHasPackages(selection, suite);
      assert PackagesOf(selection, suite) == {};
      assert done + InSuite(selection, suite) == done;
      return Some(before);
    }
    if forall p :: p in packages ==> |InPackage(wanted, p)| <= MAX_PACKAGE_TESTS {
      var g := Group(packages, names, wanted);
      SuiteSound(selection, inventory, all, suite, g);
      CoversSnoc(before, done, g, all);
      return Some(before + [g]);
    }
    if Light(selection) {
      LightPart(wanted, selection);
    }
    assert OfPackages(wanted, packages) == wanted;
    var plan := SplitSuite(before, done, packages, wanted, all);
    return Some(plan);
  }

  function OfPackages(tests: set<Test>, packages: seq<string>): set<Test> {
    set t | t in tests && t.package in packages
  }

  lemma NextPackage(tests: set<Test>, packages: seq<string>, n: nat)
    requires n < |packages|
    requires forall i, j :: 0 <= i < j < |packages| ==> packages[i] != packages[j]
    ensures OfPackages(tests, packages[..n + 1]) == OfPackages(tests, packages[..n]) + InPackage(tests, packages[n])
    ensures OfPackages(tests, packages[..n]) !! InPackage(tests, packages[n])
  {
    assert packages[..n + 1] == packages[..n] + [packages[n]];
  }

  lemma {:induction false} ExpectedAt(plan: seq<Group>, i: nat)
    requires i < |plan|
    ensures |Expected(plan)| == |plan| && Expected(plan)[i] == plan[i].expected
  {
    if |plan| > 1 {
      ExpectedAt(plan[..|plan| - 1], if i < |plan| - 1 then i else 0);
    }
  }

  ghost predicate InSome(t: Test, plan: seq<Group>, n: nat)
    requires n <= |plan|
  {
    exists i :: 0 <= i < n && t in plan[i].expected
  }

  lemma InSomeStep(t: Test, plan: seq<Group>, n: nat)
    requires n < |plan|
    ensures InSome(t, plan, n + 1) <==> InSome(t, plan, n) || t in plan[n].expected
  {
  }

  lemma TotalStep(plan: seq<Group>, n: nat)
    requires n < |plan|
    ensures Total(Expected(plan[..n + 1])) == Total(Expected(plan[..n])) + |plan[n].expected|
  {
    assert plan[..n + 1][..n] == plan[..n];
  }

  /** The union of what the groups expect, and the sum of their sizes. */
  method Covered(plan: seq<Group>) returns (covered: set<Test>, sum: nat)
    ensures forall t :: t in covered <==> exists i :: 0 <= i < |plan| && t in plan[i].expected
    ensures sum == Total(Expected(plan))
  {
    covered, sum := {}, 0;
    for n := 0 to |plan|
      invariant forall t :: t in covered <==> InSome(t, plan, n)
      invariant sum == Total(Expected(plan[..n]))
    {
      TotalStep(plan, n);
      forall t
        ensures InSome(t, plan, n + 1) <==> InSome(t, plan, n) || t in plan[n].expected
      {
        InSomeStep(t, plan, n);
      }
      covered, sum := covered + plan[n].expected, sum + |plan[n].expected|;
    }
    assert plan[..|plan|] == plan;
  }

  /** The final coverage check of the plan never fails on groups that cover. */
  lemma CoveredIsSelection(plan: seq<Group>, selection: set<Test>, all: set<Test>, covered: set<Test>)
    requires Covers(plan, selection, all)
    requires forall t :: t in covered <==> exists i :: 0 <= i < |plan| && t in plan[i].expected
    ensures covered == selection && Total(Expected(plan)) == |selection|
  {
    PartsTotal(Expected(plan), selection);
    if plan != [] {
      ExpectedAt(plan, 0);
    }
    forall t
      ensures t in covered <==> t in selection
    {
      if t in covered {
        var i :| 0 <= i < |plan| && t in plan[i].expected;
        ExpectedAt(plan, i);
      }
      if t in selection {
        var i :| 0 <= i < |Expected(plan)| && t in Expected(plan)[i];
        ExpectedAt(plan, i);
      }
    }
  }

  /** The execution groups of one profile. It fails exactly when some shared name
      would re-add a test that was not selected. There is one for each suite, unless
      some package is oversized. */
  method Groups(selection: set<Test>, inventory: set<Test>, ghost all: set<Test>) returns (r: Option<seq<Group>>)
    requires selection <= inventory && Closed(all, inventory)
    ensures r.None? <==> Collides(selection, inventory)
    ensures r.Some? ==> Covers(r.value, selection, all)
    ensures r.Some? && Light(selection) ==> |r.value| <= 3
  {
    var plan: seq<Group> := [];
    ghost var done: set<Test> := {};
    for suite := 0 to 3
      invariant done == set t | t in selection && SuiteOf(t.package) < suite
      invariant forall t :: t in inventory && SuiteOf(t.package) < suite ==> !Readded(t, selection)
      invariant Covers(plan, done, all) && (Light(selection) ==> |plan| <= suite)
    {
      forall t
        ensures t in Actual(inventory, PackagesOf(selection, suite), NamesOf(selection, suite)) <==>
                || t in InSuite(selection, suite)
                || (t in inventory && Readded(t, selection) && SuiteOf(t.package) == suite)
      {
        ActualExactly(selection, inventory, suite, t);
      }
      var part := GroupSuite(plan, done, suite, selection, inventory, all);
      if part.None? {
        return None;
      }
      plan := part.value;
      done := done + InSuite(selection, suite);
    }
    assert done == selection;
    var covered, sum := Covered(plan);
    CoveredIsSelection(plan, selection, all, covered);
    r := if covered != selection || sum != |selection| then None else Some(plan);
  }

  // ----------------------------------------------------------- the full plan

  datatype Choice = Core | Extended | Full

  function Mandatory(): set<string> {
    {"./internal/datastore", "./internal/handler", "./internal/application",
     "./internal/adapters/persistence/networkstore", JOBSTORE, COPYSTORE}
  }

  function Chosen(parts: Partitions, choice: Choice): set<Test> {
    match choice
    case Core => parts.core
    case Extended => parts.extended
    case Full => parts.core + parts.extended
  }

  lemma {:induction false} CoversConcat(a: seq<Group>, first: set<Test>, b: seq<Group>, second: set<Test>,
                                        all: set<Test>)
    requires Covers(a, first, all) && Covers(b, second, all) && first !! second
    ensures Covers(a + b, first + second, all)
    decreases |b|
  {
    if b == [] {
      assert a + b == a && second == {};
    } else {
      var n := |b| - 1;
      LastGroup(b, second, all);
      CoversConcat(a, first, b[..n], second - b[n].expected, all);
      CoversSnoc(a + b[..n], first + (second - b[n].expected), b[n], all);
      assert a + b == a + b[..n] + [b[n]];
      assert first + second == first + (second - b[n].expected) + b[n].expected;
    }
  }

  lemma LastGroup(b: seq<Group>, second: set<Test>, all: set<Test>)
    requires b != [] && Covers(b, second, all)
    ensures Covers(b[..|b| - 1], second - b[|b| - 1].expected, all)
    ensures Sound(b[|b| - 1], all) && b[|b| - 1].expected <= second
  {
    var n := |b| - 1;
    var parts := Expected(b);
    ExpectedAt(b, n);
    assert Expected(b[..n]) == parts[..n];
    forall t | t in second - b[n].expected
      ensures exists i :: 0 <= i < n && t in parts[..n][i]
    {
      var i :| 0 <= i < |parts| && t in parts[i];
      assert t in parts[..n][i];
    }
  }

  /** Every planned test is run by exactly one invocation, and nothing else is run. */
  lemma PlanRunsOnce(plan: seq<Group>, selection: set<Test>, all: set<Test>, t: Test)
    requires Covers(plan, selection, all)
    ensures t in selection ==> exists i :: 0 <= i < |plan| && t in Selects(plan[i], all)
    ensures t !in selection ==> forall i :: 0 <= i < |plan| ==> t !in Selects(plan[i], all)
    ensures forall i, j :: 0 <= i < j < |plan| ==> t !in Selects(plan[i], all) || t !in Selects(plan[j], all)
  {
    forall i | 0 <= i < |plan|
      ensures |Expected(plan)| == |plan| && Selects(plan[i], all) == Expected(plan)[i]
    {
      ExpectedAt(plan, i);
    }
    if plan != [] {
      ExpectedAt(plan, 0);
    }
    if t in selection {
      var i :| 0 <= i < |Expected(plan)| && t in Expected(plan)[i];
      ExpectedAt(plan, i);
      assert t in Selects(plan[i], all);
    }
  }

  /** No invocation of a plan mixes the jobs or the copy with other packages, and none
      runs more than 32 tests of a package. */
  lemma PlanKeepsApart(plan: seq<Group>, selection: set<Test>, all: set<Test>, g: Group, p: string)
    requires Covers(plan, selection, all) && g in plan && p in g.packages
    ensures forall q :: q in g.packages ==> SameSuite(p, q)
    ensures |set t | t in g.expected && t.package == p| <= 32
  {
    var i :| 0 <= i < |plan| && plan[i] == g;
    assert Sound(plan[i], all);
    forall q | q in g.packages
      ensures SameSuite(p, q)
    {
      SuiteExactly(p, q);
    }
    assert InPackage(g.expected, p) == set t | t in g.expected && t.package == p;
  }

  /** The core choice takes what the profile does not list, the extended one what it does. */
  lemma ChosenExactly(inventory: set<Test>, profile: Profile, choice: Choice, t: Test)
    requires ValidProfile(profile, inventory)
    ensures t in Chosen(Partitions(inventory - Keys(profile.extended), Keys(profile.extended)), choice) <==>
            && t in inventory
            && (choice == Core ==> Unlisted(t, profile)) && (choice == Extended ==> !Unlisted(t, profile))
  {
    KeysExactly(profile.extended, t);
    if e :| e in profile.extended && e.package == t.package && e.test == t.name {
      assert KeyOf(e) == t;
    }
  }

  /** What has to hold for a plan to exist: exact identities in the profile, all
      mandatory packages, a reviewed partition, and no colliding selection. */
  ghost predicate Plannable(all: set<Test>, profile: Profile, choice: Choice) {
    var inventory := Inventory(all, profile);
    && (forall i :: 0 <= i < |profile.extended| ==> TestName(profile.extended[i].test))
    && (forall p :: p in Mandatory() ==> exists t :: t in inventory && t.package == p)
    && ValidProfile(profile, inventory)
    && (choice != Extended ==> !Collides(inventory - Keys(profile.extended), inventory))
    && (choice != Core ==> !Collides(Keys(profile.extended), inventory))
  }

  ghost predicate Has(inventory: set<Test>, package: string) {
    exists t :: t in inventory && t.package == package
  }

  lemma MandatoryExactly(inventory: set<Test>)
    ensures (forall p :: p in Mandatory() ==> exists t :: t in inventory && t.package == p) <==>
            && Has(inventory, "./internal/datastore") && Has(inventory, "./internal/handler")
            && Has(inventory, "./internal/application")
            && Has(inventory, "./internal/adapters/persistence/networkstore")
            && Has(inventory, "./internal/adapters/persistence/jobstore")
            && Has(inventory, "./internal/adapters/persistence/platformstore")
  {
    if forall p :: p in Mandatory() ==> Has(inventory, p) {
      assert forall p :: p in Mandatory() ==> exists t :: t in inventory && t.package == p;
    }
  }

  /** A plan exists exactly when the profile is valid, the six packages have tests and
      no chosen part collides. */
  lemma PlannableExactly(all: set<Test>, profile: Profile, choice: Choice)
    ensures var inventory := Inventory(all, profile);
            var listed := set t | t in inventory && !Unlisted(t, profile);
            Plannable(all, profile, choice) <==>
            && ValidProfile(profile, inventory)
            && Has(inventory, "./internal/datastore") && Has(inventory, "./internal/handler")
            && Has(inventory, "./internal/application")
            && Has(inventory, "./internal/adapters/persistence/networkstore")
            && Has(inventory, "./internal/adapters/persistence/jobstore")
            && Has(inventory, "./internal/adapters/persistence/platformstore")
            && (choice in {Core, Full} ==> !Collides(inventory - listed, inventory))
            && (choice in {Extended, Full} ==> !Collides(listed, inventory))
  {
    var inventory := Inventory(all, profile);
    var listed := set t | t in inventory && !Unlisted(t, profile);
    MandatoryExactly(inventory);
    if ValidProfile(profile, inventory) {
      forall t
        ensures t in listed <==> t in Keys(profile.extended)
      {
        ChosenExactly(inventory, profile, Extended, t);
      }
      assert listed == Keys(profile.extended);
    }
  }

  /** The groups of one more part of the inventory. */
  method AddGroups(plan: seq<Group>, part: set<Test>, inventory: set<Test>, ghost done: set<Test>, ghost all: set<Test>)
    returns (r: Option<seq<Group>>)
    requires Covers(plan, done, all) && done !! part && part <= inventory && Closed(all, inventory)
    ensures r.None? <==> Collides(part, inventory)
    ensures r.Some? ==> Covers(r.value, done + part, all)
    ensures r.Some? && Light(part) ==> |r.value| <= |plan| + 3
  {
    var more := Groups(part, inventory, all);
    if more.None? {
      return None;
    }
    CoversConcat(plan, done, more.value, part, all);
    r := Some(plan + more.value);
  }

  method ChosenGroups(parts: Partitions, inventory: set<Test>, choice: Choice, ghost all: set<Test>)
    returns (r: Option<seq<Group>>)
    requires parts.core + parts.extended <= inventory && parts.core !! parts.extended && Closed(all, inventory)
    ensures r.None? <==> (choice != Extended && Collides(parts.core, inventory))
                         || (choice != Core && Collides(parts.extended, inventory))
    ensures r.Some? ==> Covers(r.value, Chosen(parts, choice), all)
    ensures r.Some? && Light(parts.core) && Light(parts.extended) ==> |r.value| <= if choice == Full then 6 else 3
  {
    match choice {
      case Core => r := Groups(parts.core, inventory, all);
      case Extended => r := Groups(parts.extended, inventory, all);
      case Full =>
        var plan := Groups(parts.core, inventory, all);
        if plan.None? {
          return None;
        }
        r := AddGroups(plan.value, parts.extended, inventory, parts.core, all);
    }
  }

  method BuildPlan(all: set<Test>, profile: Profile, choice: Choice) returns (r: Option<seq<Group>>)
    ensures r.Some? <==> Plannable(all, profile, choice)
    ensures r.Some? ==> Covers(r.value, Chosen(Partitions(Inventory(all, profile) - Keys(profile.extended),
                                                          Keys(profile.extended)), choice), all)
    ensures r.Some? && choice == Full ==> Covers(r.value, Inventory(all, profile), all)
    ensures r.Some? && Light(Inventory(all, profile)) ==> |r.value| <= if choice == Full then 6 else 3
  {
    if exists i :: 0 <= i < |profile.extended| && !TestName(profile.extended[i].test) {
      return None;
    }
    r := BuildNamed(all, profile, choice);
  }

  /** The plan of a profile whose names are test names. */
  method BuildNamed(all: set<Test>, profile: Profile, choice: Choice) returns (r: Option<seq<Group>>)
    requires forall i :: 0 <= i < |profile.extended| ==> TestName(profile.extended[i].test)
    ensures r.Some? <==> Plannable(all, profile, choice)
    ensures r.Some? ==> Covers(r.value, Chosen(Partitions(Inventory(all, profile) - Keys(profile.extended),
                                                          Keys(profile.extended)), choice), all)
    ensures r.Some? && choice == Full ==> Covers(r.value, Inventory(all, profile), all)
    ensures r.Some? && Light(Inventory(all, profile)) ==> |r.value| <= if choice == Full then 6 else 3
  {
    var inventory := Inventory(all, profile);
    InventoryIsClosed(all, profile);
    var found := set t | t in inventory :: t.package;
    if !(Mandatory() <= found) {
      var p :| p in Mandatory() && p !in found;
      return None;
    }
    var parts := Partition(inventory, profile);
    if parts.None? {
      return None;
    }
    var core, extended := parts.value.core, parts.value.extended;
    assert core == inventory - extended;
    if Light(inventory) {
      LightPart(core, inventory);
      LightPart(extended, inventory);
    }
    r := ChosenGroups(parts.value, inventory, choice, all);
  }
}
