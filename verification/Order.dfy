/** ORDER BY on an integer key: the ascending enumeration of a finite set. */
module Order {
  predicate IsLeast(m: nat, s: set<nat>) {
    m in s && forall x :: x in s ==> m <= x
  }

  lemma {:induction false} LeastExists(s: set<nat>)
    requires s != {}
    ensures exists m :: IsLeast(m, s)
    decreases |s|
  {
    var x :| x in s;
    if s == {x} {
      assert IsLeast(x, s);
    } else {
      LeastExists(s - {x});
      var m :| IsLeast(m, s - {x});
      assert forall y :: y in s ==> y == x || y in s - {x};
      assert IsLeast(if x < m then x else m, s);
    }
  }

  function Least(s: set<nat>): (m: nat)
    requires s != {}
    ensures IsLeast(m, s)
  {
    LeastExists(s);
    var m :| m in s && IsLeast(m, s);
    m
  }

  predicate Rising(r: seq<nat>) {
    forall i, j :: 0 <= i < j < |r| ==> r[i] < r[j]
  }

  function Ascending(s: set<nat>): seq<nat>
    decreases |s|
  {
    if s == {} then [] else [Least(s)] + Ascending(s - {Least(s)})
  }

  lemma {:induction false} AscendingMembers(s: set<nat>, x: nat)
    ensures x in Ascending(s) <==> x in s
    decreases |s|
  {
    if s != {} {
      AscendingMembers(s - {Least(s)}, x);
    }
  }

  lemma {:induction false} AscendingRises(s: set<nat>)
    ensures Rising(Ascending(s)) && |Ascending(s)| == |s|
    decreases |s|
  {
    if s != {} {
      var m, rest := Least(s), Ascending(s - {Least(s)});
      AscendingRises(s - {m});
      forall j | 0 <= j < |rest|
        ensures m < rest[j]
      {
        AscendingMembers(s - {m}, rest[j]);
      }
    }
  }
}
