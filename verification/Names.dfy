/** Lexicographic order on strings, and the sorted list of a finite set of them. */
module Names {
  predicate Before(a: string, b: string) {
    if b == "" then false
    else if a == "" then true
    else a[0] < b[0] || (a[0] == b[0] && Before(a[1..], b[1..]))
  }

  lemma {:induction false} BeforeTotal(a: string, b: string)
    ensures a == b || Before(a, b) || Before(b, a)
    decreases |a|
  {
    if a != "" && b != "" && a[0] == b[0] {
      BeforeTotal(a[1..], b[1..]);
      if a[1..] == b[1..] {
        assert a == [a[0]] + a[1..] && b == [b[0]] + b[1..];
      }
    }
  }

  lemma {:induction false} BeforeTransitive(a: string, b: string, c: string)
    requires Before(a, b) && Before(b, c)
    ensures Before(a, c)
    decreases |a|
  {
    if a != "" && a[0] == b[0] == c[0] {
      BeforeTransitive(a[1..], b[1..], c[1..]);
    }
  }

  lemma {:induction false} BeforeAsymmetric(a: string, b: string)
    requires Before(a, b)
    ensures !Before(b, a)
    decreases |a|
  {
    if a != "" && a[0] == b[0] {
      BeforeAsymmetric(a[1..], b[1..]);
    }
  }

  predicate IsFirst(m: string, s: set<string>) {
    m in s && forall x :: x in s ==> x == m || Before(m, x)
  }

  lemma {:induction false} FirstExists(s: set<string>)
    requires s != {}
    ensures exists m :: IsFirst(m, s)
    decreases |s|
  {
    var x :| x in s;
    if s == {x} {
      assert IsFirst(x, s);
    } else {
      FirstExists(s - {x});
      var m :| IsFirst(m, s - {x});
      assert forall y :: y in s ==> y == x || y in s - {x};
      BeforeTotal(x, m);
      if Before(x, m) {
        forall y | y in s - {x} && y != m
          ensures Before(x, y)
        {
          BeforeTransitive(x, m, y);
        }
        assert IsFirst(x, s);
      } else {
        assert IsFirst(m, s);
      }
    }
  }

  lemma FirstUnique(s: set<string>)
    ensures forall m, n :: IsFirst(m, s) && IsFirst(n, s) ==> m == n
  {
    forall m, n | IsFirst(m, s) && IsFirst(n, s)
      ensures m == n
    {
      if m != n {
        BeforeAsymmetric(m, n);
      }
    }
  }

  function First(s: set<string>): (m: string)
    requires s != {}
    ensures IsFirst(m, s)
  {
    FirstExists(s);
    FirstUnique(s);
    var m :| m in s && IsFirst(m, s);
    m
  }

  function Sorted(s: set<string>): seq<string>
    decreases |s|
  {
    if s == {} then [] else [First(s)] + Sorted(s - {First(s)})
  }

  /** Every member once, in order. */
  lemma {:induction false} SortedLists(s: set<string>)
    ensures forall x :: x in Sorted(s) <==> x in s
    ensures forall i, j :: 0 <= i < j < |Sorted(s)| ==> Before(Sorted(s)[i], Sorted(s)[j])
    decreases |s|
  {
    if s != {} {
      var m := First(s);
      var rest := Sorted(s - {m});
      SortedLists(s - {m});
      assert Sorted(s) == [m] + rest;
      forall i | 0 <= i < |rest|
        ensures Before(m, rest[i])
      {
        assert rest[i] in rest && rest[i] in s;
      }
    }
  }

  lemma SortedDistinct(s: set<string>)
    ensures forall i, j :: 0 <= i < j < |Sorted(s)| ==> Sorted(s)[i] != Sorted(s)[j]
  {
    SortedLists(s);
    forall i, j | 0 <= i < j < |Sorted(s)|
      ensures Sorted(s)[i] != Sorted(s)[j]
    {
      BeforeAsymmetric(Sorted(s)[i], Sorted(s)[j]);
    }
  }
}
