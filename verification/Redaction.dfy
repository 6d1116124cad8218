/** Byte strings, sequential replacement, and the cut points at which a stream
    may be emitted without splitting a secret. */
module Redaction {
  type Byte = b: int | 0 <= b < 256
  type Bytes = seq<Byte>

  /** b'[REDACTED]' */
  function Marker(): Bytes {
    [0x5b, 0x52, 0x45, 0x44, 0x41, 0x43, 0x54, 0x45, 0x44, 0x5d]
  }

  predicate OccursAt(x: Bytes, s: Bytes, p: int) {
    0 <= p <= p + |s| <= |x| && x[p..p + |s|] == s
  }

  /** bytes.find */
  function Find(x: Bytes, s: Bytes, start: nat): (p: int)
    ensures p == -1 || (start <= p && OccursAt(x, s, p))
    ensures forall q :: start <= q && (p == -1 || q < p) ==> !OccursAt(x, s, q)
    decreases |x| - start
  {
    if start + |s| > |x| then -1
    else if x[start..start + |s|] == s then start
    else if start == |x| then -1
    else Find(x, s, start + 1)
  }

  /** bytes.replace: left to right, without overlaps. */
  function Replace(x: Bytes, s: Bytes, m: Bytes): Bytes
    requires s != []
    decreases |x|
  {
    if |x| < |s| then x
    else if x[..|s|] == s then m + Replace(x[|s|..], s, m)
    else [x[0]] + Replace(x[1..], s, m)
  }

  predicate NonEmpty(secrets: seq<Bytes>) {
    forall s :: s in secrets ==> s != []
  }

  function ReplaceAll(x: Bytes, secrets: seq<Bytes>): Bytes
    requires NonEmpty(secrets)
    decreases |secrets|
  {
    if secrets == [] then x
    else
      assert secrets[0] in secrets && forall s :: s in secrets[1..] ==> s in secrets;
      ReplaceAll(Replace(x, secrets[0], Marker()), secrets[1..])
  }

  function Concat(segments: seq<Bytes>): Bytes {
    if segments == [] then [] else segments[0] + Concat(segments[1..])
  }

  /** No occurrence of `s` in `x` has position `c` strictly inside it. */
  ghost predicate Clear(x: Bytes, s: Bytes, c: int) {
    forall p :: OccursAt(x, s, p) ==> !(p < c < p + |s|)
  }

  ghost predicate Clean(x: Bytes, secrets: seq<Bytes>, c: int) {
    forall s :: s in secrets ==> Clear(x, s, c)
  }

  // ----------------------------------------------- replacement over a clear cut

  lemma OccursInPrefix(a: Bytes, b: Bytes, s: Bytes, p: int)
    requires p + |s| <= |a|
    ensures OccursAt(a + b, s, p) <==> OccursAt(a, s, p)
  {
    if 0 <= p {
      assert (a + b)[p..p + |s|] == a[p..p + |s|];
    }
  }

  lemma OccursShifted(a: Bytes, b: Bytes, s: Bytes, p: int)
    requires 0 <= p
    ensures OccursAt(a + b, s, |a| + p) <==> OccursAt(b, s, p)
  {
    if p + |s| <= |b| {
      assert (a + b)[|a| + p..|a| + p + |s|] == b[p..p + |s|];
    }
  }

  /** Dropping a prefix that ends at or before the cut keeps the cut clear. */
  lemma ClearShifts(a: Bytes, b: Bytes, s: Bytes, c: int)
    requires Clear(a + b, s, |a| + c)
    ensures Clear(b, s, c)
  {
    forall p | OccursAt(b, s, p)
      ensures !(p < c < p + |s|)
    {
      OccursShifted(a, b, s, p);
    }
  }

  lemma Regroup(x: Bytes, y: Bytes, z: Bytes)
    ensures (x + y) + z == x + (y + z)
  {
  }

  lemma JoinFront(whole: Bytes, front: Bytes, head: Bytes, x: Bytes, y: Bytes)
    requires whole == head + (x + y) && front == head + x
    ensures whole == front + y
  {
    Regroup(head, x, y);
  }

  lemma HitAtFront(x: Bytes, s: Bytes, m: Bytes)
    requires 0 < |s| <= |x| && x[..|s|] == s
    ensures Replace(x, s, m) == m + Replace(x[|s|..], s, m)
  {
  }

  lemma MissAtFront(x: Bytes, s: Bytes, m: Bytes)
    requires 0 < |s| <= |x| && x[..|s|] != s
    ensures Replace(x, s, m) == [x[0]] + Replace(x[1..], s, m)
  {
  }

  lemma SplitsAtHit(a: Bytes, b: Bytes, s: Bytes, m: Bytes)
    requires 0 < |s| <= |a| && a[..|s|] == s
    requires Replace(a[|s|..] + b, s, m) == Replace(a[|s|..], s, m) + Replace(b, s, m)
    ensures Replace(a + b, s, m) == Replace(a, s, m) + Replace(b, s, m)
  {
    var tail := a[|s|..];
    assert (a + b)[..|s|] == s && (a + b)[|s|..] == tail + b;
    HitAtFront(a, s, m);
    HitAtFront(a + b, s, m);
    JoinFront(Replace(a + b, s, m), Replace(a, s, m), m, Replace(tail, s, m), Replace(b, s, m));
  }

  lemma SplitsAtMiss(a: Bytes, b: Bytes, s: Bytes, m: Bytes)
    requires a != [] && s != [] && |s| <= |a + b| && (a + b)[..|s|] != s
    requires Replace(a[1..] + b, s, m) == Replace(a[1..], s, m) + Replace(b, s, m)
    ensures Replace(a + b, s, m) == Replace(a, s, m) + Replace(b, s, m)
  {
    var tail := a[1..];
    assert (a + b)[1..] == tail + b && (a + b)[0] == a[0];
    MissInFront(a, b, s, m);
    MissAtFront(a + b, s, m);
    JoinFront(Replace(a + b, s, m), Replace(a, s, m), [a[0]], Replace(tail, s, m), Replace(b, s, m));
  }

  lemma MissInFront(a: Bytes, b: Bytes, s: Bytes, m: Bytes)
    requires a != [] && s != [] && |s| <= |a + b| && (a + b)[..|s|] != s
    ensures Replace(a, s, m) == [a[0]] + Replace(a[1..], s, m)
  {
    if |a| >= |s| {
      assert a[..|s|] == (a + b)[..|s|];
    } else {
      assert Replace(a[1..], s, m) == a[1..];
      assert a == [a[0]] + a[1..];
    }
  }

  /** Across a clear cut, replacing the whole is replacing the two parts. */
  lemma {:induction false} ReplaceSplits(a: Bytes, b: Bytes, s: Bytes, m: Bytes)
    requires s != [] && Clear(a + b, s, |a|)
    ensures Replace(a + b, s, m) == Replace(a, s, m) + Replace(b, s, m)
    decreases |a|
  {
    if a == [] {
      assert a + b == b;
    } else if |a + b| >= |s| {
      if (a + b)[..|s|] == s {
        assert OccursAt(a + b, s, 0);
        assert a + b == a[..|s|] + (a[|s|..] + b);
        ClearShifts(a[..|s|], a[|s|..] + b, s, |a| - |s|);
        ReplaceSplits(a[|s|..], b, s, m);
        SplitsAtHit(a, b, s, m);
      } else {
        assert a + b == a[..1] + (a[1..] + b);
        ClearShifts(a[..1], a[1..] + b, s, |a| - 1);
        ReplaceSplits(a[1..], b, s, m);
        SplitsAtMiss(a, b, s, m);
      }
    }
  }

  // -------------------------------------------- secrets that avoid the marker

  predicate StartsWith(x: Bytes, u: Bytes) {
    |u| <= |x| && x[..|u|] == u
  }

  predicate EndsWith(x: Bytes, u: Bytes) {
    |u| <= |x| && x[|x| - |u|..] == u
  }

  /** No proper suffix of `t` begins the marker, no proper prefix of `t` ends it,
      and `t` does not contain it. */
  predicate Apart(t: Bytes, m: Bytes) {
    && (forall k :: 0 < k < |t| ==> !StartsWith(m, t[k..]))
    && (forall k :: 0 < k < |t| ==> !EndsWith(m, t[..k]))
    && (forall p :: 0 <= p <= |t| - |m| ==> !OccursAt(t, m, p))
  }

  predicate Suffix(t: Bytes, u: Bytes) {
    EndsWith(t, u) && 0 < |u| < |t|
  }

  lemma HeadOfConcat(m: Bytes, r: Bytes, u: Bytes)
    ensures StartsWith(m + r, u) ==> StartsWith(m, u) || StartsWith(u, m)
  {
    if StartsWith(m + r, u) {
      if |u| <= |m| {
        assert m[..|u|] == (m + r)[..|u|];
      } else {
        assert u[..|m|] == (m + r)[..|u|][..|m|] == m;
      }
    }
  }

  lemma ApartTail(t: Bytes, m: Bytes, u: Bytes)
    requires Apart(t, m) && Suffix(t, u)
    ensures !StartsWith(m, u) && !StartsWith(u, m)
  {
    var at := |t| - |u|;
    assert u == t[at..];
    assert |m| <= |u| ==> t[at..at + |m|] == u[..|m|];
    assert StartsWith(u, m) ==> OccursAt(t, m, at);
  }

  /** A text that begins with a tail of `t` after replacement began with it before. */
  lemma {:induction false} StartSurvives(x: Bytes, s: Bytes, m: Bytes, t: Bytes, u: Bytes)
    requires s != [] && m != [] && Apart(t, m) && Suffix(t, u)
    requires StartsWith(Replace(x, s, m), u)
    ensures StartsWith(x, u)
    decreases |x|
  {
    var at := |t| - |u|;
    assert u == t[at..];
    ApartTail(t, m, u);
    if |x| < |s| {
    } else if x[..|s|] == s {
      HeadOfConcat(m, Replace(x[|s|..], s, m), u);
      assert false;
    } else {
      var r := Replace(x[1..], s, m);
      assert Replace(x, s, m) == [x[0]] + r;
      assert u[0] == x[0];
      if |u| > 1 {
        assert r[..|u| - 1] == u[1..];
        assert t[at + 1..] == u[1..];
        StartSurvives(x[1..], s, m, t, u[1..]);
        assert x[..|u|] == [x[0]] + x[1..][..|u| - 1];
      }
    }
  }

  lemma HeadInside(t: Bytes, m: Bytes, r: Bytes, p: nat)
    ensures OccursAt(t, m + r, p) ==> OccursAt(t, m, p)
  {
    if OccursAt(t, m + r, p) {
      assert t[p..p + |m|] == t[p..p + |m + r|][..|m|] == (m + r)[..|m|] == m;
    }
  }

  /** A replacement result inside `t` shows that nothing was replaced. */
  lemma {:induction false} Untouched(x: Bytes, s: Bytes, m: Bytes, t: Bytes, p: nat)
    requires s != [] && Apart(t, m) && OccursAt(t, Replace(x, s, m), p)
    ensures Replace(x, s, m) == x
    decreases |x|
  {
    if |x| < |s| {
    } else if x[..|s|] == s {
      HeadInside(t, m, Replace(x[|s|..], s, m), p);
      assert false;
    } else {
      var r := Replace(x[1..], s, m);
      assert t[p + 1..p + 1 + |r|] == t[p..p + 1 + |r|][1..] == r;
      Untouched(x[1..], s, m, t, p + 1);
    }
  }

  lemma EndsLater(a: Bytes, b: Bytes, v: Bytes)
    requires |v| <= |b|
    ensures EndsWith(a + b, v) <==> EndsWith(b, v)
  {
    assert (a + b)[|a + b| - |v|..] == b[|b| - |v|..];
  }

  /** A text that ends with a head of `t` after replacement ended with it before. */
  lemma {:induction false} EndSurvives(x: Bytes, s: Bytes, m: Bytes, t: Bytes, k: nat)
    requires s != [] && m != [] && Apart(t, m) && 0 < k < |t|
    requires EndsWith(Replace(x, s, m), t[..k])
    ensures EndsWith(x, t[..k])
    decreases |x|
  {
    if |x| < |s| {
    } else if x[..|s|] == s {
      var r := Replace(x[|s|..], s, m);
      if k <= |r| {
        EndsLater(m, r, t[..k]);
        EndSurvives(x[|s|..], s, m, t, k);
        assert x == s + x[|s|..];
        EndsLater(s, x[|s|..], t[..k]);
      } else {
        MarkerMeetsHead(m, r, t, k);
        assert false;
      }
    } else {
      var r := Replace(x[1..], s, m);
      if k <= |r| {
        EndsLater([x[0]], r, t[..k]);
        EndSurvives(x[1..], s, m, t, k);
        assert x == [x[0]] + x[1..];
        EndsLater([x[0]], x[1..], t[..k]);
      } else {
        WholeIsHead(x, s, m, t, k);
      }
    }
  }

  lemma WholeIsHead(x: Bytes, s: Bytes, m: Bytes, t: Bytes, k: nat)
    requires s != [] && x != [] && Apart(t, m) && 0 < k < |t|
    requires |s| <= |x| && x[..|s|] != s && k > |Replace(x[1..], s, m)|
    requires EndsWith(Replace(x, s, m), t[..k])
    ensures EndsWith(x, t[..k])
  {
    var r := Replace(x[1..], s, m);
    assert t[..k] == [x[0]] + r;
    assert t[1..1 + |r|] == t[..k][1..] == r;
    Untouched(x[1..], s, m, t, 1);
    assert x == [x[0]] + x[1..];
  }

  lemma TailOfConcat(m: Bytes, r: Bytes, v: Bytes)
    requires |r| <= |v|
    ensures EndsWith(m + r, v) ==> EndsWith(m, v[..|v| - |r|])
  {
    if EndsWith(m + r, v) {
      var j := |v| - |r|;
      assert m[|m| - j..] == (m + r)[|m + r| - |v|..][..j] == v[..j];
    }
  }

  lemma MarkerMeetsHead(m: Bytes, r: Bytes, t: Bytes, k: nat)
    requires m != [] && Apart(t, m) && |r| < k < |t|
    ensures !EndsWith(m + r, t[..k])
  {
    TailOfConcat(m, r, t[..k]);
    assert t[..k][..k - |r|] == t[..k - |r|];
  }

  lemma Meeting(a: Bytes, b: Bytes, t: Bytes, k: nat)
    requires k <= |t|
    ensures k <= |a| && OccursAt(a + b, t, |a| - k) <==> EndsWith(a, t[..k]) && StartsWith(b, t[k..])
  {
    if k <= |a| && |t| - k <= |b| {
      assert (a + b)[|a| - k..|a| - k + |t|] == a[|a| - k..] + b[..|t| - k];
      assert t == t[..k] + t[k..];
    }
  }

  /** An occurrence across the cut after replacement was there before it. */
  lemma CrossingSurvives(a: Bytes, b: Bytes, s: Bytes, m: Bytes, t: Bytes, k: nat)
    requires s != [] && m != [] && Apart(t, m) && 0 < k < |t| && k <= |Replace(a, s, m)|
    requires OccursAt(Replace(a, s, m) + Replace(b, s, m), t, |Replace(a, s, m)| - k)
    ensures k <= |a| && OccursAt(a + b, t, |a| - k)
  {
    Meeting(Replace(a, s, m), Replace(b, s, m), t, k);
    EndSurvives(a, s, m, t, k);
    StartSurvives(b, s, m, t, t[k..]);
    Meeting(a, b, t, k);
  }

  /** Replacing `s` cannot bring an occurrence of `t` across a clear cut. */
  lemma ReplaceKeepsClear(a: Bytes, b: Bytes, s: Bytes, m: Bytes, t: Bytes)
    requires s != [] && m != [] && Apart(t, m) && Clear(a + b, t, |a|)
    ensures Clear(Replace(a, s, m) + Replace(b, s, m), t, |Replace(a, s, m)|)
  {
    var a', b' := Replace(a, s, m), Replace(b, s, m);
    forall p | OccursAt(a' + b', t, p)
      ensures !(p < |a'| < p + |t|)
    {
      if p < |a'| < p + |t| {
        CrossingSurvives(a, b, s, m, t, |a'| - p);
        assert false;
      }
    }
  }
}
