/** Three secrets for which the chunking decides what is replaced, and still does not
    show: other occurrences can read the same. */
module Coincidence {
  import opened Redaction
  import opened CopyRedacted
  import opened ReplaceFacts
  import opened SecretChains
  import opened Masking
  import opened MaskExact
  import opened MaskRender
  import opened OutputShows
  import opened ChainsRead
  import opened MarkerShows
  import opened OutputExact

  // ----------------------------------------- a first secret that ends a text

  predicate EndsMarked(x: Text, i: nat) {
    x != [] && x[|x| - 1] == Mark(i)
  }

  lemma {:induction false} PutKeepsEnd(x: Text, s: Bytes, i: nat)
    requires s != [] && i > 0 && EndsMarked(Put(x, s, i), 0)
    ensures EndsMarked(x, 0)
    decreases |x|
  {
    if |x| >= |s| {
      var k := if x[..|s|] == Lift(s) then |s| else 1;
      if x[k..] == [] {
        assert Put(x[k..], s, i) == [];
      } else {
        PutNonEmpty(x[k..], s, i);
        PutKeepsEnd(x[k..], s, i);
      }
    }
  }

  lemma {:induction false} PutNonEmpty(x: Text, s: Bytes, i: nat)
    requires s != [] && x != []
    ensures Put(x, s, i) != []
  {
  }

  lemma {:induction false} MaskFromKeepsEnd(x: Text, secrets: seq<Bytes>, i: nat)
    requires NonEmpty(secrets) && 0 < i <= |secrets| && EndsMarked(MaskFrom(x, secrets, i), 0)
    ensures EndsMarked(x, 0)
    decreases |secrets| - i
  {
    if i < |secrets| {
      assert secrets[i] in secrets;
      MaskFromKeepsEnd(Put(x, secrets[i], i), secrets, i + 1);
      PutKeepsEnd(x, secrets[i], i);
    }
  }

  /** What is replaced up to the end of a text stays so when more is read. */
  lemma {:induction false} PutEnds(x: Text, y: Text, s: Bytes)
    requires s != [] && (forall k :: 0 <= k < |x| ==> x[k].Raw?) && EndsMarked(Put(x, s, 0), 0)
    ensures Put(x + y, s, 0) == Put(x, s, 0) + Put(y, s, 0)
    decreases |x|
  {
    if |x| >= |s| {
      assert (x + y)[..|s|] == x[..|s|];
      var k := if x[..|s|] == Lift(s) then |s| else 1;
      assert (x + y)[k..] == x[k..] + y;
      if x[k..] == [] {
        assert x[k..] + y == y && Put(x[k..], s, 0) == [] && [] + Put(y, s, 0) == Put(y, s, 0);
      } else {
        PutNonEmpty(x[k..], s, 0);
        PutEnds(x[k..], y, s);
      }
      if k == |s| && x[..|s|] == Lift(s) {
        PutHit(x, y, s, 0);
      } else {
        PutMiss(x, y, s, 0);
      }
    }
  }

  lemma FirstIndex(secrets: seq<Bytes>, i: nat)
    requires i < |secrets| && secrets[0] !in secrets[1..] && secrets[i] == secrets[0]
    ensures i == 0
  {
  }

  /** A first secret that is replaced at the end of a text keeps that boundary. */
  lemma FirstStays(x: Bytes, y: Bytes, secrets: seq<Bytes>)
    requires NonEmpty(secrets) && secrets != [] && secrets[0] !in secrets[1..] && Survives(x, secrets[0], secrets)
    ensures Boundary(Mask(x + y, secrets), secrets, |x|)
  {
    var s := secrets[0];
    assert s in secrets;
    var z := Put(Lift(x), s, 0);
    var m := Mask(x, secrets);
    FirstIndex(secrets, m[|m| - 1].index);
    MaskFromKeepsEnd(z, secrets, 1);
    LiftConcat(x, y);
    PutEnds(Lift(x), Lift(y), s);
    var a, b := z[..|z| - 1], Put(Lift(y), s, 0);
    assert z == a + [Mark(0)] && z + b == a + ([Mark(0)] + b);
    MaskFromAround(a, Mark(0), b, secrets, 1);
    BoundaryAfter(MaskFrom(a, secrets, 1), Mark(0), MaskFrom(b, secrets, 1), secrets);
    MaskFromExpands(a, secrets, 1);
    PutExpands(Lift(x), s, 0, secrets);
    ExpandLift(x, secrets);
    ExpandConcat(a, [Mark(0)], secrets);
    ExpandConcat(MaskFrom(a, secrets, 1), [Mark(0)], secrets);
  }

  lemma BoundaryAfter(a: Text, c: Symbol, b: Text, secrets: seq<Bytes>)
    ensures Boundary(a + ([c] + b), secrets, |Expand(a + [c], secrets)|)
  {
    assert a + ([c] + b) == (a + [c]) + b;
    PrefixBoundary(a + [c], b, secrets);
  }

  // ------------------------------------------------------------ the example

  /** One byte `a`, behind and between copies of `b`. */
  function Triple(a: Byte, b: Bytes): (r: seq<Bytes>)
    ensures NonEmpty(r)
  {
    [b + [a] + b, [a] + b, [a]]
  }

  /** `a` is none of the marker's bytes nor of `b`'s, and `b` does not overlap itself. */
  predicate Distinguished(a: Byte, b: Bytes) {
    a !in Marker() && a !in b && OPEN !in b && b != [] && !SelfOverlap(b)
  }

  lemma TripleIsSafe(a: Byte, b: Bytes)
    requires Distinguished(a, b)
    ensures MarkerSafe(Triple(a, b)) && Triple(a, b)[0] !in Triple(a, b)[1..]
    ensures Longest(Triple(a, b)) == 2 * |b| + 1
  {
    TailApart(a, b);
    TailApart(a, []);
    var secrets := Triple(a, b);
    assert [a] + [] == [a];
    assert secrets[1..] == [[a] + b, [a]] && secrets[1..][1..] == [[a]];
    assert Keep([[a]]) == 0 && Keep([[a] + b, [a]]) == |b|;
  }

  lemma TailApart(a: Byte, b: Bytes)
    requires a !in Marker() && OPEN !in b
    ensures Apart([a] + b, Marker())
  {
    var t, m := [a] + b, Marker();
    assert a != OPEN && m[0] == OPEN;
    forall k | 0 < k < |t|
      ensures !StartsWith(m, t[k..]) && !EndsWith(m, t[..k])
    {
      assert t[k..][0] == b[k - 1];
      assert t[..k][0] == a;
    }
    forall p | 0 <= p <= |t| - |m|
      ensures !OccursAt(t, m, p)
    {
      ByteAt(t, m, p, 0);
    }
  }

  /** Where the byte `a` stands in an occurrence of each of the three. */
  lemma ByteOf(x: Bytes, a: Byte, b: Bytes, s: Bytes, q: nat)
    requires s in Triple(a, b) && OccursAt(x, s, q)
    ensures s == b + [a] + b ==>
              x[q + |b|] == a && OccursAt(x, b, q) && OccursAt(x, b, q + |b| + 1)
    ensures s == [a] + b ==> x[q] == a && OccursAt(x, b, q + 1)
    ensures s == [a] ==> x[q] == a
  {
    if s == b + [a] + b {
      Within(x, s, q, b, 0);
      Within(x, s, q, b, |b| + 1);
      assert s[|b|] == a && x[q..q + |s|][|b|] == x[q + |b|];
    } else {
      assert s[0] == a && x[q..q + |s|][0] == x[q];
      if s == [a] + b {
        Within(x, s, q, b, 1);
      }
    }
  }

  lemma Within(x: Bytes, s: Bytes, q: nat, b: Bytes, i: nat)
    requires OccursAt(x, s, q) && i + |b| <= |s| && s[i..i + |b|] == b
    ensures OccursAt(x, b, q + i)
  {
    forall k | 0 <= k < |b|
      ensures x[q + i..q + i + |b|][k] == b[k]
    {
      assert x[q..q + |s|][i + k] == s[i + k] == s[i..i + |b|][k];
    }
  }

  lemma NotIn(x: Bytes, b: Bytes, q: nat, a: Byte, i: nat)
    requires OccursAt(x, b, q) && a !in b && q <= i < q + |b|
    ensures x[i] != a
  {
    assert x[q..q + |b|][i - q] == x[i] && b[i - q] in b;
  }

  /** Two occurrences of `b` that overlap are one. */
  lemma SameB(x: Bytes, b: Bytes, i: nat, j: nat)
    requires !SelfOverlap(b) && OccursAt(x, b, i) && OccursAt(x, b, j) && i <= j < i + |b|
    ensures i == j
  {
    if i < j {
      OverlapIsSelf(x, b, i, j);
    }
  }

  /** Where a covering secret `u` holds the byte, given where the covered text holds `b`. */
  lemma CoveredB(x: Bytes, a: Byte, b: Bytes, u: Bytes, r: nat, q: nat)
    requires Distinguished(a, b) && u in Triple(a, b) && OccursAt(x, u, r) && r < q < r + |u|
    requires OccursAt(x, b, q) && q + |b| < |x| && x[q + |b|] == a && !(u == b + [a] + b && r == q)
    ensures x[q - 1] == a && r + |u| == q + |b|
  {
    ByteOf(x, a, b, u, r);
    var at := if u == b + [a] + b then r + |b| else r;
    if at >= q {
      if at < q + |b| {
        NotIn(x, b, q, a, at);
      }
    } else {
      SameB(x, b, at + 1, q);
    }
  }

  /** What a read can split: the first secret behind the byte, cut before its own. */
  lemma SplitShape(p: Bytes, future: Bytes, a: Byte, b: Bytes, s: Bytes, q: nat)
    requires Distinguished(a, b) && s in Triple(a, b) && OccursAt(p + future, s, q)
    requires q < Cut(p, Triple(a, b)) < q + |s|
    ensures s == b + [a] + b && q > 0 && (p + future)[q - 1] == a && OccursAt(p + future, b, q)
    ensures Cut(p, Triple(a, b)) == q + |b|
  {
    var x, secrets := p + future, Triple(a, b);
    SplitEndsLater(p, future, secrets, s, q);
    assert !Clean(p, secrets, q);
    var u, r: nat :| u in secrets && OccursAt(p, u, r) && r < q < r + |u|;
    OccursInPrefix(p, future, u, r);
    ByteOf(x, a, b, s, q);
    if s == [a] + b {
      ByteOf(x, a, b, u, r);
      InsideByte(x, a, b, u, r, q);
    } else {
      CoveredB(x, a, b, u, r, q);
      SplitCut(p, future, a, b, u, r, q);
    }
  }

  /** A byte `a` strictly inside a secret is the middle of the first one. */
  lemma InsideByte(x: Bytes, a: Byte, b: Bytes, u: Bytes, r: nat, q: nat)
    requires Distinguished(a, b) && u in Triple(a, b) && OccursAt(x, u, r) && r < q < r + |u| && x[q] == a
    ensures u == b + [a] + b && q == r + |b|
  {
    ByteOf(x, a, b, u, r);
    if u == b + [a] + b {
      if q < r + |b| {
        NotIn(x, b, r, a, q);
      } else if q > r + |b| {
        NotIn(x, b, r + |b| + 1, a, q);
      }
    } else {
      NotIn(x, b, r + 1, a, q);
    }
  }

  lemma SplitCut(p: Bytes, future: Bytes, a: Byte, b: Bytes, u: Bytes, r: nat, q: nat)
    requires Distinguished(a, b) && u in Triple(a, b) && OccursAt(p, u, r) && r < q < r + |u| == q + |b|
    requires OccursAt(p + future, b + [a] + b, q) && q + 2 * |b| + 1 > |p|
    requires FirstCut(p, Triple(a, b)) <= q < Cut(p, Triple(a, b))
    ensures Cut(p, Triple(a, b)) == q + |b|
  {
    var e := q + |b|;
    forall c | q < c < e
      ensures !Clean(p, Triple(a, b), c)
    {
      assert !Clear(p, u, c);
    }
    CleanBeforeByte(p, future, a, b, q);
  }

  lemma CleanBeforeByte(p: Bytes, future: Bytes, a: Byte, b: Bytes, q: nat)
    requires Distinguished(a, b) && OccursAt(p + future, b + [a] + b, q) && q + |b| <= |p| < q + 2 * |b| + 1
    ensures Clean(p, Triple(a, b), q + |b|)
  {
    var e := q + |b|;
    forall v, i | v in Triple(a, b) && OccursAt(p, v, i)
      ensures !(i < e < i + |v|)
    {
      if i < e < i + |v| {
        ByteOf(p + future, a, b, b + [a] + b, q);
        InsideByte(p, a, b, v, i, e);
      }
    }
  }

  // ------------------------------------------------------- what it reads like

  lemma OutThree(x: Bytes, a: Byte, b: Bytes)
    ensures ReplaceAll(x, Triple(a, b)) ==
            Replace(Replace(Replace(x, b + [a] + b, Marker()), [a] + b, Marker()), [a], Marker())
  {
    var secrets := Triple(a, b);
    assert secrets[1..] == [[a] + b, [a]];
    ReplaceTwo(Replace(x, b + [a] + b, Marker()), [a] + b, [a]);
  }

  lemma NoByteNoReplace(x: Bytes, t: Bytes, a: Byte)
    requires a !in x && a in t
    ensures Replace(x, t, Marker()) == x
  {
    var i :| 0 <= i < |t| && t[i] == a;
    forall p
      ensures !OccursAt(x, t, p)
    {
      ByteAt(x, t, p, i);
    }
    ReplaceNothing(x, t, Marker());
  }

  lemma ReplacedWhole(t: Bytes)
    requires t != []
    ensures Replace(t, t, Marker()) == Marker()
  {
    assert t + [] == t && Marker() + [] == Marker();
    ReplaceWhole(t, [], Marker());
  }

  /** Each of the three is replaced by one marker. */
  lemma OneMarkerEach(a: Byte, b: Bytes)
    requires Distinguished(a, b)
    ensures ReplaceAll([a], Triple(a, b)) == Marker()
    ensures ReplaceAll([a] + b, Triple(a, b)) == Marker()
    ensures ReplaceAll(b + [a] + b, Triple(a, b)) == Marker()
  {
    var m, s, t := Marker(), b + [a] + b, [a] + b;
    OutThree([a], a, b);
    OutThree(t, a, b);
    OutThree(s, a, b);
    NoByteNoReplace(m, t, a);
    NoByteNoReplace(m, [a], a);
    ReplacedWhole(s);
    ReplacedWhole(t);
    ReplacedWhole([a]);
    ReplaceShort([a], s, m);
    ReplaceShort([a], t, m);
    ReplaceShort(t, s, m);
  }

  lemma BehindByte(g: Bytes, a: Byte, b: Bytes)
    requires Distinguished(a, b)
    ensures ReplaceAll(g + [a], Triple(a, b)) == ReplaceAll(g, Triple(a, b)) + Marker()
  {
    var x, secrets := g + [a], Triple(a, b);
    TripleIsSafe(a, b);
    if !Boundary(Mask(x, secrets), secrets, |g|) {
      var s, q := AcrossIs(x, secrets, |g|);
      InsideByte(x, a, b, s, q, |g|);
    }
    OutSplits(g, [a], secrets);
    OneMarkerEach(a, b);
  }

  /** Across the byte only the first secret can lie, and then it ends the text. */
  lemma PairKeepsBoundary(g: Bytes, x: Bytes, a: Byte, b: Bytes)
    requires Distinguished(a, b) && x == g + ([a] + b)
    ensures Boundary(Mask(x, Triple(a, b)), Triple(a, b), |g|) || Survives(x, b + [a] + b, Triple(a, b))
  {
    assert x[..|x|] == x && x[|g|] == a;
    if !Boundary(Mask(x, Triple(a, b)), Triple(a, b), |g|) {
      var s, q := AcrossIs(x, Triple(a, b), |g|);
      InsideByte(x, a, b, s, q, |g|);
    }
  }

  lemma BehindPair(g: Bytes, a: Byte, b: Bytes)
    requires Distinguished(a, b) && !Survives(g + ([a] + b), b + [a] + b, Triple(a, b))
    ensures ReplaceAll(g + ([a] + b), Triple(a, b)) == ReplaceAll(g, Triple(a, b)) + Marker()
  {
    TripleIsSafe(a, b);
    PairKeepsBoundary(g, g + ([a] + b), a, b);
    OutSplits(g, [a] + b, Triple(a, b));
    OneMarkerEach(a, b);
  }

  /** What lies across the end of the second secret at the start of a text. */
  lemma AcrossPair(z: Bytes, a: Byte, b: Bytes, s: Bytes, q: nat)
    requires Distinguished(a, b) && s in Triple(a, b)
    requires OccursAt([a] + b + z, s, q) && q < |b| + 1 < q + |s|
    ensures q == 1 && s == b + [a] + b && |z| > |b| && z[..|b| + 1] == [a] + b
  {
    var x := [a] + b + z;
    assert x[1..1 + |b|] == b;
    NoneIn(x, b, 1, a);
    NotAtByte(x, b, a);
    ByteOf(x, a, b, s, q);
    SameB(x, b, 1, q);
    assert z[..|b| + 1] == x[|b| + 1..2 * |b| + 2];
    assert x[|b| + 2..2 * |b| + 2] == b;
  }

  lemma NoneIn(x: Bytes, b: Bytes, q: nat, a: Byte)
    requires OccursAt(x, b, q) && a !in b
    ensures forall i :: q <= i < q + |b| ==> x[i] != a
  {
    forall i | q <= i < q + |b|
      ensures x[i] != a
    {
      NotIn(x, b, q, a, i);
    }
  }

  lemma NotAtByte(x: Bytes, b: Bytes, a: Byte)
    requires x != [] && x[0] == a && b != [] && a !in b
    ensures !OccursAt(x, b, 0)
  {
    ByteAt(x, b, 0, 0);
    assert b[0] in b;
  }

  /** The second secret at the start of a text, and the first one behind its byte. */
  lemma PairStep(rest: Bytes, a: Byte, b: Bytes)
    requires Distinguished(a, b) && Boundary(Mask([a] + (b + [a] + b + rest), Triple(a, b)), Triple(a, b), 1)
    ensures ReplaceAll([a] + (b + [a] + b + rest), Triple(a, b)) ==
            Marker() + (Marker() + ReplaceAll(rest, Triple(a, b)))
  {
    TripleIsSafe(a, b);
    OneMarkerEach(a, b);
    OutSplits([a], b + [a] + b + rest, Triple(a, b));
    FirstReads(rest, a, b);
  }

  lemma PairAlone(z: Bytes, a: Byte, b: Bytes)
    requires Distinguished(a, b) && Boundary(Mask([a] + b + z, Triple(a, b)), Triple(a, b), |b| + 1)
    ensures ReplaceAll([a] + b + z, Triple(a, b)) == Marker() + ReplaceAll(z, Triple(a, b))
  {
    TripleIsSafe(a, b);
    OneMarkerEach(a, b);
    OutSplits([a] + b, z, Triple(a, b));
  }

  lemma PairBoundary(z: Bytes, a: Byte, b: Bytes)
    requires Distinguished(a, b) && !Boundary(Mask([a] + b + z, Triple(a, b)), Triple(a, b), |b| + 1)
    ensures |z| > |b| && z[..|b| + 1] == [a] + b
    ensures [a] + b + z == [a] + (b + [a] + b + z[|b| + 1..]) && z == [a] + b + z[|b| + 1..]
    ensures Boundary(Mask([a] + b + z, Triple(a, b)), Triple(a, b), 1)
  {
    var s, q := AcrossIs([a] + b + z, Triple(a, b), |b| + 1);
    AcrossPair(z, a, b, s, q);
    assert z == z[..|b| + 1] + z[|b| + 1..];
  }

  /** The second secret at the start of a text reads like one marker, whatever follows. */
  lemma {:induction false} PairReads(z: Bytes, a: Byte, b: Bytes)
    requires Distinguished(a, b)
    ensures ReplaceAll([a] + b + z, Triple(a, b)) == Marker() + ReplaceAll(z, Triple(a, b))
    decreases |z|
  {
    if Boundary(Mask([a] + b + z, Triple(a, b)), Triple(a, b), |b| + 1) {
      PairAlone(z, a, b);
    } else {
      PairBoundary(z, a, b);
      PairReads(z[|b| + 1..], a, b);
      PairStep(z[|b| + 1..], a, b);
    }
  }

  lemma FirstReads(z: Bytes, a: Byte, b: Bytes)
    requires Distinguished(a, b)
    ensures ReplaceAll(b + [a] + b + z, Triple(a, b)) == Marker() + ReplaceAll(z, Triple(a, b))
  {
    TripleIsSafe(a, b);
    OneMarkerEach(a, b);
    FirstKeepsBoundary(b + [a] + b, z, Triple(a, b));
    OutSplits(b + [a] + b, z, Triple(a, b));
  }

  lemma WholeReads(g: Bytes, z: Bytes, a: Byte, b: Bytes)
    requires Distinguished(a, b)
    requires Boundary(Mask(g + [a] + (b + [a] + b + z), Triple(a, b)), Triple(a, b), |g| + 1)
    ensures ReplaceAll(g + [a] + (b + [a] + b + z), Triple(a, b)) ==
            (ReplaceAll(g, Triple(a, b)) + Marker()) + (Marker() + ReplaceAll(z, Triple(a, b)))
  {
    TripleIsSafe(a, b);
    OutSplits(g + [a], b + [a] + b + z, Triple(a, b));
    BehindByte(g, a, b);
    FirstReads(z, a, b);
  }

  lemma Rejoin(g: Bytes, z: Bytes, a: Byte, b: Bytes)
    ensures g + [a] + (b + [a] + b + z) == g + ([a] + b) + ([a] + b + z)
  {
  }

  /** The first secret is not found in front, because it is behind the byte. */
  lemma NotInFront(g: Bytes, z: Bytes, a: Byte, b: Bytes)
    requires Distinguished(a, b)
    requires !Boundary(Mask(g + [a] + (b + [a] + b + z), Triple(a, b)), Triple(a, b), |g| + 1 + |b|)
    ensures !Survives(g + ([a] + b), b + [a] + b, Triple(a, b))
  {
    TripleIsSafe(a, b);
    Rejoin(g, z, a, b);
    if Survives(g + ([a] + b), b + [a] + b, Triple(a, b)) {
      FirstStays(g + ([a] + b), [a] + b + z, Triple(a, b));
    }
  }

  /** The split secret and what is found instead read the same. */
  lemma SplitReads(g: Bytes, z: Bytes, a: Byte, b: Bytes)
    requires Distinguished(a, b)
    requires Boundary(Mask(g + [a] + (b + [a] + b + z), Triple(a, b)), Triple(a, b), |g| + 1)
    requires !Boundary(Mask(g + [a] + (b + [a] + b + z), Triple(a, b)), Triple(a, b), |g| + 1 + |b|)
    ensures ReplaceAll(g + [a] + (b + [a] + b + z), Triple(a, b)) ==
            ReplaceAll(g + ([a] + b), Triple(a, b)) + ReplaceAll([a] + b + z, Triple(a, b))
  {
    WholeReads(g, z, a, b);
    NotInFront(g, z, a, b);
    BehindPair(g, a, b);
    PairReads(z, a, b);
  }

  lemma SplitText(x: Bytes, a: Byte, b: Bytes, q: nat)
    requires q > 0 && OccursAt(x, b + [a] + b, q) && x[q - 1] == a
    ensures var g, z := x[..q - 1], x[q + 2 * |b| + 1..];
            && x == g + [a] + (b + [a] + b + z)
            && x[..q + |b|] == g + ([a] + b) && x[q + |b|..] == [a] + b + z
  {
    var s := b + [a] + b;
    assert x[q..q + |s|] == s;
    assert x[q..q + |b|] == s[..|b|] == b && x[q + |b|..q + |s|] == s[|b|..] == [a] + b;
  }

  /** The text round a cut that splits. */
  ghost predicate Parts(x: Bytes, c: nat, g: Bytes, z: Bytes, a: Byte, b: Bytes) {
    && x == g + [a] + (b + [a] + b + z) && c == |g| + 1 + |b| <= |x|
    && x[..c] == g + ([a] + b) && x[c..] == [a] + b + z
  }

  lemma PartsAt(x: Bytes, a: Byte, b: Bytes, q: nat) returns (g: Bytes, z: Bytes)
    requires q > 0 && OccursAt(x, b + [a] + b, q) && x[q - 1] == a
    ensures |g| + 1 == q && Parts(x, q + |b|, g, z, a, b)
  {
    SplitText(x, a, b, q);
    g, z := x[..q - 1], x[q + 2 * |b| + 1..];
  }

  lemma SplitWhere(p: Bytes, future: Bytes, a: Byte, b: Bytes, x: Bytes, c: nat) returns (q: nat)
    requires Distinguished(a, b) && x == p + future && c == Cut(p, Triple(a, b))
    requires !Boundary(Mask(x, Triple(a, b)), Triple(a, b), c)
    ensures q > 0 && OccursAt(x, b + [a] + b, q) && x[q - 1] == a && c == q + |b|
    ensures Boundary(Mask(x, Triple(a, b)), Triple(a, b), q)
  {
    var s;
    s, q := AcrossIs(x, Triple(a, b), c);
    SplitShape(p, future, a, b, s, q);
  }

  lemma PartsRead(x: Bytes, c: nat, q: nat, g: Bytes, z: Bytes, a: Byte, b: Bytes)
    requires Distinguished(a, b) && q == |g| + 1 && Parts(x, c, g, z, a, b)
    requires Boundary(Mask(x, Triple(a, b)), Triple(a, b), q) && !Boundary(Mask(x, Triple(a, b)), Triple(a, b), c)
    ensures ReplaceAll(x, Triple(a, b)) == ReplaceAll(x[..c], Triple(a, b)) + ReplaceAll(x[c..], Triple(a, b))
  {
    SplitReads(g, z, a, b);
  }

  lemma StepInside(p: Bytes, future: Bytes, x: Bytes, c: nat, a: Byte, b: Bytes)
    requires Distinguished(a, b) && x == p + future && c == Cut(p, Triple(a, b))
    requires !Boundary(Mask(x, Triple(a, b)), Triple(a, b), c)
    ensures ReplaceAll(x, Triple(a, b)) == ReplaceAll(x[..c], Triple(a, b)) + ReplaceAll(x[c..], Triple(a, b))
  {
    var q := SplitWhere(p, future, a, b, x, c);
    var g, z := PartsAt(x, a, b, q);
    PartsRead(x, c, q, g, z, a, b);
  }

  lemma StepReads(p: Bytes, future: Bytes, a: Byte, b: Bytes)
    requires Distinguished(a, b)
    ensures ReadsSplit(p, future, Triple(a, b))
  {
    var x, c := p + future, Cut(p, Triple(a, b));
    if Boundary(Mask(x, Triple(a, b)), Triple(a, b), c) {
      TripleIsSafe(a, b);
      ReadsAtBoundary(p, future, Triple(a, b));
    } else {
      StepInside(p, future, x, c, a, b);
      ReadsFromParts(p, future, Triple(a, b), x, c);
    }
  }

  lemma LastOfPair(a: Byte, b: Bytes)
    requires Distinguished(a, b)
    ensures Survives([a] + (b + [a] + b), b + [a] + b, Triple(a, b))
  {
    var secrets, s := Triple(a, b), b + [a] + b;
    var x := Lift([a] + s);
    assert x == [Raw(a)] + Lift(s) && x[1..] == Lift(s);
    assert s[0] in b && x[..|s|][0] == Raw(a) && Lift(s)[0] == Raw(s[0]);
    assert Lift(s)[..|s|] == Lift(s) && Lift(s)[|s|..] == [];
    assert Put(Lift(s), s, 0) == [Mark(0)] + [] == [Mark(0)];
    assert Put(x, s, 0) == [Raw(a)] + ([Mark(0)] + []);
    MaskFromAround([Raw(a)], Mark(0), [], secrets, 1);
    MaskFromExpands([], secrets, 1);
    Grows(MaskFrom([], secrets, 1), secrets);
  }

  lemma TripleSameOutput(a: Byte, b: Bytes)
    requires Distinguished(a, b)
    ensures SameOutput(Triple(a, b))
  {
    forall p: Bytes, future: Bytes
      ensures ReadsSplit(p, future, Triple(a, b))
    {
      StepReads(p, future, a, b);
    }
    OneCutDecides(Triple(a, b));
  }

  /** The second secret and the first behind it, which survives. */
  lemma PairLinks(a: Byte, b: Bytes) returns (l: Links)
    requires Distinguished(a, b)
    ensures Linked(l, Triple(a, b)) && l.secret == b + [a] + b && Span(l) == [a] + (b + [a] + b)
  {
    var s := b + [a] + b;
    l := Then(First([a] + b), s, |b|);
    assert ([a] + b)[1..] == b == s[..|b|] && s[|b|..] == [a] + b;
    assert Linked(First([a] + b), Triple(a, b));
    assert [a] + b + ([a] + b) == [a] + s;
  }

  lemma TripleSurvives(a: Byte, b: Bytes)
    requires Distinguished(a, b)
    ensures !LongChainsYield(Triple(a, b))
  {
    var l := PairLinks(a, b);
    TripleIsSafe(a, b);
    LastOfPair(a, b);
    assert |Span(l)| > Longest(Triple(a, b));
  }

  /** With three secrets the condition for the same replacements is not needed for the
      same output: a long chain survives, and no stream reads differently. */
  lemma SameOutputOtherSecrets(a: Byte, b: Bytes)
    requires Distinguished(a, b)
    ensures SameOutput(Triple(a, b)) && !LongChainsYield(Triple(a, b)) && !SameSecrets(Triple(a, b))
  {
    TripleSameOutput(a, b);
    TripleSurvives(a, b);
    SameSecretsExactly(Triple(a, b));
  }
}
