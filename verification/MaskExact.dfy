/** Exactly when the chunking decides which secrets are replaced, for any number of
    secrets. */
module MaskExact {
  import opened Redaction
  import opened CopyRedacted
  import opened SecretChains
  import opened Masking

  /** The pieces of a run, masked one by one. */
  function Masked(segments: seq<Bytes>, secrets: seq<Bytes>): Text
    requires NonEmpty(secrets)
  {
    if segments == [] then [] else Mask(segments[0], secrets) + Masked(segments[1..], secrets)
  }

  /** However a stream is chunked, the same bytes are replaced by the same secrets. */
  ghost predicate SameSecrets(secrets: seq<Bytes>)
    requires NonEmpty(secrets)
  {
    forall chunks :: NonEmpty(chunks) ==>
                       Masked(Segments([], chunks, secrets), secrets) == Mask(Concat(chunks), secrets)
  }

  /** The secret at the end of the text is replaced there. */
  predicate Survives(x: Bytes, s: Bytes, secrets: seq<Bytes>)
    requires NonEmpty(secrets)
  {
    var y := Mask(x, secrets);
    y != [] && IsMark(y[|y| - 1], s, secrets)
  }

  predicate IsMark(c: Symbol, s: Bytes, secrets: seq<Bytes>) {
    c.Mark? && c.index < |secrets| && secrets[c.index] == s
  }

  /** In a chain that spans more than the longest secret, an earlier secret takes the
      last one's bytes. */
  ghost predicate LongChainsYield(secrets: seq<Bytes>)
    requires NonEmpty(secrets)
  {
    forall l :: Linked(l, secrets) && |Span(l)| > Longest(secrets) ==> !Survives(Span(l), l.secret, secrets)
  }

  // ------------------------------------------------------------ it is needed

  /** A replaced secret at the end of a text has no boundary inside. */
  lemma LastMark(x: Bytes, s: Bytes, secrets: seq<Bytes>, n: nat)
    requires NonEmpty(secrets) && Survives(x, s, secrets) && Boundary(Mask(x, secrets), secrets, n)
    ensures n <= |x| - |s| || n >= |x|
  {
    var y := Mask(x, secrets);
    var k := |y| - 1;
    MaskExpands(x, secrets);
    MarkOccurs(x, y, k, secrets);
    assert y[..k + 1] == y;
    var j :| 0 <= j <= |y| && |Expand(y[..j], secrets)| == n;
    if j <= k {
      PrefixesGrow(y, secrets, j, k);
    }
  }

  lemma MaskedCons(a: Bytes, rest: seq<Bytes>, secrets: seq<Bytes>)
    requires NonEmpty(secrets)
    ensures Masked([a] + rest, secrets) == Mask(a, secrets) + Masked(rest, secrets)
  {
    assert ([a] + rest)[1..] == rest;
  }

  lemma FirstBoundary(p: Bytes, b: Bytes, secrets: seq<Bytes>)
    requires NonEmpty(secrets) && p != [] && b != [] && SameSecrets(secrets)
    ensures Boundary(Mask(p + b, secrets), secrets, Cut(p, secrets))
  {
    var c, chunks := Cut(p, secrets), [p, b];
    var rest := Segments(p[c..], [b], secrets);
    assert NonEmpty(chunks) && [] + p == p && chunks[1..] == [b];
    ConcatPair(p, b);
    assert Segments([], chunks, secrets) == [p[..c]] + rest;
    MaskedCons(p[..c], rest, secrets);
    MaskExpands(p[..c], secrets);
    PrefixBoundary(Mask(p[..c], secrets), Masked(rest, secrets), secrets);
  }

  lemma CutInLast(l: Links, secrets: seq<Bytes>)
    requires NonEmpty(secrets) && Linked(l, secrets) && |Span(l)| > Longest(secrets)
    ensures |Span(l)| > 1
    ensures |Span(l)| - |l.secret| < Cut(Span(l)[..|Span(l)| - 1], secrets) < |Span(l)|
  {
    LongCut([], l, secrets);
    assert [] + Span(l) == Span(l);
  }

  /** A text that ends with a replaced secret, read up to its last byte. */
  lemma LastMarkShows(x: Bytes, s: Bytes, secrets: seq<Bytes>)
    requires NonEmpty(secrets) && |x| > 1 && Survives(x, s, secrets)
    requires |x| - |s| < Cut(x[..|x| - 1], secrets) < |x|
    ensures !SameSecrets(secrets)
  {
    assert x[..|x| - 1] + x[|x| - 1..] == x;
    if SameSecrets(secrets) {
      FirstBoundary(x[..|x| - 1], x[|x| - 1..], secrets);
      LastMark(x, s, secrets, Cut(x[..|x| - 1], secrets));
    }
  }

  /** A long chain whose last secret survives is cut inside it. */
  lemma SurvivorShows(l: Links, secrets: seq<Bytes>)
    requires NonEmpty(secrets) && Linked(l, secrets) && |Span(l)| > Longest(secrets)
    requires Survives(Span(l), l.secret, secrets)
    ensures !SameSecrets(secrets)
  {
    CutInLast(l, secrets);
    LastMarkShows(Span(l), l.secret, secrets);
  }

  // ------------------------------------------------------------ it suffices

  /** Up to the end of a mark the text is masked on its own. */
  lemma UpToMark(x: Bytes, secrets: seq<Bytes>, j: nat, e: nat)
    requires NonEmpty(secrets) && j < |Mask(x, secrets)| && e == |Expand(Mask(x, secrets)[..j + 1], secrets)| <= |x|
    ensures Mask(x[..e], secrets) == Mask(x, secrets)[..j + 1]
  {
    var y := Mask(x, secrets);
    assert x == x[..e] + x[e..];
    assert Boundary(y, secrets, e);
    MaskSplits(x[..e], x[e..], secrets);
    var k := |Mask(x[..e], secrets)|;
    MaskExpands(x[..e], secrets);
    assert y[..k] == Mask(x[..e], secrets);
    if k < j + 1 {
      PrefixesGrow(y, secrets, k, j + 1);
    } else {
      PrefixesGrow(y, secrets, j + 1, k);
    }
  }

  /** The last mark of a text is left when the text is shortened up to a boundary. */
  lemma SurvivesBehind(x: Bytes, s: Bytes, secrets: seq<Bytes>, d: nat)
    requires NonEmpty(secrets) && Survives(x, s, secrets) && d < |x| && Boundary(Mask(x, secrets), secrets, d)
    ensures Survives(x[d..], s, secrets)
  {
    assert x == x[..d] + x[d..];
    MaskSplits(x[..d], x[d..], secrets);
    MaskExpands(x[d..], secrets);
    var a, b := Mask(x[..d], secrets), Mask(x[d..], secrets);
    assert b != [];
    assert (a + b)[|a + b| - 1] == b[|b| - 1];
  }

  /** What the longer text holds up to the end of the pending text is in it already. */
  ghost predicate SameUpTo(p: Bytes, x: Bytes, secrets: seq<Bytes>) {
    forall r, u :: u in secrets && OccursAt(x, u, r) && r + |u| <= |p| ==> OccursAt(p, u, r)
  }

  lemma NotAcross(p: Bytes, x: Bytes, secrets: seq<Bytes>, u: Bytes, r: int, d: int)
    requires u in secrets && Clean(p, secrets, d) && SameUpTo(p, x, secrets) && OccursAt(x, u, r) && r + |u| <= |p|
    ensures !(r < d < r + |u|)
  {
    assert Clear(p, u, d);
  }

  /** Where the pending text is clean, nothing before a surviving secret lies across. */
  lemma CleanIsBoundary(p: Bytes, x: Bytes, s: Bytes, secrets: seq<Bytes>, d: nat)
    requires NonEmpty(secrets) && Survives(x, s, secrets) && Clean(p, secrets, d)
    requires d <= |x| - |s| <= |p| && SameUpTo(p, x, secrets)
    ensures Boundary(Mask(x, secrets), secrets, d)
  {
    var y := Mask(x, secrets);
    var k := |y| - 1;
    MaskExpands(x, secrets);
    MarkOccurs(x, y, k, secrets);
    assert y[..k + 1] == y;
    if !Boundary(y, secrets, d) {
      var j := Across(y, secrets, d);
      MarkOccurs(x, y, j, secrets);
      MarkBefore(y, secrets, j, k, d);
      NotAcross(p, x, secrets, secrets[y[j].index], |Expand(y[..j], secrets)|, d);
    }
  }

  /** A mark across a position before the last mark ends before the last mark. */
  lemma MarkBefore(y: Text, secrets: seq<Bytes>, j: nat, k: nat, d: nat)
    requires NonEmpty(secrets) && j <= k < |y| && d <= |Expand(y[..k], secrets)| && |Expand(y[..j], secrets)| < d
    ensures j < k && |Expand(y[..j + 1], secrets)| <= |Expand(y[..k], secrets)|
  {
    if j < k {
      PrefixesGrow(y, secrets, j + 1, k);
    }
  }

  lemma PrefixOccurrences(p: Bytes, future: Bytes, e: nat, secrets: seq<Bytes>)
    requires |p| <= e <= |p + future|
    ensures SameUpTo(p, (p + future)[..e], secrets)
  {
    var x := p + future;
    assert x == x[..e] + x[e..];
    forall r, u | u in secrets && OccursAt(x[..e], u, r) && r + |u| <= |p|
      ensures OccursAt(p, u, r)
    {
      OccursInPrefix(x[..e], x[e..], u, r);
      OccursInPrefix(p, future, u, r);
    }
  }

  lemma SurvivesTo(x: Bytes, secrets: seq<Bytes>, j: nat)
    requires NonEmpty(secrets)
    requires var y := Mask(x, secrets); j < |y| && y[j].Mark? && y[j].index < |secrets|
    ensures var y := Mask(x, secrets);
            var q, s := |Expand(y[..j], secrets)|, secrets[y[j].index];
            OccursAt(x, s, q) && Survives(x[..q + |s|], s, secrets)
  {
    var y := Mask(x, secrets);
    var q, s, e := |Expand(y[..j], secrets)|, secrets[y[j].index], |Expand(y[..j + 1], secrets)|;
    MaskExpands(x, secrets);
    MarkOccurs(x, y, j, secrets);
    assert e == q + |s|;
    UpToMark(x, secrets, j, e);
    LastOfPrefix(x[..e], y, s, secrets, j);
  }

  lemma LastOfPrefix(x: Bytes, y: Text, s: Bytes, secrets: seq<Bytes>, j: nat)
    requires NonEmpty(secrets) && j < |y| && IsMark(y[j], s, secrets) && Mask(x, secrets) == y[..j + 1]
    ensures Survives(x, s, secrets)
  {
  }

  /** What lies across a position that is no boundary. */
  lemma AcrossIs(x: Bytes, secrets: seq<Bytes>, n: nat) returns (s: Bytes, q: nat)
    requires NonEmpty(secrets) && n <= |x| && !Boundary(Mask(x, secrets), secrets, n)
    ensures s in secrets && OccursAt(x, s, q) && q < n < q + |s| && Survives(x[..q + |s|], s, secrets)
    ensures Boundary(Mask(x, secrets), secrets, q)
    ensures forall k :: q < k < q + |s| ==> !Boundary(Mask(x, secrets), secrets, k)
  {
    var y := Mask(x, secrets);
    MaskExpands(x, secrets);
    var j := Across(y, secrets, n);
    q, s := |Expand(y[..j], secrets)|, secrets[y[j].index];
    SurvivesTo(x, secrets, j);
    MarkOccurs(x, y, j, secrets);
    forall k | q < k < q + |s|
      ensures !Boundary(y, secrets, k)
    {
      InsideMark(y, secrets, j, k);
    }
  }

  lemma InsideMark(y: Text, secrets: seq<Bytes>, j: nat, k: nat)
    requires NonEmpty(secrets) && j < |y| && |Expand(y[..j], secrets)| < k < |Expand(y[..j + 1], secrets)|
    ensures !Boundary(y, secrets, k)
  {
    if Boundary(y, secrets, k) {
      var i :| 0 <= i <= |y| && |Expand(y[..i], secrets)| == k;
      if i <= j {
        PrefixesGrow(y, secrets, i, j);
      } else {
        PrefixesGrow(y, secrets, j + 1, i);
      }
    }
  }

  lemma SurvivesFrom(p: Bytes, future: Bytes, secrets: seq<Bytes>, s: Bytes, q: nat, d: nat)
    requires NonEmpty(secrets) && s != [] && d <= q <= |p| < q + |s| <= |p + future| && Clean(p, secrets, d)
    requires Survives((p + future)[..q + |s|], s, secrets)
    ensures Survives((p + future)[d..q + |s|], s, secrets)
  {
    var x, e := p + future, q + |s|;
    PrefixOccurrences(p, future, e, secrets);
    CleanIsBoundary(p, x[..e], s, secrets, d);
    SurvivesBehind(x[..e], s, secrets, d);
    assert x[..e][d..] == x[d..e];
  }

  /** A replaced secret across the cut ends a long chain, and survives in it. */
  lemma AcrossSurvives(p: Bytes, future: Bytes, secrets: seq<Bytes>, s: Bytes, q: nat) returns (l: Links)
    requires NonEmpty(secrets) && s in secrets && OccursAt(p + future, s, q) && q < Cut(p, secrets) < q + |s|
    requires Survives((p + future)[..q + |s|], s, secrets)
    ensures Linked(l, secrets) && |Span(l)| > Longest(secrets) && Survives(Span(l), l.secret, secrets)
  {
    var d;
    SplitEndsLater(p, future, secrets, s, q);
    l, d := SplitEndsChain(p, future, secrets, s, q);
    SurvivesFrom(p, future, secrets, s, q, d);
  }

  lemma NoSurvivorAcross(p: Bytes, future: Bytes, secrets: seq<Bytes>, s: Bytes, q: nat)
    requires NonEmpty(secrets) && LongChainsYield(secrets) && s in secrets && OccursAt(p + future, s, q)
    requires Survives((p + future)[..q + |s|], s, secrets)
    ensures !(q < Cut(p, secrets) < q + |s|)
  {
    if q < Cut(p, secrets) < q + |s| {
      var l := AcrossSurvives(p, future, secrets, s, q);
    }
  }

  lemma NoMarkAcross(x: Bytes, p: Bytes, future: Bytes, secrets: seq<Bytes>, j: nat)
    requires NonEmpty(secrets) && LongChainsYield(secrets) && x == p + future
    requires var y := Mask(x, secrets); j < |y| && y[j].Mark? && y[j].index < |secrets|
    ensures var y := Mask(x, secrets);
            var q := |Expand(y[..j], secrets)|; !(q < Cut(p, secrets) < q + |secrets[y[j].index]|)
  {
    SurvivesTo(x, secrets, j);
    NoSurvivorAcross(p, future, secrets, secrets[Mask(x, secrets)[j].index], |Expand(Mask(x, secrets)[..j], secrets)|);
  }

  lemma CutIsBoundary(p: Bytes, future: Bytes, secrets: seq<Bytes>)
    requires NonEmpty(secrets) && LongChainsYield(secrets)
    ensures Boundary(Mask(p + future, secrets), secrets, Cut(p, secrets))
  {
    var x := p + future;
    MaskExpands(x, secrets);
    if !Boundary(Mask(x, secrets), secrets, Cut(p, secrets)) {
      var j := Across(Mask(x, secrets), secrets, Cut(p, secrets));
      NoMarkAcross(x, p, future, secrets, j);
    }
  }

  lemma {:induction false} YieldingStreams(pending: Bytes, chunks: seq<Bytes>, secrets: seq<Bytes>)
    requires NonEmpty(secrets) && LongChainsYield(secrets)
    ensures Masked(Segments(pending, chunks, secrets), secrets) == Mask(pending + Concat(chunks), secrets)
    decreases |chunks|
  {
    if chunks == [] {
      MaskedCons(pending, [], secrets);
      assert [pending] + [] == [pending] && pending + Concat([]) == pending;
      assert Mask(pending, secrets) + [] == Mask(pending, secrets);
    } else {
      var p, future := pending + chunks[0], Concat(chunks[1..]);
      var c := Cut(p, secrets);
      MaskedCons(p[..c], Segments(p[c..], chunks[1..], secrets), secrets);
      YieldingStreams(p[c..], chunks[1..], secrets);
      CutIsBoundary(p, future, secrets);
      CutRejoins(pending, chunks[0], c, future);
      MaskSplits(p[..c], p[c..] + future, secrets);
    }
  }

  /** For any secrets: the chunking never decides which secrets are replaced if and only
      if in every chain that spans more than the longest secret the last one yields. */
  lemma SameSecretsExactly(secrets: seq<Bytes>)
    requires NonEmpty(secrets)
    ensures SameSecrets(secrets) <==> LongChainsYield(secrets)
  {
    if LongChainsYield(secrets) {
      forall chunks | NonEmpty(chunks)
        ensures Masked(Segments([], chunks, secrets), secrets) == Mask(Concat(chunks), secrets)
      {
        YieldingStreams([], chunks, secrets);
        assert [] + Concat(chunks) == Concat(chunks);
      }
    } else {
      var l :| Linked(l, secrets) && |Span(l)| > Longest(secrets) && Survives(Span(l), l.secret, secrets);
      SurvivorShows(l, secrets);
    }
  }
}
