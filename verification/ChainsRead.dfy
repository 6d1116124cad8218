/** When the output does not depend on the chunking, for any number of secrets: the
    texts in which a cut splits a secret that is replaced, reduced to chains. */
module ChainsRead {
  import opened Redaction
  import opened CopyRedacted
  import opened SecretChains
  import opened Masking
  import opened MaskExact
  import opened MaskRender
  import opened OutputShows

  /** With `m` bytes of the chain read, the cut falls into its last secret, and in the
      chain with `y` behind it a secret is replaced across the cut. */
  ghost predicate Divides(l: Links, m: nat, y: Bytes, secrets: seq<Bytes>)
    requires NonEmpty(secrets)
  {
    && m < |Span(l)| && |Span(l)| - |l.secret| < Cut(Span(l)[..m], secrets)
    && !Boundary(Mask(Span(l) + y, secrets), secrets, Cut(Span(l)[..m], secrets))
  }

  /** The two parts of the chain read like the whole. */
  ghost predicate PartsRead(l: Links, m: nat, y: Bytes, secrets: seq<Bytes>)
    requires NonEmpty(secrets)
  {
    m <= |Span(l)| && ReadsSplit(Span(l)[..m], Span(l)[m..] + y, secrets)
  }

  /** Where a chain that spans more than the longest secret is divided, its parts read
      like the whole. */
  ghost predicate LongChainsRead(secrets: seq<Bytes>)
    requires NonEmpty(secrets)
  {
    forall l, m: nat, y {:trigger Divides(l, m, y, secrets)} ::
      Linked(l, secrets) && |Span(l)| > Longest(secrets) && Divides(l, m, y, secrets) ==> PartsRead(l, m, y, secrets)
  }

  lemma CleanBehind(p: Bytes, secrets: seq<Bytes>, d: nat, c: nat)
    requires d <= c <= |p| && Clean(p, secrets, d)
    ensures Clean(p, secrets, c) <==> Clean(p[d..], secrets, c - d)
  {
    assert p == p[..d] + p[d..];
    forall s | s in secrets
      ensures Clear(p, s, c) <==> Clear(p[d..], s, c - d)
    {
      ClearBehind(p[..d], p[d..], s, c - d);
    }
  }

  lemma ClearBehind(a: Bytes, b: Bytes, s: Bytes, c: nat)
    requires Clear(a + b, s, |a|)
    ensures Clear(a + b, s, |a| + c) <==> Clear(b, s, c)
  {
    if Clear(a + b, s, |a| + c) {
      ClearShifts(a, b, s, c);
    } else {
      var p :| OccursAt(a + b, s, p) && p < |a| + c < p + |s|;
      OccursShifted(a, b, s, p - |a|);
      assert OccursAt(b, s, p - |a|);
    }
  }

  /** What is read before a clean position does not move the cut behind it. */
  lemma CutBehind(p: Bytes, secrets: seq<Bytes>, d: nat)
    requires NonEmpty(secrets) && d < FirstCut(p, secrets) && Clean(p, secrets, d)
    ensures Cut(p[d..], secrets) == Cut(p, secrets) - d
  {
    var c, e := Cut(p, secrets), Cut(p[d..], secrets);
    assert FirstCut(p[d..], secrets) == FirstCut(p, secrets) - d;
    CleanBehind(p, secrets, d, c);
    CleanBehind(p, secrets, d, d + e);
  }

  lemma NotInside(x: Bytes, secrets: seq<Bytes>, d: nat, s: Bytes, q: int)
    requires Clean(x, secrets, d) && s in secrets && OccursAt(x, s, q)
    ensures !(q < d < q + |s|)
  {
    assert Clear(x, s, d);
  }

  /** A position inside no occurrence is inside no mark. */
  lemma CleanBoundary(x: Bytes, secrets: seq<Bytes>, d: nat)
    requires NonEmpty(secrets) && d <= |x| && Clean(x, secrets, d)
    ensures Boundary(Mask(x, secrets), secrets, d)
  {
    if !Boundary(Mask(x, secrets), secrets, d) {
      var s, q := AcrossIs(x, secrets, d);
      NotInside(x, secrets, d, s, q);
    }
  }

  lemma CleanPrefix(p: Bytes, secrets: seq<Bytes>, d: nat, c: nat)
    requires d <= c <= |p| && Clean(p, secrets, d)
    ensures Clean(p[..c], secrets, d)
  {
    assert p == p[..c] + p[c..];
    forall s, r | s in secrets && OccursAt(p[..c], s, r)
      ensures !(r < d < r + |s|)
    {
      OccursInPrefix(p[..c], p[c..], s, r);
      assert Clear(p, s, d);
    }
  }

  /** The whole text has a boundary where the pending text is clean before a secret that
      is replaced across the cut. */
  lemma WholeBoundary(p: Bytes, future: Bytes, s: Bytes, secrets: seq<Bytes>, d: nat, q: nat, e: nat)
    requires NonEmpty(secrets) && Clean(p, secrets, d) && d <= q <= |p| <= e <= |p + future| && e == q + |s|
    requires Survives((p + future)[..e], s, secrets) && Boundary(Mask(p + future, secrets), secrets, e)
    ensures Boundary(Mask(p + future, secrets), secrets, d)
  {
    var x := p + future;
    var front, back := x[..e], x[e..];
    assert x == front + back;
    PrefixOccurrences(p, future, e, secrets);
    CleanIsBoundary(p, front, s, secrets, d);
    MaskSplits(front, back, secrets);
    BoundaryGrows(Mask(front, secrets), Mask(back, secrets), secrets, d);
  }

  lemma BoundaryGrows(a: Text, b: Text, secrets: seq<Bytes>, d: nat)
    requires Boundary(a, secrets, d)
    ensures Boundary(a + b, secrets, d)
  {
    var j :| 0 <= j <= |a| && |Expand(a[..j], secrets)| == d;
    assert (a + b)[..j] == a[..j];
  }

  lemma BoundaryLater(a: Text, b: Text, secrets: seq<Bytes>, d: nat)
    requires Boundary(b, secrets, d)
    ensures Boundary(a + b, secrets, |Expand(a, secrets)| + d)
  {
    var j :| 0 <= j <= |b| && |Expand(b[..j], secrets)| == d;
    assert (a + b)[..|a| + j] == a + b[..j];
    ExpandConcat(a, b[..j], secrets);
  }

  /** Behind a boundary, what lies across a position still does. */
  lemma AcrossBehind(x: Bytes, secrets: seq<Bytes>, d: nat, c: nat)
    requires NonEmpty(secrets) && d <= c <= |x| && Boundary(Mask(x, secrets), secrets, d)
    requires !Boundary(Mask(x, secrets), secrets, c)
    ensures !Boundary(Mask(x[d..], secrets), secrets, c - d)
  {
    assert x == x[..d] + x[d..];
    MaskSplits(x[..d], x[d..], secrets);
    MaskExpands(x[..d], secrets);
    if Boundary(Mask(x[d..], secrets), secrets, c - d) {
      BoundaryLater(Mask(x[..d], secrets), Mask(x[d..], secrets), secrets, c - d);
    }
  }

  /** The mark across the cut ends at a boundary, too. */
  lemma AcrossEnds(x: Bytes, secrets: seq<Bytes>, n: nat) returns (s: Bytes, q: nat, e: nat)
    requires NonEmpty(secrets) && n <= |x| && !Boundary(Mask(x, secrets), secrets, n)
    ensures s in secrets && OccursAt(x, s, q) && q < n < e == q + |s| <= |x| && Survives(x[..e], s, secrets)
    ensures Boundary(Mask(x, secrets), secrets, e)
  {
    var y := Mask(x, secrets);
    MaskExpands(x, secrets);
    var j := Across(y, secrets, n);
    q, s := |Expand(y[..j], secrets)|, secrets[y[j].index];
    e := q + |s|;
    SurvivesTo(x, secrets, j);
    MarkOccurs(x, y, j, secrets);
    assert |Expand(y[..j + 1], secrets)| == e;
  }

  lemma Before(p: Bytes, secrets: seq<Bytes>, d: nat, q: nat)
    requires NonEmpty(secrets) && Clean(p, secrets, d) && d <= q < Cut(p, secrets)
    ensures d < FirstCut(p, secrets)
  {
  }

  lemma ChainSlices(x: Bytes, p: Bytes, future: Bytes, d: nat, e: nat)
    requires x == p + future && d <= |p| <= e <= |x|
    ensures x[d..e][..|p| - d] == p[d..] && x[d..e][|p| - d..] + x[e..] == future && x[d..e] + x[e..] == x[d..]
  {
    var tail := x[|p|..e];
    assert x[d..|p|] == p[d..] && x[|p|..] == future;
    assert x[d..e] == p[d..] + tail;
    assert future == tail + x[e..];
  }

  /** A cut through a replaced secret divides a long chain. */
  lemma SplitDivides(p: Bytes, future: Bytes, secrets: seq<Bytes>, x: Bytes) returns (l: Links, d: nat, e: nat)
    requires NonEmpty(secrets) && x == p + future && !Boundary(Mask(x, secrets), secrets, Cut(p, secrets))
    ensures Linked(l, secrets) && |Span(l)| > Longest(secrets) && d < FirstCut(p, secrets) && Clean(p, secrets, d)
    ensures |p| <= e <= |x| && Span(l) == x[d..e] && Divides(l, |p| - d, x[e..], secrets)
    ensures Boundary(Mask(x, secrets), secrets, d)
  {
    var c := Cut(p, secrets);
    var s, q;
    s, q, e := AcrossEnds(x, secrets, c);
    SplitEndsLater(p, future, secrets, s, q);
    l, d := SplitEndsChain(p, future, secrets, s, q);
    Before(p, secrets, d, q);
    WholeBoundary(p, future, s, secrets, d, q, e);
    AcrossBehind(x, secrets, d, c);
    CutBehind(p, secrets, d);
    ChainSlices(x, p, future, d, e);
  }

  lemma FrontReads(p: Bytes, secrets: seq<Bytes>, d: nat, c: nat)
    requires NonEmpty(secrets) && MarkerSafe(secrets) && d <= c <= |p| && Clean(p, secrets, d)
    ensures ReplaceAll(p[..c], secrets) == ReplaceAll(p[..d], secrets) + ReplaceAll(p[d..c], secrets)
  {
    CleanPrefix(p, secrets, d, c);
    CleanBoundary(p[..c], secrets, d);
    assert p[..d] + p[d..c] == p[..c];
    OutSplits(p[..d], p[d..c], secrets);
  }

  lemma BehindSlices(p: Bytes, future: Bytes, d: nat, c: nat)
    requires d <= c <= |p|
    ensures p + future == p[..d] + (p[d..] + future)
    ensures p[d..][..c - d] == p[d..c] && p[d..][c - d..] == p[c..]
  {
  }

  /** In front of a boundary nothing changes. */
  lemma SplitsBehind(p: Bytes, future: Bytes, secrets: seq<Bytes>, d: nat, c: nat)
    requires NonEmpty(secrets) && MarkerSafe(secrets) && d <= c == Cut(p, secrets)
    requires Clean(p, secrets, d) && Boundary(Mask(p + future, secrets), secrets, d) && Cut(p[d..], secrets) == c - d
    requires ReadsSplit(p[d..], future, secrets)
    ensures ReadsSplit(p, future, secrets)
  {
    BehindSlices(p, future, d, c);
    FrontReads(p, secrets, d, c);
    OutSplits(p[..d], p[d..] + future, secrets);
    JoinFront(ReplaceAll(p + future, secrets), ReplaceAll(p[..c], secrets), ReplaceAll(p[..d], secrets),
              ReplaceAll(p[d..c], secrets), ReplaceAll(p[c..] + future, secrets));
  }

  lemma CutAt(p: Bytes, future: Bytes, x: Bytes, c: nat)
    requires x == p + future && c <= |p|
    ensures p[..c] == x[..c] && p[c..] + future == x[c..]
  {
  }

  lemma ReadsFromParts(p: Bytes, future: Bytes, secrets: seq<Bytes>, x: Bytes, c: nat)
    requires NonEmpty(secrets) && x == p + future && c == Cut(p, secrets)
    requires ReplaceAll(x, secrets) == ReplaceAll(x[..c], secrets) + ReplaceAll(x[c..], secrets)
    ensures ReadsSplit(p, future, secrets)
  {
    CutAt(p, future, x, c);
  }

  /** A cut between the marks of the whole text changes nothing. */
  lemma ReadsAtBoundary(p: Bytes, future: Bytes, secrets: seq<Bytes>)
    requires NonEmpty(secrets) && MarkerSafe(secrets)
    requires Boundary(Mask(p + future, secrets), secrets, Cut(p, secrets))
    ensures ReadsSplit(p, future, secrets)
  {
    var x, c := p + future, Cut(p, secrets);
    assert x == x[..c] + x[c..];
    OutSplits(x[..c], x[c..], secrets);
    ReadsFromParts(p, future, secrets, x, c);
  }

  lemma CutReads(p: Bytes, future: Bytes, secrets: seq<Bytes>)
    requires NonEmpty(secrets) && MarkerSafe(secrets) && LongChainsRead(secrets)
    ensures ReadsSplit(p, future, secrets)
  {
    var x, c := p + future, Cut(p, secrets);
    if Boundary(Mask(x, secrets), secrets, c) {
      ReadsAtBoundary(p, future, secrets);
    } else {
      var l, d, e := SplitDivides(p, future, secrets, x);
      assert PartsRead(l, |p| - d, x[e..], secrets);
      ChainSlices(x, p, future, d, e);
      CutBehind(p, secrets, d);
      SplitsBehind(p, future, secrets, d, c);
    }
  }

  lemma ChainsSuffice(secrets: seq<Bytes>)
    requires NonEmpty(secrets) && MarkerSafe(secrets) && LongChainsRead(secrets)
    ensures SameOutput(secrets)
  {
    forall p: Bytes, future: Bytes
      ensures ReadsSplit(p, future, secrets)
    {
      CutReads(p, future, secrets);
    }
    OneCutDecides(secrets);
  }

  lemma OneCutReads(x: Bytes, y: Bytes, secrets: seq<Bytes>)
    requires NonEmpty(secrets) && EveryCutReads(secrets)
    ensures ReadsSplit(x, y, secrets)
  {
  }

  lemma EveryCutSuffices(secrets: seq<Bytes>)
    requires NonEmpty(secrets) && EveryCutReads(secrets)
    ensures LongChainsRead(secrets)
  {
    forall l, m: nat, y | m <= |Span(l)|
      ensures PartsRead(l, m, y, secrets)
    {
      OneCutReads(Span(l)[..m], Span(l)[m..] + y, secrets);
    }
  }

  /** For any secrets, equal output needs that every divided long chain reads like the
      whole; and for any secrets whose later ones are apart from the marker, the output is
      the replacement of the whole for every chunking if and only if they do. */
  lemma SameOutputChains(secrets: seq<Bytes>)
    requires NonEmpty(secrets)
    ensures SameOutput(secrets) ==> LongChainsRead(secrets)
    ensures MarkerSafe(secrets) ==> (SameOutput(secrets) <==> LongChainsRead(secrets))
  {
    OneCutDecides(secrets);
    if EveryCutReads(secrets) {
      EveryCutSuffices(secrets);
    } else if MarkerSafe(secrets) && LongChainsRead(secrets) {
      ChainsSuffice(secrets);
    }
  }

  lemma NotDivided(l: Links, m: nat, y: Bytes, secrets: seq<Bytes>)
    requires NonEmpty(secrets) && LongChainsYield(secrets)
    ensures !Divides(l, m, y, secrets)
  {
    if m < |Span(l)| {
      var p, future := Span(l)[..m], Span(l)[m..] + y;
      assert p + future == Span(l) + y;
      CutIsBoundary(p, future, secrets);
    }
  }

  /** Where the last secrets yield, no long chain is divided. */
  lemma YieldingRead(secrets: seq<Bytes>)
    requires NonEmpty(secrets) && LongChainsYield(secrets)
    ensures LongChainsRead(secrets)
  {
    forall l, m: nat, y
      ensures !Divides(l, m, y, secrets)
    {
      NotDivided(l, m, y, secrets);
    }
  }
}
