/** Chains of overlapping secrets, and exactly when no secret is ever emitted in two
    parts. */
module SecretChains {
  import opened Redaction
  import opened CopyRedacted

  /** Secrets of which each begins strictly inside the one before and ends after it. */
  datatype Links = First(secret: Bytes) | Then(front: Links, secret: Bytes, overlap: nat)

  predicate Linked(l: Links, secrets: seq<Bytes>) {
    l.secret in secrets &&
    (l.Then? ==> Linked(l.front, secrets) && Border(l.front.secret, l.secret, l.overlap))
  }

  /** The text in which the secrets overlap like that. */
  function Span(l: Links): Bytes {
    match l
    case First(s) => s
    case Then(front, s, k) => if k <= |s| then Span(front) + s[k..] else []
  }

  function Longest(secrets: seq<Bytes>): nat
    requires NonEmpty(secrets)
  {
    if secrets == [] then 0 else Keep(secrets) + 1
  }

  /** No chain of secrets spans more than the longest secret. */
  ghost predicate ShortChains(secrets: seq<Bytes>)
    requires NonEmpty(secrets)
  {
    forall l :: Linked(l, secrets) ==> |Span(l)| <= Longest(secrets)
  }

  // ------------------------------------------------------- what a chain covers

  lemma {:induction false} SpanEnds(l: Links, secrets: seq<Bytes>)
    requires Linked(l, secrets)
    ensures EndsWith(Span(l), l.secret)
    decreases l
  {
    match l
    case First(s) => assert s[|s| - |s|..] == s;
    case Then(front, s, k) =>
      SpanEnds(front, secrets);
      BorderAppends(Span(front), front.secret, s, k);
  }

  lemma BorderAppends(x: Bytes, t: Bytes, s: Bytes, k: int)
    requires EndsWith(x, t) && Border(t, s, k)
    ensures EndsWith(x + s[k..], s)
  {
    var y := x + s[k..];
    assert x[|x| - k..] == t[|t| - k..];
    assert y[|y| - |s|..] == x[|x| - k..] + s[k..] == s[..k] + s[k..] == s;
  }

  lemma LastOccurs(l: Links, secrets: seq<Bytes>)
    requires Linked(l, secrets)
    ensures OccursAt(Span(l), l.secret, |Span(l)| - |l.secret|)
  {
    SpanEnds(l, secrets);
    EndOccurs(Span(l), l.secret);
  }

  lemma EndOccurs(x: Bytes, s: Bytes)
    requires EndsWith(x, s)
    ensures OccursAt(x, s, |x| - |s|)
  {
    assert x[|x| - |s|..] == x[|x| - |s|..|x| - |s| + |s|];
  }

  /** Reading on leaves an occurrence that a cut splits. */
  lemma StaysUnclean(x: Bytes, y: Bytes, secrets: seq<Bytes>, c: int)
    requires !Clean(x, secrets, c)
    ensures !Clean(x + y, secrets, c)
  {
    var s :| s in secrets && !Clear(x, s, c);
    var p :| OccursAt(x, s, p) && p < c < p + |s|;
    OccursInPrefix(x, y, s, p);
    assert OccursAt(x + y, s, p);
  }

  /** Every position inside a chain is inside one of its secrets. */
  lemma {:induction false} SpanCovered(l: Links, secrets: seq<Bytes>, c: int)
    requires Linked(l, secrets) && 0 < c < |Span(l)|
    ensures !Clean(Span(l), secrets, c)
    decreases l
  {
    LastOccurs(l, secrets);
    if l.Then? && c < |Span(l.front)| {
      SpanCovered(l.front, secrets, c);
      StaysUnclean(Span(l.front), l.secret[l.overlap..], secrets, c);
    }
  }

  // ------------------------------------------------- a long chain is split

  lemma UncleanLater(a: Bytes, x: Bytes, secrets: seq<Bytes>, c: int)
    requires !Clean(x, secrets, c)
    ensures !Clean(a + x, secrets, |a| + c)
  {
    var s :| s in secrets && !Clear(x, s, c);
    ClearShiftsBack(a, x, s, c);
  }

  /** All secrets of a chain but the last are whole without its last byte. */
  lemma UncleanFront(a: Bytes, l: Links, secrets: seq<Bytes>, c: nat)
    requires Linked(l, secrets) && l.Then? && |a| < c < |a| + |Span(l.front)|
    ensures var x := a + Span(l); !Clean(x[..|x| - 1], secrets, c)
  {
    var x, f, tail := a + Span(l), Span(l.front), l.secret[l.overlap..];
    var rest := tail[..|tail| - 1];
    assert x[..|x| - 1] == a + (f + rest);
    SpanCovered(l.front, secrets, c - |a|);
    StaysUnclean(f, rest, secrets, c - |a|);
    UncleanLater(a, f + rest, secrets, c - |a|);
  }

  /** All but the last byte of a text that ends with a long chain: the cut is moved out
      of every secret of the chain but the last. */
  lemma LongCut(a: Bytes, l: Links, secrets: seq<Bytes>)
    requires NonEmpty(secrets) && Linked(l, secrets) && |Span(l)| > Longest(secrets)
    ensures l.Then? && |Span(l)| > 1
    ensures var x := a + Span(l); |x| - |l.secret| < Cut(x[..|x| - 1], secrets) < |x|
  {
    assert |l.secret| <= Longest(secrets);
    var x, f := a + Span(l), Span(l.front);
    var p := x[..|x| - 1];
    assert |a| < FirstCut(p, secrets) < |a| + |f|;
    forall c | |a| < c < |a| + |f|
      ensures !Clean(p, secrets, c)
    {
      UncleanFront(a, l, secrets, c);
    }
    AfterUnclean(p, secrets, |a|, |f|);
  }

  lemma AfterUnclean(p: Bytes, secrets: seq<Bytes>, a: nat, n: nat)
    requires NonEmpty(secrets) && a < FirstCut(p, secrets) < a + n
    requires forall c :: a < c < a + n ==> !Clean(p, secrets, c)
    ensures Cut(p, secrets) >= a + n
  {
  }

  /** A text whose last secret the first of two reads splits. */
  lemma LastIsSplit(x: Bytes, s: Bytes, secrets: seq<Bytes>)
    requires NonEmpty(secrets) && s in secrets && |x| > 1 && EndsWith(x, s)
    requires |x| - |s| < Cut(x[..|x| - 1], secrets) < |x|
    ensures NonEmpty([x[..|x| - 1], x[|x| - 1..]])
    ensures !Intact(Segments([], [x[..|x| - 1], x[|x| - 1..]], secrets), secrets)
  {
    EndOccurs(x, s);
    assert x[..|x| - 1] + x[|x| - 1..] == x;
    TwoReadsSplit(x[..|x| - 1], x[|x| - 1..], secrets, s);
  }

  lemma LongChainSplits(a: Bytes, l: Links, secrets: seq<Bytes>)
    requires NonEmpty(secrets) && Linked(l, secrets) && |Span(l)| > Longest(secrets)
    ensures var x := a + Span(l);
            && |x| > 1 && NonEmpty([x[..|x| - 1], x[|x| - 1..]])
            && !Intact(Segments([], [x[..|x| - 1], x[|x| - 1..]], secrets), secrets)
  {
    LongCut(a, l, secrets);
    SpanEnds(l, secrets);
    EndsLater(a, Span(l), l.secret);
    LastIsSplit(a + Span(l), l.secret, secrets);
  }

  // ------------------------------------------------ what is split ends a chain

  /** The chain that covers a position, walked back to where the text is clean. */
  lemma ChainBack(p: Bytes, secrets: seq<Bytes>, d: nat, q: nat) returns (l: Links, e: nat)
    requires NonEmpty(secrets) && d < q && Clean(p, secrets, d)
    requires forall c :: d < c <= q ==> !Clean(p, secrets, c)
    ensures Linked(l, secrets) && q < e <= |p| && Span(l) == p[d..e] && e - |l.secret| < q
    decreases q
  {
    assert !Clean(p, secrets, q);
    var t, r :| t in secrets && OccursAt(p, t, r) && r < q < r + |t|;
    assert Clear(p, t, d);
    if r == d {
      l, e := First(t), r + |t|;
    } else {
      l, e := ChainBack(p, secrets, d, r);
      if e <= q {
        AppendLink(p, l, secrets, d, e, t, r);
        l, e := Then(l, t, e - r), r + |t|;
      }
    }
  }

  /** A secret that begins inside the last link and ends after it. */
  lemma AppendLink(x: Bytes, l: Links, secrets: seq<Bytes>, d: nat, e: nat, t: Bytes, r: nat)
    requires Linked(l, secrets) && d <= e <= |x| && Span(l) == x[d..e] && t in secrets
    requires OccursAt(x, t, r) && e - |l.secret| < r < e < r + |t|
    ensures d < r && Linked(Then(l, t, e - r), secrets) && Span(Then(l, t, e - r)) == x[d..r + |t|]
  {
    LinkOccurs(x, l, secrets, d, e);
    OverlapBorders(x, l.secret, e - |l.secret|, t, r);
    LinkText(x, d, e, t, r);
  }

  lemma LinkOccurs(x: Bytes, l: Links, secrets: seq<Bytes>, d: nat, e: nat)
    requires Linked(l, secrets) && d <= e <= |x| && Span(l) == x[d..e]
    ensures OccursAt(x, l.secret, e - |l.secret|) && d <= e - |l.secret|
  {
    SpanEnds(l, secrets);
    SliceOccurs(x, d, e, Span(l), l.secret);
  }

  lemma SliceOccurs(x: Bytes, d: nat, e: nat, y: Bytes, u: Bytes)
    requires d <= e <= |x| && y == x[d..e] && EndsWith(y, u)
    ensures OccursAt(x, u, e - |u|) && d <= e - |u|
  {
    var p := |y| - |u|;
    assert y[p..] == x[d + p..e];
  }

  lemma OverlapBorders(x: Bytes, u: Bytes, q: nat, t: Bytes, r: nat)
    requires OccursAt(x, u, q) && OccursAt(x, t, r) && q < r < q + |u| < r + |t|
    ensures Border(u, t, q + |u| - r)
  {
    var e := q + |u|;
    assert u[r - q..] == x[q..e][r - q..] == x[r..e];
    assert t[..e - r] == x[r..r + |t|][..e - r] == x[r..e];
  }

  lemma LinkText(x: Bytes, d: nat, e: nat, t: Bytes, r: nat)
    requires OccursAt(x, t, r) && d <= e && r <= e <= r + |t|
    ensures x[d..e] + t[e - r..] == x[d..r + |t|]
  {
    assert t[e - r..] == x[r..r + |t|][e - r..] == x[e..r + |t|];
  }

  /** A last clean position exists before any position. */
  lemma LastClean(p: Bytes, secrets: seq<Bytes>, q: nat) returns (d: nat)
    ensures d <= q && Clean(p, secrets, d) && forall c :: d < c <= q ==> !Clean(p, secrets, c)
    decreases q
  {
    if q == 0 || Clean(p, secrets, q) {
      d := q;
    } else {
      d := LastClean(p, secrets, q - 1);
    }
  }

  /** A secret that the cut splits ends a long chain, which begins where the pending
      text is clean. */
  lemma SplitEndsChain(p: Bytes, future: Bytes, secrets: seq<Bytes>, s: Bytes, q: nat) returns (l: Links, d: nat)
    requires NonEmpty(secrets) && s in secrets && OccursAt(p + future, s, q) && q < Cut(p, secrets) < q + |s|
    ensures Linked(l, secrets) && l.secret == s && |Span(l)| > Longest(secrets)
    ensures d <= q && Clean(p, secrets, d) && Span(l) == (p + future)[d..q + |s|]
  {
    var x, c := p + future, Cut(p, secrets);
    SplitEndsLater(p, future, secrets, s, q);
    d := LastClean(p, secrets, q);
    assert d < FirstCut(p, secrets);
    if d == q {
      assert false;
    }
    var e;
    l, e := ChainBack(p, secrets, d, q);
    assert x[d..e] == p[d..e];
    AppendLink(x, l, secrets, d, e, s, q);
    l := Then(l, s, e - q);
  }

  lemma SplitEndsLater(p: Bytes, future: Bytes, secrets: seq<Bytes>, s: Bytes, q: nat)
    requires NonEmpty(secrets) && s in secrets && OccursAt(p + future, s, q) && q < Cut(p, secrets) < q + |s|
    ensures q + |s| > |p| && FirstCut(p, secrets) <= q
  {
    assert Clear(p, s, Cut(p, secrets));
    if q + |s| <= |p| {
      OccursInPrefix(p, future, s, q);
    }
  }

  /** With short chains no cut splits a secret of the whole text. */
  lemma ShortChainsCut(p: Bytes, future: Bytes, secrets: seq<Bytes>)
    requires NonEmpty(secrets) && ShortChains(secrets)
    ensures Clean(p + future, secrets, Cut(p, secrets))
  {
    var c := Cut(p, secrets);
    forall s, q | s in secrets && OccursAt(p + future, s, q)
      ensures !(q < c < q + |s|)
    {
      if q < c < q + |s| {
        var l, d := SplitEndsChain(p, future, secrets, s, q);
      }
    }
  }

  lemma {:induction false} ShortChainsIntact(pending: Bytes, chunks: seq<Bytes>, secrets: seq<Bytes>)
    requires NonEmpty(secrets) && ShortChains(secrets)
    ensures Intact(Segments(pending, chunks, secrets), secrets)
    decreases |chunks|
  {
    if chunks == [] {
      LastPieceIntact(pending, secrets);
    } else {
      var p := pending + chunks[0];
      var c := Cut(p, secrets);
      ShortChainsIntact(p[c..], chunks[1..], secrets);
      SegmentsConcatenate(p[c..], chunks[1..], secrets);
      ShortChainsCut(p, Concat(chunks[1..]), secrets);
      CutRejoins(pending, chunks[0], c, Concat(chunks[1..]));
      IntactCons(p[..c], Segments(p[c..], chunks[1..], secrets), secrets);
    }
  }

  /** For any secrets: no stream is ever split if and only if no chain of secrets spans
      more than the longest one. */
  lemma NeverSplitExactly(secrets: seq<Bytes>)
    requires NonEmpty(secrets)
    ensures ShortChains(secrets) <==>
            forall chunks :: NonEmpty(chunks) ==> Intact(Segments([], chunks, secrets), secrets)
  {
    if ShortChains(secrets) {
      forall chunks | NonEmpty(chunks)
        ensures Intact(Segments([], chunks, secrets), secrets)
      {
        ShortChainsIntact([], chunks, secrets);
      }
    } else {
      var l :| Linked(l, secrets) && |Span(l)| > Longest(secrets);
      LongChainSplits([], l, secrets);
    }
  }

  // ----------------------------------------------------- how far one must look

  /** Finitely many chains decide: if any is too long, so is one that spans less than
      two of the longest secret. */
  lemma {:induction false} LongChainIsShort(l: Links, secrets: seq<Bytes>) returns (front: Links)
    requires NonEmpty(secrets) && Linked(l, secrets) && |Span(l)| > Longest(secrets)
    ensures Linked(front, secrets) && Longest(secrets) < |Span(front)| < 2 * Longest(secrets)
    decreases l
  {
    assert |l.secret| <= Longest(secrets);
    if |Span(l.front)| > Longest(secrets) {
      front := LongChainIsShort(l.front, secrets);
    } else {
      front := l;
    }
  }

  /** What a file object with a buffer returns: full reads, up to the last one. */
  predicate FullReads(chunks: seq<Bytes>, size: nat) {
    NonEmpty(chunks)
    && forall i :: 0 <= i < |chunks| ==> |chunks[i]| <= size && (i < |chunks| - 1 ==> |chunks[i]| == size)
  }

  lemma FilledReads(x: Bytes, size: nat)
    requires 0 < size == |x| - 1
    ensures FullReads([x[..|x| - 1], x[|x| - 1..]], size)
  {
    var chunks := [x[..|x| - 1], x[|x| - 1..]];
    assert forall s :: s in chunks ==> s == chunks[0] || s == chunks[1];
  }

  /** Some text fills a read up to the last byte of a chain that is too long. */
  lemma LongChainFills(l: Links, secrets: seq<Bytes>, size: nat) returns (chunks: seq<Bytes>)
    requires NonEmpty(secrets) && Linked(l, secrets) && Longest(secrets) < |Span(l)| <= size
    ensures FullReads(chunks, size) && !Intact(Segments([], chunks, secrets), secrets)
  {
    var a: Bytes := seq(size + 1 - |Span(l)|, _ => 0);
    var x := a + Span(l);
    LongChainSplits(a, l, secrets);
    FilledReads(x, size);
    chunks := [x[..|x| - 1], x[|x| - 1..]];
  }

  /** Short reads make no difference: with full reads of any size from twice the longest
      secret on, the condition is the same. */
  lemma NeverSplitInFullReads(secrets: seq<Bytes>, size: nat)
    requires NonEmpty(secrets) && size >= 2 * Longest(secrets)
    ensures ShortChains(secrets) <==>
            forall chunks :: FullReads(chunks, size) ==> Intact(Segments([], chunks, secrets), secrets)
  {
    if ShortChains(secrets) {
      forall chunks | FullReads(chunks, size)
        ensures Intact(Segments([], chunks, secrets), secrets)
      {
        ShortChainsIntact([], chunks, secrets);
      }
    } else {
      var l :| Linked(l, secrets) && |Span(l)| > Longest(secrets);
      var short := LongChainIsShort(l, secrets);
      var chunks := LongChainFills(short, secrets, size);
    }
  }

  lemma OnlyFirst(l: Links, secrets: seq<Bytes>)
    requires Linked(l, secrets)
    ensures l.Then? ==> !BorderFree(secrets)
  {
  }

  lemma {:induction false} SelfChain(t: Bytes, k: nat, n: nat, secrets: seq<Bytes>) returns (l: Links)
    requires t in secrets && Border(t, t, k)
    ensures Linked(l, secrets) && l.secret == t && |Span(l)| >= |t| + n
    decreases n
  {
    if n == 0 {
      l := First(t);
    } else {
      l := SelfChain(t, k, n - 1, secrets);
      l := Then(l, t, k);
    }
  }

  lemma PairIsLong(secrets: seq<Bytes>, t: Bytes, s: Bytes, k: nat)
    requires NonEmpty(secrets) && |secrets| <= 2 && t in secrets && s in secrets && t != s && Border(t, s, k)
    ensures !ShortChains(secrets)
  {
    LongestOfTwo(secrets, t, s);
    var l := Then(First(t), s, k);
    assert Linked(First(t), secrets) && Linked(l, secrets) && |Span(l)| == |t| + |s| - k;
  }

  lemma LongestOfTwo(secrets: seq<Bytes>, t: Bytes, s: Bytes)
    requires NonEmpty(secrets) && |secrets| <= 2 && t in secrets && s in secrets && t != s
    ensures Longest(secrets) == if |t| > |s| then |t| else |s|
  {
    assert |secrets| == 2;
    assert secrets == [secrets[0], secrets[1]];
    KeepOfTwo(secrets[0], secrets[1]);
  }

  lemma SelfIsLong(secrets: seq<Bytes>, t: Bytes, k: nat)
    requires NonEmpty(secrets) && t in secrets && Border(t, t, k)
    ensures !ShortChains(secrets)
  {
    var l := SelfChain(t, k, Longest(secrets), secrets);
  }

  lemma FreeIsShort(secrets: seq<Bytes>)
    requires NonEmpty(secrets) && BorderFree(secrets)
    ensures ShortChains(secrets)
  {
    forall l | Linked(l, secrets)
      ensures |Span(l)| <= Longest(secrets)
    {
      OnlyFirst(l, secrets);
    }
  }

  /** For one or two secrets the chains are short exactly when nothing overlaps. */
  lemma TwoShortChains(secrets: seq<Bytes>)
    requires NonEmpty(secrets) && |secrets| <= 2
    ensures ShortChains(secrets) <==> BorderFree(secrets)
  {
    if BorderFree(secrets) {
      FreeIsShort(secrets);
    } else {
      var t, s, k: nat :| t in secrets && s in secrets && Border(t, s, k);
      if t == s {
        SelfIsLong(secrets, t, k);
      } else {
        PairIsLong(secrets, t, s, k);
      }
    }
  }
}
