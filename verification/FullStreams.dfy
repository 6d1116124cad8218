/** Full reads, as a buffered pipe returns them up to the last one. The conditions that
    decide whether the chunking shows are the same for them: what shows in short reads
    shows behind bytes that begin no secret. */
module FullStreams {
  import opened Redaction
  import opened CopyRedacted
  import opened ReplaceFacts
  import opened SecretChains
  import opened Masking
  import opened MaskExact
  import opened OutputShows
  import opened OutputExact

  // -------------------------------------------------- a byte to fill reads with

  predicate BeginsNone(b: Byte, secrets: seq<Bytes>) {
    forall s :: s in secrets ==> s != [] && s[0] != b
  }

  function UpTo(n: nat): (r: set<int>)
    ensures |r| == n && forall c :: c in r <==> 0 <= c < n
  {
    if n == 0 then {} else UpTo(n - 1) + {n - 1}
  }

  lemma Some<T>(candidates: set<T>) returns (b: T)
    requires |candidates| > 0
    ensures b in candidates
  {
    b :| b in candidates;
  }

  lemma {:induction false} OneIsLeft(candidates: set<int>, secrets: seq<Bytes>) returns (b: int)
    requires NonEmpty(secrets) && |candidates| > |secrets|
    ensures b in candidates && forall s :: s in secrets ==> s[0] != b
    decreases |secrets|
  {
    if secrets == [] {
      b := Some(candidates);
    } else {
      assert secrets[0] in secrets && forall s :: s in secrets <==> s == secrets[0] || s in secrets[1..];
      b := OneIsLeft(candidates - {secrets[0][0]}, secrets[1..]);
    }
  }

  lemma FillByte(secrets: seq<Bytes>) returns (b: Byte)
    requires NonEmpty(secrets) && |secrets| < 256
    ensures BeginsNone(b, secrets)
  {
    b := OneIsLeft(UpTo(256), secrets);
  }

  function Pad(b: Byte, n: nat): (a: Bytes)
    ensures |a| == n && forall c :: c in a ==> c == b
  {
    seq(n, _ => b)
  }

  predicate Fills(a: Bytes, secrets: seq<Bytes>) {
    forall s :: s in secrets ==> s != [] && s[0] !in a
  }

  // ------------------------------------------------------ nothing begins in it

  lemma BeginsAt(a: Bytes, x: Bytes, t: Bytes, p: int)
    requires t != [] && p < |a| && OccursAt(a + x, t, p)
    ensures t[0] in a
  {
    assert (a + x)[p..p + |t|][0] == a[p];
  }

  lemma PadOccurs(a: Bytes, x: Bytes, t: Bytes, p: int)
    requires t != [] && t[0] !in a && OccursAt(a + x, t, p)
    ensures p >= |a|
  {
    if p < |a| {
      BeginsAt(a, x, t, p);
    }
  }

  lemma {:induction false} PadReplace(a: Bytes, x: Bytes, t: Bytes, m: Bytes)
    requires t != [] && t[0] !in a
    ensures Replace(a + x, t, m) == a + Replace(x, t, m)
    decreases |a|
  {
    if a == [] {
      assert a + x == x;
    } else if |a + x| >= |t| {
      var y := a + x;
      assert a == [a[0]] + a[1..] && t[0] !in a[1..];
      assert y[..|t|][0] == a[0] && y[1..] == a[1..] + x;
      MissAtFront(y, t, m);
      PadReplace(a[1..], x, t, m);
      Regroup([a[0]], a[1..], Replace(x, t, m));
    }
  }

  lemma {:induction false} PadReplaceAll(a: Bytes, x: Bytes, secrets: seq<Bytes>)
    requires NonEmpty(secrets) && Fills(a, secrets)
    ensures ReplaceAll(a + x, secrets) == a + ReplaceAll(x, secrets)
    decreases |secrets|
  {
    if secrets != [] {
      assert secrets[0] in secrets && forall s :: s in secrets[1..] ==> s in secrets;
      PadReplace(a, x, secrets[0], Marker());
      PadReplaceAll(a, Replace(x, secrets[0], Marker()), secrets[1..]);
    }
  }

  lemma PadClear(a: Bytes, x: Bytes, t: Bytes, c: nat)
    requires t != [] && t[0] !in a
    ensures Clear(a + x, t, |a| + c) <==> Clear(x, t, c)
  {
    if Clear(a + x, t, |a| + c) {
      ClearShifts(a, x, t, c);
    }
    if Clear(x, t, c) {
      forall p | OccursAt(a + x, t, p)
        ensures !(p < |a| + c < p + |t|)
      {
        PadOccurs(a, x, t, p);
        OccursShifted(a, x, t, p - |a|);
      }
    }
  }

  lemma PadClean(a: Bytes, x: Bytes, secrets: seq<Bytes>, c: nat)
    requires NonEmpty(secrets) && Fills(a, secrets)
    ensures Clean(a + x, secrets, |a| + c) <==> Clean(x, secrets, c)
  {
    forall s | s in secrets
      ensures Clear(a + x, s, |a| + c) <==> Clear(x, s, c)
    {
      PadClear(a, x, s, c);
    }
  }

  lemma PadCut(a: Bytes, x: Bytes, secrets: seq<Bytes>)
    requires NonEmpty(secrets) && Fills(a, secrets) && |x| > Keep(secrets)
    ensures Cut(a + x, secrets) == |a| + Cut(x, secrets)
  {
    var c, d := Cut(x, secrets), Cut(a + x, secrets);
    PadClean(a, x, secrets, c);
    PadClean(a, x, secrets, d - |a|);
  }

  // ------------------------------------------------------------- equal output

  ghost predicate SameOutputFull(secrets: seq<Bytes>, size: nat)
    requires NonEmpty(secrets)
  {
    forall chunks :: FullReads(chunks, size) ==>
                       Redacted(Segments([], chunks, secrets), secrets) == ReplaceAll(Concat(chunks), secrets)
  }

  lemma FullOne(x: Bytes, secrets: seq<Bytes>, size: nat)
    requires NonEmpty(secrets) && SameOutputFull(secrets, size) && 0 < |x| <= size
    ensures Redacted(Segments([], [x], secrets), secrets) == ReplaceAll(x, secrets)
  {
    ConcatOne(x);
    assert FullReads([x], size);
  }

  lemma FullTwo(x: Bytes, y: Bytes, secrets: seq<Bytes>, size: nat)
    requires NonEmpty(secrets) && SameOutputFull(secrets, size) && |x| == size > 0 && 0 < |y| <= size
    ensures Redacted(Segments([], [x, y], secrets), secrets) == ReplaceAll(x + y, secrets)
  {
    ConcatPair(x, y);
    assert FullReads([x, y], size);
  }

  /** While nothing is written, nothing is split. */
  lemma ShortSplits(x: Bytes, y: Bytes, secrets: seq<Bytes>)
    requires NonEmpty(secrets) && |x| <= Keep(secrets)
    ensures ReadsSplit(x, y, secrets)
  {
    assert Clean(x, secrets, 0);
    assert Cut(x, secrets) == 0;
    ReplaceAllEmpty(secrets);
    assert x[..0] == [] && x[0..] == x;
    assert [] + ReplaceAll(x + y, secrets) == ReplaceAll(x + y, secrets);
  }

  /** Behind the filling, the same bytes are written and kept. */
  lemma PaddedSplits(a: Bytes, x: Bytes, y: Bytes, secrets: seq<Bytes>)
    requires NonEmpty(secrets) && Fills(a, secrets) && |x| > Keep(secrets) && ReadsSplit(a + x, y, secrets)
    ensures ReadsSplit(x, y, secrets)
  {
    var c := Cut(x, secrets);
    PadCut(a, x, secrets);
    BehindPad(a, x, c);
    Regroup(a, x, y);
    PadReplaceAll(a, x + y, secrets);
    PadReplaceAll(a, x[..c], secrets);
    Regroup(a, ReplaceAll(x[..c], secrets), ReplaceAll(x[c..] + y, secrets));
    Cancel(a, ReplaceAll(x + y, secrets), ReplaceAll(x[..c], secrets) + ReplaceAll(x[c..] + y, secrets));
  }

  lemma FullSplitsAt(x: Bytes, y: Bytes, rest: Bytes, secrets: seq<Bytes>, size: nat)
    requires NonEmpty(secrets) && SameOutputFull(secrets, size) && |x| == size > 0 && 0 < |y| <= |rest| <= size
    requires rest == x[Cut(x, secrets)..] + y
    ensures ReadsSplit(x, y, secrets)
  {
    FullTwo(x, y, secrets, size);
    FullOne(rest, secrets, size);
    ReadsSplitAt(x, y, rest, secrets);
  }

  lemma BehindPad(a: Bytes, x: Bytes, c: nat)
    requires c <= |x|
    ensures (a + x)[..|a| + c] == a + x[..c] && (a + x)[|a| + c..] == x[c..]
  {
  }

  lemma FullSplits(x: Bytes, y: Bytes, secrets: seq<Bytes>, size: nat, b: Byte)
    requires NonEmpty(secrets) && SameOutputFull(secrets, size) && BeginsNone(b, secrets)
    requires |x| > Keep(secrets) && y != [] && |x| + |y| <= size
    ensures ReadsSplit(x, y, secrets)
  {
    var a, c := Pad(b, size - |x|), Cut(x, secrets);
    PadCut(a, x, secrets);
    BehindPad(a, x, c);
    FullSplitsAt(a + x, y, x[c..] + y, secrets, size);
    PaddedSplits(a, x, y, secrets);
  }

  lemma FullReadsSplit(secrets: seq<Bytes>, size: nat, limit: nat, b: Byte)
    requires NonEmpty(secrets) && SameOutputFull(secrets, size) && BeginsNone(b, secrets) && 2 * limit <= size
    ensures SplitsUpTo(secrets, limit)
  {
    forall x: Bytes, y: Bytes | x != [] && y != [] && |x| <= limit && |y| <= limit
      ensures ReadsSplit(x, y, secrets)
    {
      if |x| <= Keep(secrets) {
        ShortSplits(x, y, secrets);
      } else {
        FullSplits(x, y, secrets, size, b);
      }
    }
  }

  /** With full reads of eight times the longest secret or more, the output is the
      replacement of the whole under the same condition. */
  lemma SameOutputInFullReads(secrets: seq<Bytes>, size: nat)
    requires OneOrTwo(secrets) && size >= 8 * Longest(secrets)
    ensures Transparent(secrets) <==> SameOutputFull(secrets, size)
  {
    if Transparent(secrets) {
      TransparentSuffices(secrets);
    } else if SameOutputFull(secrets, size) {
      var b := FillByte(secrets);
      FullReadsSplit(secrets, size, 4 * Longest(secrets), b);
      TransparentNeeded(secrets, 4 * Longest(secrets));
    }
  }

  // ------------------------------------------------------- the same secrets

  lemma PutMissed(y: Text, s: Bytes, i: nat)
    requires 0 < |s| <= |y| && y[0] != Raw(s[0])
    ensures Put(y, s, i) == [y[0]] + Put(y[1..], s, i)
  {
    assert y[..|s|][0] == y[0] && Lift(s)[0] == Raw(s[0]);
  }

  lemma PadHead(a: Bytes, x: Text)
    requires a != []
    ensures var y := Lift(a) + x; y[0] == Raw(a[0]) && y[1..] == Lift(a[1..]) + x
    ensures Lift(a) == [Raw(a[0])] + Lift(a[1..])
  {
  }

  lemma {:induction false} PadPut(a: Bytes, x: Text, s: Bytes, i: nat)
    requires s != [] && s[0] !in a
    ensures Put(Lift(a) + x, s, i) == Lift(a) + Put(x, s, i)
    decreases |a|
  {
    var y := Lift(a) + x;
    if a == [] {
      assert y == x && Lift(a) + Put(x, s, i) == Put(x, s, i);
    } else if |y| >= |s| {
      assert a == [a[0]] + a[1..] && s[0] !in a[1..];
      PadHead(a, x);
      PutMissed(y, s, i);
      PadPut(a[1..], x, s, i);
      Associate([Raw(a[0])], Lift(a[1..]), Put(x, s, i));
    }
  }

  lemma {:induction false} PadMaskFrom(a: Bytes, x: Text, secrets: seq<Bytes>, i: nat)
    requires NonEmpty(secrets) && Fills(a, secrets) && i <= |secrets|
    ensures MaskFrom(Lift(a) + x, secrets, i) == Lift(a) + MaskFrom(x, secrets, i)
    decreases |secrets| - i
  {
    if i < |secrets| {
      assert secrets[i] in secrets;
      PadPut(a, x, secrets[i], i);
      PadMaskFrom(a, Put(x, secrets[i], i), secrets, i + 1);
    }
  }

  lemma PadSurvives(a: Bytes, x: Bytes, s: Bytes, secrets: seq<Bytes>)
    requires NonEmpty(secrets) && Fills(a, secrets) && Survives(x, s, secrets)
    ensures Survives(a + x, s, secrets)
  {
    assert Lift(a + x) == Lift(a) + Lift(x);
    PadMaskFrom(a, Lift(x), secrets, 0);
    var y := Mask(x, secrets);
    assert (Lift(a) + y)[|Lift(a) + y| - 1] == y[|y| - 1];
  }

  /** Without the last byte, the position is inside a secret. */
  ghost predicate Inside(x: Bytes, secrets: seq<Bytes>, c: nat)
    requires x != []
  {
    !Clean(x[..|x| - 1], secrets, c)
  }

  /** So is every position from the longest secret's length before the end to the start
      of the last secret. */
  ghost predicate CoveredEnd(x: Bytes, s: Bytes, secrets: seq<Bytes>)
    requires NonEmpty(secrets) && x != []
  {
    forall c: nat :: |x| - Longest(secrets) <= c <= |x| - |s| ==> Inside(x, secrets, c)
  }

  lemma ChainCoversEnd(a: Bytes, l: Links, secrets: seq<Bytes>)
    requires NonEmpty(secrets) && Linked(l, secrets) && |Span(l)| > Longest(secrets)
    ensures CoveredEnd(a + Span(l), l.secret, secrets)
  {
    assert |l.secret| <= Longest(secrets);
    var x := a + Span(l);
    forall c: nat | |x| - Longest(secrets) <= c <= |x| - |l.secret|
      ensures Inside(x, secrets, c)
    {
      UncleanFront(a, l, secrets, c);
    }
  }

  lemma EndCut(x: Bytes, s: Bytes, secrets: seq<Bytes>)
    requires NonEmpty(secrets) && secrets != [] && |x| > Longest(secrets) && CoveredEnd(x, s, secrets)
    ensures Cut(x[..|x| - 1], secrets) > |x| - |s|
  {
    var p := x[..|x| - 1];
    assert FirstCut(p, secrets) == |x| - Longest(secrets);
    assert !Inside(x, secrets, Cut(p, secrets));
  }

  lemma UncleanBehind(p: Bytes, secrets: seq<Bytes>, e: nat, c: nat)
    requires NonEmpty(secrets) && e <= |p| && Longest(secrets) <= c && !Clean(p, secrets, e + c)
    ensures !Clean(p[e..], secrets, c)
  {
    var t, r :| t in secrets && OccursAt(p, t, r) && r < e + c < r + |t|;
    assert |t| <= Longest(secrets) && p == p[..e] + p[e..];
    OccursShifted(p[..e], p[e..], t, r - e);
    assert !Clear(p[e..], t, c);
  }

  lemma EndBehind(x: Bytes, s: Bytes, secrets: seq<Bytes>, e: nat, c: nat)
    requires NonEmpty(secrets) && e + 2 * Longest(secrets) < |x|
    requires |x| - Longest(secrets) <= e + c && Inside(x, secrets, e + c)
    ensures Inside(x[e..], secrets, c)
  {
    UncleanBehind(x[..|x| - 1], secrets, e, c);
    assert x[..|x| - 1][e..] == x[e..][..|x[e..]| - 1];
  }

  lemma CoveredBehind(x: Bytes, s: Bytes, secrets: seq<Bytes>, e: nat)
    requires NonEmpty(secrets) && e + 2 * Longest(secrets) < |x| && CoveredEnd(x, s, secrets)
    ensures CoveredEnd(x[e..], s, secrets)
  {
    forall c: nat | |x[e..]| - Longest(secrets) <= c <= |x[e..]| - |s|
      ensures Inside(x[e..], secrets, c)
    {
      EndBehind(x, s, secrets, e, c);
    }
  }

  /** Reads of the full size, and then one byte. */
  predicate FullAndByte(chunks: seq<Bytes>, size: nat) {
    && |chunks| >= 2 && |chunks[|chunks| - 1]| == 1
    && forall i :: 0 <= i < |chunks| - 1 ==> |chunks[i]| == size
  }

  ghost predicate SplitLast(x: Bytes, s: Bytes, secrets: seq<Bytes>)
    requires NonEmpty(secrets) && x != []
  {
    secrets != [] && Survives(x, s, secrets) && CoveredEnd(x, s, secrets)
  }

  lemma LastReadShows(p: Bytes, b: Bytes, s: Bytes, secrets: seq<Bytes>)
    requires NonEmpty(secrets) && |b| == 1 && |p| >= Longest(secrets) && SplitLast(p + b, s, secrets)
    ensures !Boundary(Mask(p + b, secrets), secrets, Cut(p, secrets))
  {
    var x := p + b;
    assert x[..|x| - 1] == p;
    EndCut(x, s, secrets);
    if Boundary(Mask(x, secrets), secrets, Cut(p, secrets)) {
      LastMark(x, s, secrets, Cut(p, secrets));
    }
  }

  lemma CutOff(x: Bytes, s: Bytes, secrets: seq<Bytes>, c: nat, front: Text, rest: Text)
    requires NonEmpty(secrets) && c + 2 * Longest(secrets) < |x| && SplitLast(x, s, secrets)
    requires Mask(x, secrets) == front + rest && front == Mask(x[..c], secrets)
    ensures rest == Mask(x[c..], secrets) && SplitLast(x[c..], s, secrets)
  {
    assert x == x[..c] + x[c..];
    MaskExpands(x[..c], secrets);
    PrefixBoundary(front, rest, secrets);
    MaskSplits(x[..c], x[c..], secrets);
    assert rest == (front + rest)[|front|..] && Mask(x[c..], secrets) == (front + Mask(x[c..], secrets))[|front|..];
    SurvivesBehind(x, s, secrets, c);
    CoveredBehind(x, s, secrets, c);
  }

  lemma LastSplits(p: Bytes, b: Bytes, s: Bytes, secrets: seq<Bytes>, front: Text, rest: Text)
    requires NonEmpty(secrets) && |b| == 1 && |p| >= Longest(secrets) && SplitLast(p + b, s, secrets)
    requires front == Mask(p[..Cut(p, secrets)], secrets)
    ensures Mask(p + b, secrets) != front + rest
  {
    LastReadShows(p, b, s, secrets);
    MaskExpands(p[..Cut(p, secrets)], secrets);
    PrefixBoundary(front, rest, secrets);
  }

  lemma LaterReads(chunks: seq<Bytes>, size: nat)
    requires FullAndByte(chunks, size) && size > 0
    ensures |chunks| == 2 ==> Concat(chunks[1..]) == chunks[1] && |chunks[1]| == 1
    ensures |chunks| > 2 ==> FullAndByte(chunks[1..], size) && |Concat(chunks[1..])| > size
  {
    var later := chunks[1..];
    if |chunks| == 2 {
      assert later == [chunks[1]];
      ConcatOne(chunks[1]);
    } else {
      assert later == [later[0]] + later[1..] && later[1..] == [later[1]] + later[2..];
      ConcatCons(later[0], later[1..]);
      ConcatCons(later[1], later[2..]);
      assert |later[0]| == size && later[0] == chunks[1] && later[1] == chunks[2];
    }
  }

  lemma FirstRead(pending: Bytes, chunks: seq<Bytes>, secrets: seq<Bytes>, p: Bytes, c: nat)
    requires NonEmpty(secrets) && chunks != [] && p == pending + chunks[0] && c == Cut(p, secrets)
    ensures Masked(Segments(pending, chunks, secrets), secrets) ==
            Mask(p[..c], secrets) + Masked(Segments(p[c..], chunks[1..], secrets), secrets)
  {
    MaskedCons(p[..c], Segments(p[c..], chunks[1..], secrets), secrets);
  }

  lemma CutAhead(x: Bytes, p: Bytes, ahead: Bytes, c: nat)
    requires x == p + ahead && c <= |p|
    ensures x[..c] == p[..c] && x[c..] == p[c..] + ahead
  {
  }

  lemma {:induction false} FullReadsShow(pending: Bytes, chunks: seq<Bytes>, x: Bytes, s: Bytes, secrets: seq<Bytes>,
                                         size: nat)
    requires NonEmpty(secrets) && FullAndByte(chunks, size) && size >= 2 * Longest(secrets) && size > 0
    requires x == pending + Concat(chunks) && x != [] && SplitLast(x, s, secrets)
    ensures Masked(Segments(pending, chunks, secrets), secrets) != Mask(x, secrets)
    decreases |chunks|
  {
    var p, later, ahead := pending + chunks[0], chunks[1..], Concat(chunks[1..]);
    var c := Cut(p, secrets);
    var front, rest := Mask(p[..c], secrets), Masked(Segments(p[c..], later, secrets), secrets);
    FirstRead(pending, chunks, secrets, p, c);
    LaterReads(chunks, size);
    Regroup(pending, chunks[0], ahead);
    CutAhead(x, p, ahead, c);
    if |chunks| == 2 {
      LastSplits(p, ahead, s, secrets, front, rest);
    } else if Mask(x, secrets) == front + rest {
      CutOff(x, s, secrets, c, front, rest);
      FullReadsShow(p[c..], later, x[c..], s, secrets, size);
    }
  }

  /** A number of full reads. */
  predicate Whole(n: nat, size: nat)
    requires size > 0
  {
    n == 0 || (n >= size && Whole(n - size, size))
  }

  function Missing(n: nat, size: nat): (k: nat)
    requires size > 0
    ensures Whole(n + k, size)
  {
    if n <= size then
      assert Whole(0, size);
      size - n
    else Missing(n - size, size)
  }

  function InReads(p: Bytes, size: nat): (chunks: seq<Bytes>)
    requires size > 0 && Whole(|p|, size)
    ensures forall i :: 0 <= i < |chunks| ==> |chunks[i]| == size
    ensures p != [] ==> chunks != []
    decreases |p|
  {
    if p == [] then [] else [p[..size]] + InReads(p[size..], size)
  }

  lemma {:induction false} ReadsConcat(p: Bytes, size: nat, b: Bytes)
    requires size > 0 && Whole(|p|, size)
    ensures Concat(InReads(p, size) + [b]) == p + b
    decreases |p|
  {
    if p == [] {
      assert InReads(p, size) + [b] == [b];
      ConcatOne(b);
    } else {
      ReadsConcat(p[size..], size, b);
      assert InReads(p, size) + [b] == [p[..size]] + (InReads(p[size..], size) + [b]);
      ConcatCons(p[..size], InReads(p[size..], size) + [b]);
      assert p[..size] + (p[size..] + b) == p + b;
    }
  }

  lemma ReadInFull(x: Bytes, size: nat) returns (chunks: seq<Bytes>)
    requires size > 0 && |x| > 1 && Whole(|x| - 1, size)
    ensures FullReads(chunks, size) && FullAndByte(chunks, size) && Concat(chunks) == x
  {
    var p, last := x[..|x| - 1], x[|x| - 1..];
    chunks := InReads(p, size) + [last];
    ReadsConcat(p, size, last);
    assert p + last == x;
    assert forall i :: 0 <= i < |chunks| - 1 ==> chunks[i] == InReads(p, size)[i];
  }

  lemma PaddedSurvivor(a: Bytes, l: Links, secrets: seq<Bytes>, x: Bytes)
    requires NonEmpty(secrets) && Linked(l, secrets) && |Span(l)| > Longest(secrets) && Fills(a, secrets)
    requires Survives(Span(l), l.secret, secrets) && x == a + Span(l)
    ensures x != [] && SplitLast(x, l.secret, secrets)
  {
    assert l.secret in secrets;
    PadSurvives(a, Span(l), l.secret, secrets);
    ChainCoversEnd(a, l, secrets);
  }

  /** A surviving secret at the end of a long chain shows in full reads. */
  lemma SurvivorShowsInFullReads(l: Links, secrets: seq<Bytes>, size: nat, b: Byte) returns (chunks: seq<Bytes>)
    requires NonEmpty(secrets) && Linked(l, secrets) && |Span(l)| > Longest(secrets) && BeginsNone(b, secrets)
    requires Survives(Span(l), l.secret, secrets) && size >= 2 * Longest(secrets) && size > 0
    ensures FullReads(chunks, size)
    ensures Masked(Segments([], chunks, secrets), secrets) != Mask(Concat(chunks), secrets)
  {
    CutInLast(l, secrets);
    var a := Pad(b, Missing(|Span(l)| - 1, size));
    var x := a + Span(l);
    PaddedSurvivor(a, l, secrets, x);
    chunks := ReadInFull(x, size);
    assert [] + Concat(chunks) == x;
    FullReadsShow([], chunks, x, l.secret, secrets, size);
  }

  ghost predicate SameSecretsFull(secrets: seq<Bytes>, size: nat)
    requires NonEmpty(secrets)
  {
    forall chunks :: FullReads(chunks, size) ==>
                       Masked(Segments([], chunks, secrets), secrets) == Mask(Concat(chunks), secrets)
  }

  /** With full reads of twice the longest secret or more, the chunking decides nothing
      under the same condition. */
  lemma SameSecretsInFullReads(secrets: seq<Bytes>, size: nat)
    requires NonEmpty(secrets) && |secrets| < 256 && size >= 2 * Longest(secrets) && size > 0
    ensures LongChainsYield(secrets) <==> SameSecretsFull(secrets, size)
  {
    if LongChainsYield(secrets) {
      SameSecretsExactly(secrets);
    } else {
      var l :| Linked(l, secrets) && |Span(l)| > Longest(secrets) && Survives(Span(l), l.secret, secrets);
      var b := FillByte(secrets);
      var chunks := SurvivorShowsInFullReads(l, secrets, size, b);
    }
  }
}
