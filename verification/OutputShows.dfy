/** Secrets for which the chunking shows: some stream is redacted differently from
    the whole input. */
module OutputShows {
  import opened Redaction
  import opened CopyRedacted
  import opened ReplaceFacts

  predicate SelfOverlap(s: Bytes) {
    exists k :: 0 < k < |s| && Border(s, s, k)
  }

  /** What the first read writes and what it leaves are replaced on their own. */
  ghost predicate ReadsSplit(x: Bytes, y: Bytes, secrets: seq<Bytes>)
    requires NonEmpty(secrets)
  {
    var c := Cut(x, secrets);
    ReplaceAll(x + y, secrets) == ReplaceAll(x[..c], secrets) + ReplaceAll(x[c..] + y, secrets)
  }

  /** That holds of every two reads up to some length. */
  ghost predicate SplitsUpTo(secrets: seq<Bytes>, limit: nat)
    requires NonEmpty(secrets)
  {
    forall x, y {:trigger ReadsSplit(x, y, secrets)} ::
      x != [] && y != [] && |x| <= limit && |y| <= limit ==> ReadsSplit(x, y, secrets)
  }

  lemma PendingIsRead(rest: Bytes, y: Bytes, secrets: seq<Bytes>)
    requires NonEmpty(secrets)
    ensures Segments(rest, [y], secrets) == Segments([], [rest + y], secrets)
  {
    assert [] + (rest + y) == rest + y;
    assert [y][1..] == [] == [rest + y][1..];
  }

  lemma FirstPiece(x: Bytes, y: Bytes, secrets: seq<Bytes>)
    requires NonEmpty(secrets)
    ensures Segments([], [x, y], secrets) ==
            [x[..Cut(x, secrets)]] + Segments(x[Cut(x, secrets)..], [y], secrets)
  {
    assert [] + x == x && [x, y][1..] == [y];
  }

  lemma TwoReads(x: Bytes, y: Bytes, secrets: seq<Bytes>)
    requires NonEmpty(secrets)
    ensures var c := Cut(x, secrets);
            Redacted(Segments([], [x, y], secrets), secrets) ==
            ReplaceAll(x[..c], secrets) + Redacted(Segments([], [x[c..] + y], secrets), secrets)
  {
    var c := Cut(x, secrets);
    FirstPiece(x, y, secrets);
    RedactedCons(x[..c], Segments(x[c..], [y], secrets), secrets);
    PendingIsRead(x[c..], y, secrets);
  }

  lemma ConcatOne(x: Bytes)
    ensures Concat([x]) == x
  {
    ConcatCons(x, []);
    assert [x] + [] == [x] && x + Concat([]) == x;
  }

  lemma ReadsSplitAt(x: Bytes, y: Bytes, rest: Bytes, secrets: seq<Bytes>)
    requires NonEmpty(secrets) && rest == x[Cut(x, secrets)..] + y
    requires Redacted(Segments([], [x, y], secrets), secrets) == ReplaceAll(x + y, secrets)
    requires Redacted(Segments([], [rest], secrets), secrets) == ReplaceAll(rest, secrets)
    ensures ReadsSplit(x, y, secrets)
  {
    TwoReads(x, y, secrets);
  }

  lemma SameForOne(x: Bytes, secrets: seq<Bytes>)
    requires NonEmpty(secrets) && SameOutput(secrets) && x != []
    ensures Redacted(Segments([], [x], secrets), secrets) == ReplaceAll(x, secrets)
  {
    ConcatOne(x);
    assert NonEmpty([x]);
  }

  lemma SameForTwo(x: Bytes, y: Bytes, secrets: seq<Bytes>)
    requires NonEmpty(secrets) && SameOutput(secrets) && x != [] && y != []
    ensures Redacted(Segments([], [x, y], secrets), secrets) == ReplaceAll(x + y, secrets)
  {
    ConcatPair(x, y);
    assert NonEmpty([x, y]);
  }

  lemma SameOutputReads(x: Bytes, y: Bytes, secrets: seq<Bytes>)
    requires NonEmpty(secrets) && SameOutput(secrets) && x != [] && y != []
    ensures ReadsSplit(x, y, secrets)
  {
    var rest := x[Cut(x, secrets)..] + y;
    SameForTwo(x, y, secrets);
    SameForOne(rest, secrets);
    ReadsSplitAt(x, y, rest, secrets);
  }

  /** Equal output for all streams makes it so, whatever the lengths. */
  lemma SameOutputSplits(secrets: seq<Bytes>, limit: nat)
    requires NonEmpty(secrets) && SameOutput(secrets)
    ensures SplitsUpTo(secrets, limit)
  {
    forall x: Bytes, y: Bytes | x != [] && y != []
      ensures ReadsSplit(x, y, secrets)
    {
      SameOutputReads(x, y, secrets);
    }
  }

  /** Whatever was read and whatever follows, one cut leaves parts that read like the
      whole. */
  ghost predicate EveryCutReads(secrets: seq<Bytes>)
    requires NonEmpty(secrets)
  {
    forall x, y {:trigger ReadsSplit(x, y, secrets)} :: ReadsSplit(x, y, secrets)
  }

  lemma {:induction false} CutByCut(pending: Bytes, chunks: seq<Bytes>, secrets: seq<Bytes>)
    requires NonEmpty(secrets) && EveryCutReads(secrets)
    ensures Redacted(Segments(pending, chunks, secrets), secrets) == ReplaceAll(pending + Concat(chunks), secrets)
    decreases |chunks|
  {
    if chunks == [] {
      RedactedCons(pending, [], secrets);
      assert [pending] + [] == [pending] && pending + Concat([]) == pending;
      assert ReplaceAll(pending, secrets) + [] == ReplaceAll(pending, secrets);
    } else {
      var p, future := pending + chunks[0], Concat(chunks[1..]);
      var c := Cut(p, secrets);
      RedactedCons(p[..c], Segments(p[c..], chunks[1..], secrets), secrets);
      CutByCut(p[c..], chunks[1..], secrets);
      assert ReadsSplit(p, future, secrets);
      Regroup(pending, chunks[0], future);
    }
  }

  lemma LastPieces(x: Bytes, c: nat, secrets: seq<Bytes>)
    requires NonEmpty(secrets) && c == Cut(x, secrets)
    ensures Segments([], [x], secrets) == [x[..c]] + [x[c..]]
  {
    assert [] + x == x && [x][1..] == [];
  }

  lemma TwoPieces(a: Bytes, b: Bytes, secrets: seq<Bytes>)
    requires NonEmpty(secrets)
    ensures Redacted([a] + [b], secrets) == ReplaceAll(a, secrets) + ReplaceAll(b, secrets)
  {
    RedactedCons(a, [b], secrets);
    RedactedCons(b, [], secrets);
    assert [b] + [] == [b] && ReplaceAll(b, secrets) + [] == ReplaceAll(b, secrets);
  }

  lemma LastCut(x: Bytes, secrets: seq<Bytes>)
    requires NonEmpty(secrets) && SameOutput(secrets) && x != []
    ensures ReadsSplit(x, [], secrets)
  {
    var c := Cut(x, secrets);
    SameForOne(x, secrets);
    LastPieces(x, c, secrets);
    TwoPieces(x[..c], x[c..], secrets);
    assert x + [] == x && x[c..] + [] == x[c..];
  }

  lemma NoRead(y: Bytes, secrets: seq<Bytes>)
    requires NonEmpty(secrets)
    ensures ReadsSplit([], y, secrets)
  {
    ReplaceAllEmpty(secrets);
    assert [] + y == y && [] + ReplaceAll(y, secrets) == ReplaceAll(y, secrets);
  }

  /** The output is the replacement of the whole for every stream if and only if it is so
      over every single cut. */
  lemma OneCutDecides(secrets: seq<Bytes>)
    requires NonEmpty(secrets)
    ensures SameOutput(secrets) <==> EveryCutReads(secrets)
  {
    if SameOutput(secrets) {
      forall x: Bytes, y: Bytes
        ensures ReadsSplit(x, y, secrets)
      {
        if x == [] {
          NoRead(y, secrets);
        } else if y == [] {
          LastCut(x, secrets);
        } else {
          SameOutputReads(x, y, secrets);
        }
      }
    } else if EveryCutReads(secrets) {
      forall chunks | NonEmpty(chunks)
        ensures Redacted(Segments([], chunks, secrets), secrets) == ReplaceAll(Concat(chunks), secrets)
      {
        CutByCut([], chunks, secrets);
        assert [] + Concat(chunks) == Concat(chunks);
      }
    }
  }

  lemma FullCutSplits(x: Bytes, y: Bytes, secrets: seq<Bytes>)
    requires NonEmpty(secrets) && ReadsSplit(x, y, secrets) && Cut(x, secrets) == |x|
    ensures ReplaceAll(x + y, secrets) == ReplaceAll(x, secrets) + ReplaceAll(y, secrets)
  {
    assert x[..|x|] == x && x[|x|..] + y == y;
  }

  // ------------------------------------------------------------------ chains

  /** What a chain grows by, n times. */
  function Growth(t: Bytes, k: nat, n: nat): Bytes
    requires k <= |t|
  {
    if n == 0 then [] else Growth(t, k, n - 1) + t[k..]
  }

  lemma {:induction false} ChainSnoc(t: Bytes, k: nat, n: nat)
    requires Border(t, t, k)
    ensures Chain(t, k, n + 1) == Chain(t, k, n) + t[k..]
  {
    var d := |t| - k;
    if n == 0 {
      assert t[..d] + t == t[..d] + (t[..k] + t[k..]) == t + t[k..];
    } else {
      ChainSnoc(t, k, n - 1);
      Regroup(t[..d], Chain(t, k, n - 1), t[k..]);
    }
  }

  lemma {:induction false} ChainGrows(t: Bytes, k: nat, n: nat, j: nat)
    requires Border(t, t, k)
    ensures Chain(t, k, n + j) == Chain(t, k, n) + Growth(t, k, j)
    ensures |Growth(t, k, j)| >= j
    decreases j
  {
    if j == 0 {
      assert Chain(t, k, n) + [] == Chain(t, k, n);
    } else {
      ChainGrows(t, k, n, j - 1);
      ChainSnoc(t, k, n + j - 1);
      Regroup(Chain(t, k, n), Growth(t, k, j - 1), t[k..]);
    }
  }

  lemma {:induction false} ChainEnds(t: Bytes, k: nat, n: nat)
    requires 0 < k < |t|
    ensures EndsWith(Chain(t, k, n), t)
  {
    if n == 0 {
      assert t[|t| - |t|..] == t;
    } else {
      ChainEnds(t, k, n - 1);
      EndsLater(t[..|t| - k], Chain(t, k, n - 1), t);
    }
  }

  lemma EndIsOccurrence(x: Bytes, t: Bytes)
    requires EndsWith(x, t)
    ensures OccursAt(x, t, |x| - |t|) && Has(x, t)
  {
    var p := |x| - |t|;
    assert x[p..] == x[p..p + |t|];
    assert OccursAt(x, t, p);
  }

  /** A long growth holds the whole secret. */
  lemma GrowthHas(t: Bytes, k: nat, n: nat, j: nat)
    requires Border(t, t, k) && |Growth(t, k, j)| >= |t|
    ensures Has(Growth(t, k, j), t)
  {
    ChainGrows(t, k, n, j);
    ChainEnds(t, k, n + j);
    EndsLater(Chain(t, k, n), Growth(t, k, j), t);
    EndIsOccurrence(Growth(t, k, j), t);
  }

  /** The length after n links of `d` bytes each. */
  function Length(l: nat, d: nat, n: nat): nat {
    if n == 0 then l else Length(l, d, n - 1) + d
  }

  lemma {:induction false} LengthRises(l: nat, d: nat, n: nat, i: nat)
    requires n <= i
    ensures Length(l, d, n) <= Length(l, d, i)
    decreases i
  {
    if n < i {
      LengthRises(l, d, n, i - 1);
    }
  }

  lemma {:induction false} LengthAdds(l: nat, d: nat, n: nat, j: nat)
    ensures Length(l, d, n + j) == Length(l, d, n) + Length(0, d, j)
    decreases j
  {
    if j > 0 {
      LengthAdds(l, d, n, j - 1);
    }
  }

  lemma {:induction false} ChainLength(t: Bytes, k: nat, n: nat)
    requires 0 < k < |t|
    ensures |Chain(t, k, n)| == Length(|t|, |t| - k, n)
  {
    if n > 0 {
      ChainLength(t, k, n - 1);
    }
  }

  lemma {:induction false} GrowthLength(t: Bytes, k: nat, n: nat)
    requires 0 < k < |t|
    ensures |Growth(t, k, n)| == Length(0, |t| - k, n)
  {
    if n > 0 {
      GrowthLength(t, k, n - 1);
    }
  }

  /** Links enough for a length, and not many more. */
  lemma EnoughLinks(l: nat, d: nat, need: nat) returns (n: nat)
    requires 0 < d <= l || (l == 0 < d)
    ensures need <= Length(l, d, n) <= need + if l > d then l else d
  {
    n := 0;
    while Length(l, d, n) < need
      invariant Length(l, d, n) <= need + if l > d then l else d
      decreases need - Length(l, d, n)
    {
      n := n + 1;
    }
  }

  predicate Periodic(x: Bytes, d: nat) {
    forall i :: 0 <= i < |x| - d ==> x[i] == x[i + d]
  }

  lemma {:induction false} ChainPeriodic(t: Bytes, k: nat, n: nat)
    requires Border(t, t, k)
    ensures Periodic(Chain(t, k, n), |t| - k)
  {
    var d := |t| - k;
    if n == 0 {
      forall i | 0 <= i < |t| - d
        ensures t[i] == t[i + d]
      {
        assert t[d..][i] == t[..k][i];
      }
    } else {
      ChainPeriodic(t, k, n - 1);
      ChainCovered(t, k, n - 1);
      var rest := Chain(t, k, n - 1);
      var x := t[..d] + rest;
      forall i | 0 <= i < |x| - d
        ensures x[i] == x[i + d]
      {
        if i < d {
          assert x[i + d] == rest[i] == rest[..|t|][i] == t[i] == x[i];
        } else {
          assert x[i + d] == rest[i] == rest[i - d] == x[i];
        }
      }
    }
  }

  /** Something longer than the period that occurs in a periodic text overlaps
      itself. */
  lemma PeriodicOverlap(x: Bytes, d: nat, s: Bytes, p: int)
    requires Periodic(x, d) && 0 < d < |s| && OccursAt(x, s, p)
    ensures SelfOverlap(s)
  {
    var k := |s| - d;
    forall i | 0 <= i < k
      ensures s[d..][i] == s[..k][i]
    {
      assert x[p..p + |s|][i] == x[p + i] == x[p + i + d] == x[p..p + |s|][i + d];
    }
    assert s[|s| - k..] == s[..k];
    assert Border(s, s, k);
  }

  lemma ChainCut(t: Bytes, k: nat, n: nat, secrets: seq<Bytes>)
    requires NonEmpty(secrets) && t in secrets && Border(t, t, k) && |Chain(t, k, n)| > Keep(secrets)
    ensures Cut(Chain(t, k, n), secrets) == |Chain(t, k, n)| && Chain(t, k, n) != []
  {
    ChainCovered(t, k, n);
    var x := Chain(t, k, n);
    var c := Cut(x, secrets);
    assert FirstCut(x, secrets) > 0;
    assert c < |x| ==> !Clear(x, t, c);
  }

  // --------------------------------------- a secret that overlaps itself alone

  predicate AloneAt(t: Bytes, k: nat, secrets: seq<Bytes>, n: nat)
    requires NonEmpty(secrets) && 0 < k < |t|
  {
    ReplaceAll(Chain(t, k, n), secrets) == Replace(Chain(t, k, n), t, Marker())
  }

  /** Nothing but `t` is replaced along its chain. */
  ghost predicate Alone(t: Bytes, k: nat, secrets: seq<Bytes>)
    requires NonEmpty(secrets) && 0 < k < |t|
  {
    (forall n: nat :: AloneAt(t, k, secrets, n)) && ReplaceAll(t[k..], secrets) == t[k..]
  }

  /** The next link of the chain is left as it is. */
  predicate Stuck(t: Bytes, k: nat, n: nat)
    requires 0 < k < |t|
  {
    Replace(Chain(t, k, n + 1), t, Marker()) == Replace(Chain(t, k, n), t, Marker()) + t[k..]
  }

  lemma StuckAt(x: Bytes, y: Bytes, t: Bytes, secrets: seq<Bytes>)
    requires NonEmpty(secrets) && t != []
    requires ReadsSplit(x, y, secrets) && Cut(x, secrets) == |x| && ReplaceAll(y, secrets) == y
    requires ReplaceAll(x, secrets) == Replace(x, t, Marker())
    requires ReplaceAll(x + y, secrets) == Replace(x + y, t, Marker())
    ensures Replace(x + y, t, Marker()) == Replace(x, t, Marker()) + y
  {
    FullCutSplits(x, y, secrets);
  }

  lemma ChainStep(t: Bytes, k: nat, secrets: seq<Bytes>, limit: nat, n: nat)
    requires NonEmpty(secrets) && SplitsUpTo(secrets, limit) && t in secrets && Border(t, t, k)
    requires Alone(t, k, secrets) && Keep(secrets) < Length(|t|, |t| - k, n) <= limit && |t| <= limit
    ensures Stuck(t, k, n)
  {
    var x, y := Chain(t, k, n), t[k..];
    ChainLength(t, k, n);
    ChainCut(t, k, n, secrets);
    ChainSnoc(t, k, n);
    assert ReadsSplit(x, y, secrets) && AloneAt(t, k, secrets, n) && AloneAt(t, k, secrets, n + 1);
    StuckAt(x, y, t, secrets);
  }

  lemma AlwaysStuck(t: Bytes, k: nat, secrets: seq<Bytes>, limit: nat, n: nat, e: nat)
    requires NonEmpty(secrets) && SplitsUpTo(secrets, limit) && t in secrets && Border(t, t, k)
    requires Alone(t, k, secrets) && |t| <= limit
    requires Keep(secrets) < Length(|t|, |t| - k, n) && Length(|t|, |t| - k, e) <= limit
    ensures forall i: nat :: n <= i < e ==> Stuck(t, k, i)
  {
    forall i: nat | n <= i < e
      ensures Stuck(t, k, i)
    {
      LengthRises(|t|, |t| - k, n, i);
      LengthRises(|t|, |t| - k, i, e);
      ChainStep(t, k, secrets, limit, i);
    }
  }

  lemma Transitive(a: Bytes, b: Bytes, c: Bytes, g: Bytes, y: Bytes)
    requires b == a + g && c == b + y
    ensures c == a + (g + y)
  {
  }

  lemma {:induction false} StuckGrows(t: Bytes, k: nat, n: nat, j: nat)
    requires 0 < k < |t| && forall i: nat :: n <= i < n + j ==> Stuck(t, k, i)
    ensures Replace(Chain(t, k, n + j), t, Marker()) == Replace(Chain(t, k, n), t, Marker()) + Growth(t, k, j)
    decreases j
  {
    if j == 0 {
      assert Replace(Chain(t, k, n), t, Marker()) + [] == Replace(Chain(t, k, n), t, Marker());
    } else {
      StuckGrows(t, k, n, j - 1);
      assert Stuck(t, k, n + j - 1);
      Transitive(Replace(Chain(t, k, n), t, Marker()), Replace(Chain(t, k, n + j - 1), t, Marker()),
                 Replace(Chain(t, k, n + j), t, Marker()), Growth(t, k, j - 1), t[k..]);
    }
  }

  lemma ShapedIsBorderless(m: Bytes)
    requires Shaped(m)
    ensures !SelfOverlap(m)
  {
    forall k | 0 < k < 10
      ensures !Border(m, m, k)
    {
      assert m[10 - k..][0] == m[10 - k] && m[..k][0] == m[0];
    }
  }

  lemma OverlapIsNoMarker(t: Bytes, k: nat)
    requires Border(t, t, k)
    ensures t != Marker()
  {
    MarkerShaped();
    ShapedIsBorderless(Marker());
    assert SelfOverlap(t);
  }

  /** Not every link of a long growth can be left as it is. */
  lemma NotAllStuck(t: Bytes, k: nat, n: nat, j: nat)
    requires Border(t, t, k) && |Growth(t, k, j)| >= |t|
    ensures Replace(Chain(t, k, n + j), t, Marker()) != Replace(Chain(t, k, n), t, Marker()) + Growth(t, k, j)
  {
    OverlapIsNoMarker(t, k);
    GrowthHas(t, k, n, j);
    ChainGrows(t, k, n, j);
    GrowthReplaces(Chain(t, k, n), Growth(t, k, j), t, Marker());
  }

  lemma AloneShowsAt(t: Bytes, k: nat, secrets: seq<Bytes>, limit: nat, n: nat, j: nat)
    requires NonEmpty(secrets) && t in secrets && Border(t, t, k) && Alone(t, k, secrets) && |t| <= limit
    requires Keep(secrets) < Length(|t|, |t| - k, n) && Length(|t|, |t| - k, n + j) <= limit
    requires |Growth(t, k, j)| >= |t|
    ensures !SplitsUpTo(secrets, limit)
  {
    NotAllStuck(t, k, n, j);
    if SplitsUpTo(secrets, limit) {
      AlwaysStuck(t, k, secrets, limit, n, n + j);
      StuckGrows(t, k, n, j);
    }
  }

  /** Along its chain such a secret shows, in reads of four times the longest secret. */
  lemma AloneShows(t: Bytes, k: nat, secrets: seq<Bytes>, limit: nat)
    requires NonEmpty(secrets) && t in secrets && Border(t, t, k) && Alone(t, k, secrets)
    requires limit >= 4 * Keep(secrets) + 4
    ensures !SplitsUpTo(secrets, limit)
  {
    var n := EnoughLinks(|t|, |t| - k, Keep(secrets) + 1);
    var j := EnoughLinks(0, |t| - k, |t|);
    GrowthLength(t, k, j);
    LengthAdds(|t|, |t| - k, n, j);
    AloneShowsAt(t, k, secrets, limit, n, j);
  }

  lemma OneOverlapShows(s: Bytes, limit: nat)
    requires SelfOverlap(s) && limit >= 4 * |s|
    ensures !SplitsUpTo([s], limit)
  {
    var k :| 0 < k < |s| && Border(s, s, k);
    forall n: nat
      ensures AloneAt(s, k, [s], n)
    {
      ReplaceOnce(Chain(s, k, n), s);
    }
    ReplaceOnce(s[k..], s);
    ReplaceShort(s[k..], s, Marker());
    AloneShows(s, k, [s], limit);
  }

  lemma ReplaceTwo(x: Bytes, s: Bytes, t: Bytes)
    requires s != [] && t != []
    ensures ReplaceAll(x, [s, t]) == Replace(Replace(x, s, Marker()), t, Marker())
  {
    assert [s, t][1..] == [t];
    ReplaceOnce(Replace(x, s, Marker()), t);
  }

  /** The password overlaps itself, the longer secret does not. */
  lemma PasswordOverlapShows(s: Bytes, t: Bytes, limit: nat)
    requires 0 < |t| <= |s| && t != s && SelfOverlap(t) && !SelfOverlap(s) && limit >= 4 * |s|
    ensures !SplitsUpTo([s, t], limit)
  {
    var k :| 0 < k < |t| && Border(t, t, k);
    forall n: nat
      ensures AloneAt(t, k, [s, t], n)
    {
      ReplaceTwo(Chain(t, k, n), s, t);
      ChainPeriodic(t, k, n);
      forall p
        ensures !OccursAt(Chain(t, k, n), s, p)
      {
        if OccursAt(Chain(t, k, n), s, p) {
          PeriodicOverlap(Chain(t, k, n), |t| - k, s, p);
        }
      }
      ReplaceNothing(Chain(t, k, n), s, Marker());
    }
    ReplaceTwo(t[k..], s, t);
    ReplaceShort(t[k..], s, Marker());
    ReplaceShort(t[k..], t, Marker());
    KeepOfTwo(s, t);
    AloneShows(t, k, [s, t], limit);
  }
}
