/** For which secrets chunking does not matter, exactly. */
module OutputExact {
  import opened Redaction
  import opened CopyRedacted
  import opened ReplaceFacts
  import opened SecretChains
  import opened Masking
  import opened MaskExact
  import opened MaskRender
  import opened OutputShows
  import opened MarkerShows
  import opened SecretShows
  import opened MarkerSwap
  import opened OverlapShows

  /** No secret overlaps itself, the second does not lead into the first, and the second
      stays apart from the marker or is the marker; the end of the first may begin the
      second. A first secret that is the marker may overlap itself with the second's
      end instead of its start. */
  predicate Transparent(secrets: seq<Bytes>) {
    match |secrets|
    case 0 => true
    case 1 => !SelfOverlap(secrets[0])
    case _ =>
      var s, t := secrets[0], secrets[1];
      if s == Marker() then !SelfOverlap(t) && !Leads(s, t)
      else
        && !SelfOverlap(s) && !Leads(t, s)
        && (t == Marker() || (!SelfOverlap(t) && Apart(t, Marker())))
  }

  // ------------------------------------------------------------ it suffices

  lemma ShortChainsSuffice(secrets: seq<Bytes>)
    requires NonEmpty(secrets) && MarkerSafe(secrets) && BorderFree(secrets)
    ensures SameOutput(secrets)
  {
    FreeIsShort(secrets);
    SameSecretsSameOutput(secrets);
  }

  lemma LinkBorder(l: Links, secrets: seq<Bytes>)
    requires Linked(l, secrets) && l.Then?
    ensures l.front.secret in secrets && l.secret in secrets && Border(l.front.secret, l.secret, l.overlap)
    ensures Leads(l.front.secret, l.secret)
  {
  }

  lemma BehindOnly(l: Links, s: Bytes, t: Bytes)
    requires Linked(l, [s, t]) && l.Then? && !SelfOverlap(s) && !Leads(t, s) && !SelfOverlap(t)
    ensures l.secret == t && l.front.secret == s
  {
    LinkBorder(l, [s, t]);
    assert !Leads(s, s) && !Leads(t, t);
  }

  lemma OnlyBehind(l: Links, s: Bytes, t: Bytes)
    requires Linked(l, [s, t]) && l.Then? && s != t && !SelfOverlap(s) && !Leads(t, s) && !SelfOverlap(t)
    ensures l.secret == t && l.front == First(s)
  {
    BehindOnly(l, s, t);
    IntoFirst(l.front, s, t);
  }

  lemma IntoFirst(l: Links, s: Bytes, t: Bytes)
    requires Linked(l, [s, t]) && l.secret == s != t && !SelfOverlap(s) && !Leads(t, s) && !SelfOverlap(t)
    ensures l == First(s)
  {
    if l.Then? {
      BehindOnly(l, s, t);
    }
  }

  /** A first secret at the start of a text keeps its place. */
  lemma {:induction false} FirstMarked(y: Text, secrets: seq<Bytes>, i: nat)
    requires NonEmpty(secrets) && i <= |secrets|
    ensures MaskFrom([Mark(0)] + y, secrets, i) == [Mark(0)] + MaskFrom(y, secrets, i)
    decreases |secrets| - i
  {
    if i < |secrets| {
      assert secrets[i] in secrets;
      PutOnMark(Mark(0), y, secrets[i], i);
      FirstMarked(Put(y, secrets[i], i), secrets, i + 1);
    }
  }

  lemma FirstKeepsBoundary(s: Bytes, x: Bytes, secrets: seq<Bytes>)
    requires NonEmpty(secrets) && secrets != [] && secrets[0] == s
    ensures Boundary(Mask(s + x, secrets), secrets, |s|)
  {
    assert s in secrets;
    LiftPrefix(s + x, s);
    assert (s + x)[..|s|] == s && (s + x)[|s|..] == x;
    var y := Put(Lift(x), s, 0);
    FirstMarked(y, secrets, 1);
    ExpandOne(Mark(0), [], secrets);
    assert [Mark(0)] + [] == [Mark(0)];
    PrefixBoundary([Mark(0)], MaskFrom(y, secrets, 1), secrets);
  }

  lemma BehindLoses(s: Bytes, t: Bytes, y: Bytes)
    requires s != [] && t != [] && |s| > |s + y| - |t| && y != []
    ensures !Survives(s + y, t, [s, t])
  {
    FirstKeepsBoundary(s, y, [s, t]);
    if Survives(s + y, t, [s, t]) {
      LastMark(s + y, t, [s, t], |s|);
    }
  }

  /** The only overlap left is the end of `s` with the start of `t`, which yields. */
  lemma BehindYields(s: Bytes, t: Bytes)
    requires s != [] && t != [] && s != t && !SelfOverlap(s) && !Leads(t, s) && !SelfOverlap(t)
    ensures LongChainsYield([s, t])
  {
    forall l | Linked(l, [s, t]) && |Span(l)| > Longest([s, t])
      ensures !Survives(Span(l), l.secret, [s, t])
    {
      assert l.Then?;
      OnlyBehind(l, s, t);
      LinkBorder(l, [s, t]);
      BehindLoses(s, t, t[l.overlap..]);
    }
  }

  lemma SafePair(s: Bytes, t: Bytes)
    requires Apart(t, Marker())
    ensures MarkerSafe([s, t])
  {
  }

  /** A secret that no secret leads into is never split. */
  lemma NotLedInto(p: Bytes, future: Bytes, secrets: seq<Bytes>, s: Bytes)
    requires NonEmpty(secrets) && s in secrets && forall u :: u in secrets ==> !Leads(u, s)
    ensures Clear(p + future, s, Cut(p, secrets))
  {
    forall q | OccursAt(p + future, s, q)
      ensures !(q < Cut(p, secrets) < q + |s|)
    {
      if q < Cut(p, secrets) < q + |s| {
        var l, d := SplitEndsChain(p, future, secrets, s, q);
        LedInto(l, secrets);
      }
    }
  }

  lemma LedInto(l: Links, secrets: seq<Bytes>)
    requires NonEmpty(secrets) && Linked(l, secrets) && |Span(l)| > Longest(secrets)
    ensures exists u :: u in secrets && Leads(u, l.secret)
  {
    LinkBorder(l, secrets);
  }

  /** A secret that is the marker changes nothing. */
  predicate WithMarker(secrets: seq<Bytes>, s: Bytes) {
    s != [] && (secrets == [s, Marker()] || secrets == [Marker(), s])
  }

  lemma OnlyOther(x: Bytes, secrets: seq<Bytes>, s: Bytes)
    requires WithMarker(secrets, s)
    ensures NonEmpty(secrets) && s in secrets && ReplaceAll(x, secrets) == Replace(x, s, Marker())
  {
    ReplaceItself(x, Marker());
    ReplaceItself(Replace(x, s, Marker()), Marker());
    if secrets == [s, Marker()] {
      ReplaceTwo(x, s, Marker());
    } else {
      ReplaceTwo(x, Marker(), s);
    }
  }

  lemma SparedStep(p: Bytes, future: Bytes, secrets: seq<Bytes>, s: Bytes)
    requires WithMarker(secrets, s) && NonEmpty(secrets) && s in secrets && forall u :: u in secrets ==> !Leads(u, s)
    ensures ReadsSplit(p, future, secrets)
  {
    var c := Cut(p, secrets);
    NotLedInto(p, future, secrets, s);
    assert p[..c] + (p[c..] + future) == p + future;
    ReplaceSplits(p[..c], p[c..] + future, s, Marker());
    OnlyOther(p + future, secrets, s);
    OnlyOther(p[..c], secrets, s);
    OnlyOther(p[c..] + future, secrets, s);
  }

  /** Beside the marker, the other secret decides. */
  lemma MarkerPairSuffices(secrets: seq<Bytes>, s: Bytes)
    requires WithMarker(secrets, s) && !SelfOverlap(s) && !Leads(Marker(), s)
    ensures NonEmpty(secrets) && SameOutput(secrets)
  {
    OnlyOther([], secrets, s);
    NotSelfLed(secrets, s);
    forall p: Bytes, future: Bytes
      ensures ReadsSplit(p, future, secrets)
    {
      SparedStep(p, future, secrets, s);
    }
    OneCutDecides(secrets);
  }

  lemma NotSelfLed(secrets: seq<Bytes>, s: Bytes)
    requires WithMarker(secrets, s) && !SelfOverlap(s) && !Leads(Marker(), s)
    ensures s in secrets && forall u :: u in secrets ==> !Leads(u, s)
  {
    assert !Leads(s, s);
    assert forall u :: u in secrets ==> u == s || u == Marker();
  }

  lemma TwoSuffice(s: Bytes, t: Bytes)
    requires 0 < |t| <= |s| && s != t && Transparent([s, t])
    ensures SameOutput([s, t])
  {
    if s == Marker() {
      MarkerPairSuffices([s, t], t);
    } else if t == Marker() {
      MarkerPairSuffices([s, t], s);
    } else {
      BehindYields(s, t);
      SafePair(s, t);
      SameSecretsSameOutput([s, t]);
    }
  }

  lemma OneSuffices(s: Bytes)
    requires s != [] && !SelfOverlap(s)
    ensures SameOutput([s])
  {
    ShortChainsSuffice([s]);
  }

  // ----------------------------------------------------------- it is needed

  /** A password that holds the marker and is not the marker. */
  lemma MarkerHeldShows(s: Bytes, t: Bytes, m: Bytes, p: int, limit: nat)
    requires 0 < |t| <= |s| && t != s
    requires !SelfOverlap(s) && !Leads(t, s) && Shaped(m) && m == Marker() != t && OccursAt(t, m, p)
    requires limit >= 4 * |s|
    ensures !SplitsUpTo([s, t], limit)
  {
    assert t == t[..p] + m + t[p + 10..];
    var v, w := t[..p], t[p + 10..];
    if v == [] {
      assert t[..10] == m;
      HeadIsMarker(t, m);
      EndsMarkerShows(s, t, m, limit);
    } else if w == [] {
      TailIsMarker(t, m, p);
      BeginsMarkerShows(s, t, m, limit);
    } else {
      InnerMarkerShows(s, t, v, w, m, limit);
    }
  }

  lemma HeadIsMarker(t: Bytes, m: Bytes)
    requires Shaped(m) && OccursAt(t, m, 0) && |t| > 10
    ensures EndsMarker(t, m)
  {
    assert t[..10] == t[0..0 + |m|] == m;
    assert m[|m| - 10..] == m;
    assert EndsWith(m, t[..10]);
  }

  lemma TailIsMarker(t: Bytes, m: Bytes, p: int)
    requires OccursAt(t, m, p) && p > 0 && p + |m| == |t| && m != []
    ensures BeginsMarker(t, m)
  {
    assert t[p..] == m && m[..|m|] == m;
    assert StartsWith(m, t[p..]);
  }

  lemma ApartNeeded(s: Bytes, t: Bytes, m: Bytes, limit: nat)
    requires 0 < |t| <= |s| && t != s
    requires !SelfOverlap(s) && !Leads(t, s) && Shaped(m) && m == Marker() != t && !Apart(t, m)
    requires limit >= 4 * |s|
    ensures !SplitsUpTo([s, t], limit)
  {
    if BeginsMarker(t, m) {
      BeginsMarkerShows(s, t, m, limit);
    } else if EndsMarker(t, m) {
      EndsMarkerShows(s, t, m, limit);
    } else {
      var p :| 0 <= p <= |t| - |m| && OccursAt(t, m, p);
      MarkerHeldShows(s, t, m, p, limit);
    }
  }

  // ....................................... a first secret that is the marker

  lemma LedAtShows(t: Bytes, k: nat, x: Bytes, m: Bytes, limit: nat)
    requires 0 < |t| <= 10 && t != m && Border(m, t, k) && Shaped(m) && m == Marker() && x == m + t[k..]
    requires limit >= 4 * |m|
    ensures !SplitsUpTo([m, t], limit)
  {
    LedByMarkerCut(t, k, m);
    var c := Cut(x[..|x| - 1], [m, t]);
    LedByMarkerOut(t, k, c, m);
    CutInShows(x, c, m, t, m, limit);
  }

  /** The marker's end begins the secret: read up to the last byte, the secret is split
      and nothing is replaced. */
  lemma LedByMarkerShows(t: Bytes, m: Bytes, limit: nat)
    requires 0 < |t| <= 10 && t != m && Leads(m, t) && Shaped(m) && m == Marker()
    requires limit >= 4 * |m|
    ensures !SplitsUpTo([m, t], limit)
  {
    var k: nat :| 0 < k < |m| && Border(m, t, k);
    LedAtShows(t, k, m + t[k..], m, limit);
  }

  /** All but the last byte is read first. */
  lemma CutInShows(x: Bytes, c: nat, s: Bytes, t: Bytes, m: Bytes, limit: nat)
    requires s != [] && t != [] && m == Marker() && 1 < |x| && c < |x| && c == Cut(x[..|x| - 1], [s, t])
    requires Out(x, s, t, m) != Out(x[..c], s, t, m) + Out(x[c..], s, t, m) && |x| <= limit
    ensures !SplitsUpTo([s, t], limit)
  {
    LastByte(x, c);
    CutShows(x[..|x| - 1], x[|x| - 1..], x[..c], x[c..], s, t, m, limit);
  }

  lemma LastByte(x: Bytes, c: nat)
    requires 1 < |x| && c < |x|
    ensures var p, b := x[..|x| - 1], x[|x| - 1..];
            p != [] && b != [] && p + b == x && |x[..c]| == c && p[..c] == x[..c] && p[c..] + b == x[c..]
  {
  }

  lemma LedByMarkerCut(t: Bytes, k: nat, m: Bytes)
    requires 0 < |t| <= 10 == |m| && t != m && Border(m, t, k)
    ensures var x := m + t[k..]; |x| > 1 && 10 - k < Cut(x[..|x| - 1], [m, t]) < |x|
  {
    var l := Then(First(m), t, k);
    KeepIs(m, t);
    assert Linked(First(m), [m, t]) && Linked(l, [m, t]);
    CutInLast(l, [m, t]);
  }

  lemma LedByMarkerOut(t: Bytes, k: nat, c: nat, m: Bytes)
    requires 0 < |t| <= 10 && t != m && Border(m, t, k) && Shaped(m) && 10 - k < c < |m + t[k..]|
    ensures var x := m + t[k..]; Out(x, m, t, m) != Out(x[..c], m, t, m) + Out(x[c..], m, t, m)
  {
    var x := m + t[k..];
    assert EndsWith(m, t[..k]);
    EndsMarkerMeets(t, k, m);
    ReplaceItself(x, m);
    ReplaceItself(x[..c], m);
    ReplaceItself(x[c..], m);
    assert x[..10] == m;
    forall p
      ensures !OccursAt(x[..c], t, p)
    {
      if OccursAt(x[..c], t, p) {
        PrefixOccurs(x, c, t, p);
        EndsMarkerOutside(t, k, x, p, m);
      }
    }
    ReplaceNothing(x[..c], t, m);
    ReplaceShort(x[c..], t, m);
    assert x[..c] + x[c..] == x;
    BackToMarker(t, k, m);
    if m[..10 - k] + m == x {
      Cancel(m[..10 - k], m, t);
    }
  }

  lemma BackToMarker(t: Bytes, k: nat, m: Bytes)
    requires |m| == 10 && Border(m, t, k)
    ensures m + t[k..] == m[..10 - k] + t
  {
    assert m == m[..10 - k] + t[..k] && t == t[..k] + t[k..];
    Regroup(m[..10 - k], t[..k], t[k..]);
  }

  lemma MarkerOverlapShows(t: Bytes, m: Bytes, limit: nat)
    requires 0 < |t| <= |m| && t != m && SelfOverlap(t) && m == Marker()
    requires limit >= 4 * |m|
    ensures !SplitsUpTo([m, t], limit)
  {
    var k :| 0 < k < |t| && Border(t, t, k);
    forall n: nat
      ensures AloneAt(t, k, [m, t], n)
    {
      ReplaceTwo(Chain(t, k, n), m, t);
      ReplaceItself(Chain(t, k, n), m);
    }
    ReplaceTwo(t[k..], m, t);
    ReplaceItself(t[k..], m);
    ReplaceShort(t[k..], t, m);
    KeepOfTwo(m, t);
    AloneShows(t, k, [m, t], limit);
  }

  lemma TwoNeeded(s: Bytes, t: Bytes, m: Bytes, limit: nat)
    requires 0 < |t| <= |s| && t != s && Shaped(m) && m == Marker() && !Transparent([s, t])
    requires limit >= 4 * |s|
    ensures !SplitsUpTo([s, t], limit)
  {
    if s == m {
      if SelfOverlap(t) {
        MarkerOverlapShows(t, m, limit);
      } else {
        LedByMarkerShows(t, m, limit);
      }
    } else if EndsMarker(t, m) {
      EndsMarkerShows(s, t, m, limit);
    } else if SelfOverlap(s) {
      LongOverlapShows(s, t, m, limit);
    } else if SelfOverlap(t) {
      PasswordOverlapShows(s, t, limit);
    } else if Leads(t, s) {
      LeadsShows(s, t, m, limit);
    } else {
      ApartNeeded(s, t, m, limit);
    }
  }

  // ------------------------------------------------------------- the theorem

  /** One or two secrets, none longer than the one before, and distinct. */
  predicate OneOrTwo(secrets: seq<Bytes>) {
    && NonEmpty(secrets) && |secrets| <= 2
    && (|secrets| == 2 ==> |secrets[1]| <= |secrets[0]| && secrets[0] != secrets[1])
  }

  lemma TransparentSuffices(secrets: seq<Bytes>)
    requires OneOrTwo(secrets) && Transparent(secrets)
    ensures SameOutput(secrets)
  {
    if |secrets| == 0 {
      ShortChainsSuffice(secrets);
    } else if |secrets| == 1 {
      assert secrets == [secrets[0]] && secrets[0] in secrets;
      OneSuffices(secrets[0]);
    } else {
      assert secrets == [secrets[0], secrets[1]] && secrets[1] in secrets;
      TwoSuffice(secrets[0], secrets[1]);
    }
  }

  lemma TransparentNeeded(secrets: seq<Bytes>, limit: nat)
    requires OneOrTwo(secrets) && limit >= 4 * Longest(secrets) && SplitsUpTo(secrets, limit)
    ensures Transparent(secrets)
  {
    if |secrets| == 1 {
      assert secrets == [secrets[0]] && secrets[0] in secrets;
      if SelfOverlap(secrets[0]) {
        OneOverlapShows(secrets[0], limit);
      }
    } else if |secrets| == 2 {
      assert secrets == [secrets[0], secrets[1]] && secrets[1] in secrets;
      KeepIs(secrets[0], secrets[1]);
      MarkerShaped();
      if !Transparent(secrets) {
        TwoNeeded(secrets[0], secrets[1], Marker(), limit);
      }
    }
  }

  /** For one or two secrets, none longer than the one before: the output is the
      replacement of the whole input for every chunking if and only if they are
      transparent. */
  lemma SameOutputExactly(secrets: seq<Bytes>)
    requires OneOrTwo(secrets)
    ensures SameOutput(secrets) <==> Transparent(secrets)
  {
    if Transparent(secrets) {
      TransparentSuffices(secrets);
    } else if SameOutput(secrets) {
      SameOutputSplits(secrets, 4 * Longest(secrets));
      TransparentNeeded(secrets, 4 * Longest(secrets));
    }
  }
}
