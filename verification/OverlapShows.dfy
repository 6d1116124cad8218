/** The longer of two secrets overlaps itself: the stream in which that shows. */
module OverlapShows {
  import opened Redaction
  import opened CopyRedacted
  import opened ReplaceFacts
  import opened OutputShows
  import opened MarkerShows
  import opened MarkerSwap

  /** The chain of `s` after its first link: where `s` occurs next. */
  lemma NextLink(s: Bytes, k: nat) returns (x: Bytes, a: int)
    requires Border(s, s, k)
    ensures s[k..] <= x && Periodic(x, |s| - k) && OccursAt(x, s, a)
    ensures forall p :: 0 <= p < a ==> !OccursAt(x, s, p)
  {
    var y := Growth(s, k, |s|);
    x := s[k..] + y;
    ChainSnoc(s, k, 0);
    ChainGrows(s, k, 1, |s|);
    ChainPeriodic(s, k, 1 + |s|);
    Regroup(s, s[k..], y);
    PeriodicTail(s, x, |s| - k);
    GrowthHas(s, k, 1, |s|);
    HasLater(s[k..], y, s);
    var found, p := SplitFirst(x, s, s);
    a := p;
  }

  lemma PeriodicTail(a: Bytes, b: Bytes, d: nat)
    requires Periodic(a + b, d)
    ensures Periodic(b, d)
  {
    forall i | 0 <= i < |b| - d
      ensures b[i] == b[i + d]
    {
      assert (a + b)[|a| + i] == b[i] && (a + b)[|a| + i + d] == b[i + d];
    }
  }

  lemma PeriodicShift(x: Bytes, d: nat, s: Bytes, a: int)
    requires Periodic(x, d) && OccursAt(x, s, a) && a >= d
    ensures OccursAt(x, s, a - d)
  {
    forall i | 0 <= i < |s|
      ensures x[a - d..a - d + |s|][i] == s[i]
    {
      assert x[a..a + |s|][i] == x[a + i] == x[a + i - d];
    }
  }

  /** The secret across the end of its own overlap: `z` is what the first read has
      of it, `y` the rest. */
  lemma AcrossOverlap(s: Bytes, k: nat) returns (g: Bytes, u: Bytes, y: Bytes)
    requires Border(s, s, k)
    ensures s[k..] == g + u && s == u + y && u != [] && y != []
    ensures forall p :: 0 <= p < |g| ==> !OccursAt(g + s, s, p)
  {
    var d := |s| - k;
    var x, a := NextLink(s, k);
    if a >= d {
      PeriodicShift(x, d, s, a);
    }
    g, u, y := x[..a], s[..d - a], s[d - a..];
    assert s[k..] == x[..d] == x[..a] + x[a..d];
    assert x[a..d] == x[a..a + |s|][..d - a] == u;
    FirstPrefix(x, s, a);
  }

  lemma FirstPrefix(x: Bytes, s: Bytes, a: int)
    requires OccursAt(x, s, a) && forall p :: 0 <= p < a ==> !OccursAt(x, s, p)
    ensures forall p :: 0 <= p < a ==> !OccursAt(x[..a] + s, s, p)
  {
    assert x[..a + |s|] == x[..a] + s;
    forall p | 0 <= p < a
      ensures !OccursAt(x[..a] + s, s, p)
    {
      if OccursAt(x[..a] + s, s, p) {
        PrefixOccurs(x, a + |s|, s, p);
      }
    }
  }

  lemma ClearAfterMarker(m: Bytes, x: Bytes, t: Bytes)
    requires !EndsMarker(t, m)
    ensures Clear(m + x, t, |m|)
  {
    forall p | OccursAt(m + x, t, p)
      ensures !(p < |m| < p + |t|)
    {
      if p < |m| < p + |t| {
        HeadEndsMarker(m, x, t, p);
      }
    }
  }

  lemma HeadEndsMarker(m: Bytes, x: Bytes, t: Bytes, p: int)
    requires OccursAt(m + x, t, p) && p < |m| < p + |t|
    ensures EndsMarker(t, m)
  {
    var k := |m| - p;
    assert t[..k] == (m + x)[p..p + |t|][..k] == m[p..];
    assert EndsWith(m, t[..k]);
  }

  lemma OutAfterSecret(s: Bytes, x: Bytes, t: Bytes, m: Bytes)
    requires s != [] && t != [] && !EndsMarker(t, m)
    ensures Out(s + x, s, t, m) == Replace(m, t, m) + Out(x, s, t, m)
  {
    ReplaceWhole(s, x, m);
    ClearAfterMarker(m, Replace(x, s, m), t);
    ReplaceSplits(m, Replace(x, s, m), t, m);
  }

  lemma OutAtEnd(g: Bytes, s: Bytes, t: Bytes, m: Bytes)
    requires s != [] && t != [] && forall p :: 0 <= p < |g| ==> !OccursAt(g + s, s, p)
    ensures Out(g + s, s, t, m) == Replace(g + m, t, m)
  {
    assert (g + s)[|g|..|g| + |s|] == s && (g + s)[..|g|] == g;
    ReplaceLast(g + s, s, m, |g|);
  }

  lemma OutPart(x: Bytes, s: Bytes, t: Bytes, m: Bytes)
    requires |x| < |s| && t != []
    ensures Out(x, s, t, m) == Replace(x, t, m)
  {
    ReplaceShort(x, s, m);
  }

  lemma PartsDiffer(g: Bytes, u: Bytes, y: Bytes, s: Bytes, t: Bytes, m: Bytes, k: nat)
    requires Shaped(m) && Border(s, s, k) && 0 < |t| <= |s| && t != s && !EndsMarker(t, m)
    requires s[k..] == g + u && s == u + y && u != []
    ensures Replace(g + m, t, m) != Replace(g + u, t, m) + Replace(y, t, m)
  {
    ShapedIsBorderless(m);
    assert SelfOverlap(u + y);
    if t == m {
      ReplaceItself(g + m, m);
      ReplaceItself(g + u, m);
      ReplaceItself(y, m);
      Regroup(g, u, y);
      if g + m == g + (u + y) {
        Cancel(g, m, u + y);
      }
    } else {
      var done, w := Done(g, t, m), Open(g, t);
      Appended(g, m, t, m);
      Appended(g, u, t, m);
      OpenInSecret(g, u, y, s, t, k);
      SwapDiffers(w, u, y, t, m);
      CancelParts(done, Replace(w + m, t, m), Replace(w + u, t, m), Replace(y, t, m));
    }
  }

  lemma CancelParts(a: Bytes, b: Bytes, c: Bytes, d: Bytes)
    requires b != c + d
    ensures a + b != (a + c) + d
  {
    Regroup(a, c, d);
    if a + b == a + (c + d) {
      Cancel(a, b, c + d);
    }
  }

  lemma OpenInSecret(g: Bytes, u: Bytes, y: Bytes, s: Bytes, t: Bytes, k: nat)
    requires k <= |s| && s[k..] == g + u && s == u + y && t != []
    ensures OPEN in Open(g, t) ==> OPEN in u + y
  {
    OpenEnds(g, t);
    if OPEN in Open(g, t) {
      assert OPEN in g;
      assert OPEN in s[k..];
    }
  }

  /** The first read ends with the overlap, written as a whole. */
  lemma OverlapCut(s: Bytes, t: Bytes, k: nat)
    requires 0 < |t| <= |s| && t != s && Border(s, s, k)
    ensures Cut(s + s[k..], [s, t]) == |s + s[k..]|
  {
    KeepIs(s, t);
    ChainSnoc(s, k, 0);
    ChainCovered(s, k, 1);
    var x := Chain(s, k, 1);
    var c := Cut(x, [s, t]);
    assert s in [s, t];
    assert c < |x| ==> !Clear(x, s, c);
  }

  lemma LongOverlapShows(s: Bytes, t: Bytes, m: Bytes, limit: nat)
    requires 0 < |t| <= |s| && t != s && SelfOverlap(s) && !EndsMarker(t, m) && Shaped(m) && m == Marker()
    requires limit >= 4 * |s|
    ensures !SplitsUpTo([s, t], limit)
  {
    var k: nat :| 0 < k < |s| && Border(s, s, k);
    var g, u, y := AcrossOverlap(s, k);
    var z := s[k..];
    OverlapCut(s, t, k);
    PartsDiffer(g, u, y, s, t, m, k);
    OutAfterSecret(s, g + s, t, m);
    OutAtEnd(g, s, t, m);
    OutAfterSecret(s, z, t, m);
    OutPart(z, s, t, m);
    OutPart(y, s, t, m);
    CancelParts(Replace(m, t, m), Replace(g + m, t, m), Replace(z, t, m), Replace(y, t, m));
    WholeText(s, z, g, u, y);
    FullCutShows(s + z, y, s, t, m, limit);
  }

  lemma WholeText(s: Bytes, z: Bytes, g: Bytes, u: Bytes, y: Bytes)
    requires z == g + u && s == u + y
    ensures (s + z) + y == s + (g + s)
  {
    Regroup(s, z, y);
    Regroup(g, u, y);
  }
}
