/** A marker in place of a secret that overlaps itself is never what the two parts
    of that secret are replaced with. */
module MarkerSwap {
  import opened Redaction
  import opened CopyRedacted
  import opened ReplaceFacts
  import opened OutputShows
  import opened MarkerShows

  // ------------------------------------------------ two texts replaced apart

  ghost predicate NoHit(b: Bytes, c: Bytes, t: Bytes) {
    forall j :: !OccursAt(b, t, j) && !OccursAt(c, t, j)
  }

  /** The first replacement is in `b`. */
  ghost predicate HitFirst(b: Bytes, c: Bytes, t: Bytes, m: Bytes, q: int, rest: Bytes)
    requires t != []
  {
    && OccursAt(b, t, q) && (forall j :: 0 <= j < q ==> !OccursAt(b, t, j))
    && rest == Replace(b[q + |t|..], t, m) + Replace(c, t, m)
    && Replace(b, t, m) + Replace(c, t, m) == b[..q] + m + rest
  }

  /** The first replacement is in `c`. */
  ghost predicate HitSecond(b: Bytes, c: Bytes, t: Bytes, m: Bytes, q: int, rest: Bytes)
    requires t != []
  {
    && (forall j :: !OccursAt(b, t, j))
    && OccursAt(c, t, q) && (forall j :: 0 <= j < q ==> !OccursAt(c, t, j))
    && rest == Replace(c[q + |t|..], t, m)
    && Replace(b, t, m) + Replace(c, t, m) == (b + c[..q]) + m + rest
  }

  lemma SplitTwo(b: Bytes, c: Bytes, t: Bytes, m: Bytes) returns (q: int, rest: Bytes)
    requires t != []
    ensures (NoHit(b, c, t) && Replace(b, t, m) + Replace(c, t, m) == b + c)
            || HitFirst(b, c, t, m, q, rest) || HitSecond(b, c, t, m, q, rest)
  {
    var inB, p := SplitFirst(b, t, m);
    var inC, r := SplitFirst(c, t, m);
    if inB {
      q, rest := p, Replace(b[p + |t|..], t, m) + Replace(c, t, m);
      GlueFirst(Replace(b, t, m), b[..p], m, Replace(b[p + |t|..], t, m), Replace(c, t, m));
    } else if inC {
      q, rest := r, Replace(c[r + |t|..], t, m);
      GlueSecond(b, Replace(c, t, m), c[..r], m, rest);
    } else {
      q, rest := 0, [];
    }
  }

  lemma GlueFirst(whole: Bytes, a: Bytes, m: Bytes, b: Bytes, c: Bytes)
    requires whole == a + m + b
    ensures whole + c == a + m + (b + c)
  {
  }

  lemma GlueSecond(b: Bytes, whole: Bytes, a: Bytes, m: Bytes, rest: Bytes)
    requires whole == a + m + rest
    ensures b + whole == (b + a) + m + rest
  {
  }

  // ------------------------------------------------------- where markers stand

  /** Two ways to write one text, each with a marker: the earlier marker stands ten
      bytes or more before the later one. */
  lemma TwoMarkers(a: Bytes, b: Bytes, c: Bytes, d: Bytes, m: Bytes)
    requires Shaped(m) && a + m + b == c + m + d
    ensures |a| < |c| ==> |c| >= |a| + 10 && c[..|a|] == a && OccursAt(c, m, |a|)
    ensures |a| == |c| ==> a == c && b == d
  {
    var x := a + m + b;
    OccursBetween(a, m, b);
    OccursBetween(c, m, d);
    if |a| < |c| {
      MarkersApart(x, m, |a|, |c|);
      assert c == x[..|c|] && c[..|a|] == x[..|a|] == a;
      assert c[|a|..|a| + 10] == x[|a|..|a| + 10];
    } else if |a| == |c| {
      assert a == x[..|a|] == c && b == x[|a| + 10..] == d;
    }
  }

  /** A text with a marker in it is no marker-free text. */
  lemma MarkerNotPlain(a: Bytes, m: Bytes, b: Bytes)
    requires Shaped(m)
    ensures OPEN in a + m + b && |a + m + b| >= 10
  {
    assert (a + m + b)[|a|] == m[0];
  }

  /** Both occurrences of `t` in a marker cannot lie across one boundary. */
  lemma LiteralMarker(b: Bytes, c: Bytes, t: Bytes, m: Bytes, q: int, i: int, j: int)
    requires OccursAt(b + c, m, q) && OccursAt(m, t, i) && OccursAt(m, t, j) && i + |t| <= j
    ensures OccursAt(b, t, q + i) || OccursAt(c, t, q + j - |b|)
  {
    OccursWithin(b + c, m, q, t, i);
    OccursWithin(b + c, m, q, t, j);
    if q + i + |t| <= |b| {
      OccursInPrefix(b, c, t, q + i);
    } else {
      OccursShifted(b, c, t, q + j - |b|);
    }
  }

  lemma OccursWithin(x: Bytes, m: Bytes, q: int, t: Bytes, i: int)
    requires OccursAt(x, m, q) && OccursAt(m, t, i)
    ensures OccursAt(x, t, q + i)
  {
    assert x[q..q + |m|] == m && m[i..i + |t|] == t;
    forall j | 0 <= j < |t|
      ensures x[q + i..q + i + |t|][j] == t[j]
    {
      assert x[q..q + |m|][i + j] == m[i + j] == m[i..i + |t|][j];
    }
  }

  /** Whatever is replaced in a text without opening brackets brings whole markers. */
  lemma {:induction false} OpensAreMarkers(x: Bytes, t: Bytes, m: Bytes, j: int)
    requires Shaped(m) && t != [] && Plain(x) && 0 <= j < |Replace(x, t, m)| && Replace(x, t, m)[j] == OPEN
    ensures OccursAt(Replace(x, t, m), m, j)
    decreases |x|
  {
    var r := Replace(x, t, m);
    var found, p := SplitFirst(x, t, m);
    assert found;
    var rest := Replace(x[p + |t|..], t, m);
    OccursBetween(x[..p], m, rest);
    if j >= p + 10 {
      OpensAreMarkers(x[p + |t|..], t, m, j - p - 10);
      OccursShifted(x[..p] + m, rest, m, j - p - 10);
    } else {
      ByteAt(r, m, p, if j > p then j - p else 0);
    }
  }

  // ----------------------------------------------- the rest of a marker apart

  /** `t` stands in the marker at `r`, before its rest from `e` on. */
  predicate InMarker(t: Bytes, m: Bytes, r: int, e: int) {
    OccursAt(m, t, r) && t != [] && r + |t| <= e <= 10
  }

  lemma InMarkerLater(t: Bytes, m: Bytes, r: int, e: int, p: int)
    requires Shaped(m) && InMarker(t, m, r, e) && OccursAt(m[e..], t, p)
    ensures OccursAt(m, t, e + p) && InMarker(t, m, r, e + p + |t|)
    ensures m[e..][p + |t|..] == m[e + p + |t|..]
  {
    assert m == m[..e] + m[e..];
    OccursShifted(m[..e], m[e..], t, p);
  }

  lemma PrefixOccurs(x: Bytes, n: int, t: Bytes, p: int)
    requires 0 <= n <= |x| && OccursAt(x[..n], t, p)
    ensures OccursAt(x, t, p) && p + |t| <= n
  {
    assert x == x[..n] + x[n..];
    OccursInPrefix(x[..n], x[n..], t, p);
  }

  /** A raw marker in `b` holds `t`, so it is not before the first replacement. */
  lemma NoMarkerBefore(b: Bytes, q: int, t: Bytes, m: Bytes, r: int, e: int, p: int)
    requires 0 <= q <= |b| && InMarker(t, m, r, e) && forall j :: 0 <= j < q ==> !OccursAt(b, t, j)
    ensures !OccursAt(b[..q], m, p)
  {
    if OccursAt(b[..q], m, p) {
      OccursWithin(b[..q], m, p, t, r);
      PrefixOccurs(b, q, t, p + r);
    }
  }

  /** Nor across `b` and `c`, when the marker holds `t` twice. */
  lemma NoMarkerAcross(b: Bytes, c: Bytes, q: int, t: Bytes, m: Bytes, i: int, j: int, p: int)
    requires 0 <= q <= |c| && OccursAt(m, t, i) && OccursAt(m, t, j) && i + |t| <= j && t != []
    requires (forall n :: !OccursAt(b, t, n)) && forall n :: 0 <= n && n + |t| <= q ==> !OccursAt(c, t, n)
    ensures !OccursAt(b + c[..q], m, p)
  {
    if OccursAt(b + c[..q], m, p) {
      LiteralMarker(b, c[..q], t, m, p, i, j);
      if OccursAt(c[..q], t, p + j - |b|) {
        PrefixOccurs(c, q, t, p + j - |b|);
      }
    }
  }

  lemma NoMarkerInPlain(x: Bytes, n: int, m: Bytes, p: int)
    requires Shaped(m) && Plain(x) && 0 <= n <= |x|
    ensures !OccursAt(x[..n], m, p)
  {
    ByteAt(x[..n], m, p, 0);
    if OccursAt(x[..n], m, p) {
      PrefixOccurs(x, n, m, p);
      ByteAt(x, m, p, 0);
    }
  }

  lemma SplitsAt(x: Bytes, t: Bytes, p: int)
    requires OccursAt(x, t, p)
    ensures x == x[..p] + t + x[p + |t|..]
  {
  }

  lemma SamePlace(a: Bytes, b: Bytes, c: Bytes, d: Bytes, m: Bytes)
    requires Shaped(m) && a + m + b == c + m + d && !OccursAt(c, m, |a|) && !OccursAt(a, m, |c|)
    ensures a == c && b == d
  {
    TwoMarkers(a, b, c, d, m);
    TwoMarkers(c, d, a, b, m);
  }

  lemma HitBringsMarker(b: Bytes, c: Bytes, t: Bytes, m: Bytes, q: int, rest: Bytes)
    requires Shaped(m) && t != [] && (HitFirst(b, c, t, m, q, rest) || HitSecond(b, c, t, m, q, rest))
    ensures OPEN in Replace(b, t, m) + Replace(c, t, m) && |Replace(b, t, m) + Replace(c, t, m)| >= 10
  {
    if HitFirst(b, c, t, m, q, rest) {
      MarkerNotPlain(b[..q], m, rest);
    } else {
      MarkerNotPlain(b + c[..q], m, rest);
    }
  }

  lemma UnmixedFirst(x: Bytes, b: Bytes, c: Bytes, t: Bytes, m: Bytes, e: int, r: int, p: int, q: int, rest: Bytes)
    requires Shaped(m) && 0 < e && InMarker(t, m, r, e) && x == m[e..]
    requires Replace(x, t, m) == Replace(b, t, m) + Replace(c, t, m)
    requires OccursAt(x, t, p) && Replace(x, t, m) == x[..p] + m + Replace(x[p + |t|..], t, m)
    requires HitFirst(b, c, t, m, q, rest)
    ensures p == q && x[..p] == b[..q]
    ensures Replace(x[p + |t|..], t, m) == Replace(b[q + |t|..], t, m) + Replace(c, t, m)
  {
    ShapedTail(m, e);
    var tail := Replace(x[p + |t|..], t, m);
    NoMarkerBefore(b, q, t, m, r, e, p);
    NoMarkerInPlain(x, p, m, q);
    SamePlace(x[..p], tail, b[..q], rest, m);
  }

  lemma UnmixedPlaces(x: Bytes, b: Bytes, c: Bytes, t: Bytes, m: Bytes, e: int, r: int, p: int, q: int)
    requires Shaped(m) && 0 < e && InMarker(t, m, r, e) && x == m[e..] && OccursAt(x, t, p)
    requires (forall j :: !OccursAt(b, t, j)) && OccursAt(c, t, q) && forall j :: 0 <= j < q ==> !OccursAt(c, t, j)
    ensures !OccursAt(b + c[..q], m, p) && !OccursAt(x[..p], m, |b| + q)
  {
    ShapedTail(m, e);
    InMarkerLater(t, m, r, e, p);
    NoMarkerAcross(b, c, q, t, m, r, e + p, p);
    NoMarkerInPlain(x, p, m, |b| + q);
  }

  lemma UnmixedSecond(x: Bytes, b: Bytes, c: Bytes, t: Bytes, m: Bytes, e: int, r: int, p: int, q: int, rest: Bytes)
    requires Shaped(m) && 0 < e && InMarker(t, m, r, e) && x == m[e..]
    requires Replace(x, t, m) == Replace(b, t, m) + Replace(c, t, m)
    requires OccursAt(x, t, p) && Replace(x, t, m) == x[..p] + m + Replace(x[p + |t|..], t, m)
    requires HitSecond(b, c, t, m, q, rest)
    ensures x[..p] == b + c[..q] && Replace(x[p + |t|..], t, m) == Replace(c[q + |t|..], t, m)
  {
    UnmixedPlaces(x, b, c, t, m, e, r, p, q);
    SamePlace(x[..p], Replace(x[p + |t|..], t, m), b + c[..q], rest, m);
  }

  lemma JoinFirst(x: Bytes, b: Bytes, c: Bytes, t: Bytes, p: int, q: int)
    requires OccursAt(x, t, p) && OccursAt(b, t, q) && x[..p] == b[..q] && x[p + |t|..] == b[q + |t|..] + c
    ensures x == b + c
  {
    SplitsAt(x, t, p);
    SplitsAt(b, t, q);
    GlueFirst(b, b[..q], t, b[q + |t|..], c);
  }

  lemma JoinSecond(x: Bytes, b: Bytes, c: Bytes, t: Bytes, p: int, q: int)
    requires OccursAt(x, t, p) && OccursAt(c, t, q) && x[..p] == b + c[..q] && x[p + |t|..] == c[q + |t|..]
    ensures x == b + c
  {
    SplitsAt(x, t, p);
    SplitsAt(c, t, q);
    GlueSecond(b, c, c[..q], t, c[q + |t|..]);
  }

  /** If the rest of the marker is replaced like two texts apart, it is these texts. */
  lemma {:induction false} Unmixed(x: Bytes, b: Bytes, c: Bytes, t: Bytes, m: Bytes, e: int, r: int)
    requires Shaped(m) && 0 < e && InMarker(t, m, r, e) && x == m[e..]
    requires Replace(x, t, m) == Replace(b, t, m) + Replace(c, t, m)
    ensures x == b + c
    decreases |x|
  {
    ShapedTail(m, e);
    var found, p := SplitFirst(x, t, m);
    var q, rest := SplitTwo(b, c, t, m);
    if found {
      InMarkerLater(t, m, r, e, p);
      if HitFirst(b, c, t, m, q, rest) {
        UnmixedFirst(x, b, c, t, m, e, r, p, q, rest);
        Unmixed(x[p + |t|..], b[q + |t|..], c, t, m, e + p + |t|, r);
        JoinFirst(x, b, c, t, p, q);
      } else if HitSecond(b, c, t, m, q, rest) {
        UnmixedSecond(x, b, c, t, m, e, r, p, q, rest);
        assert [] + Replace(c[q + |t|..], t, m) == Replace(c[q + |t|..], t, m);
        Unmixed(x[p + |t|..], [], c[q + |t|..], t, m, e + p + |t|, r);
        assert [] + c[q + |t|..] == c[q + |t|..];
        JoinSecond(x, b, c, t, p, q);
      } else {
        UnmixedNever(x, b, c, t, m, e, r, p);
      }
    } else if HitFirst(b, c, t, m, q, rest) || HitSecond(b, c, t, m, q, rest) {
      HitBringsMarker(b, c, t, m, q, rest);
    }
  }

  lemma UnmixedNever(x: Bytes, b: Bytes, c: Bytes, t: Bytes, m: Bytes, e: int, r: int, p: int)
    requires Shaped(m) && 0 < e && InMarker(t, m, r, e) && x == m[e..] && OccursAt(x, t, p) && NoHit(b, c, t)
    ensures b + c != x[..p] + m + Replace(x[p + |t|..], t, m)
  {
    InMarkerLater(t, m, r, e, p);
    NoMarkerAcross(b, c, |c|, t, m, r, e + p, p);
    assert c[..|c|] == c;
    OccursBetween(x[..p], m, Replace(x[p + |t|..], t, m));
  }

  // -------------------------------------------- a marker for the whole secret

  /** What is still open of a text, and the two parts of a secret that follows it. */
  predicate Swapped(w: Bytes, u: Bytes, v: Bytes, t: Bytes, m: Bytes) {
    && Shaped(m) && |w| < |t| <= |u + v| && t != u + v && u != [] && t != m && !EndsMarker(t, m)
    && SelfOverlap(u + v) && (OPEN in w ==> OPEN in u + v)
  }

  lemma StartsWithMarkerEnds(t: Bytes, m: Bytes)
    requires Shaped(m) && |t| > 10 && t[..10] == m
    ensures EndsMarker(t, m)
  {
    assert m[|m| - 10..] == m;
    assert EndsWith(m, t[..10]);
  }

  /** A marker inside `w` where `t` begins makes `t` begin with a marker. */
  lemma MarkerUnderSecret(w: Bytes, u: Bytes, t: Bytes, m: Bytes, q: int)
    requires Shaped(m) && |w| < |t| && OccursAt(w + u, t, q) && OccursAt(w, m, q)
    ensures EndsMarker(t, m)
  {
    OccursInPrefix(w, u, m, q);
    assert t[..10] == (w + u)[q..q + |t|][..10] == (w + u)[q..q + 10] == m;
    StartsWithMarkerEnds(t, m);
  }

  // ................................... no secret in the open text and the marker

  lemma SwapNone(w: Bytes, u: Bytes, v: Bytes, t: Bytes, m: Bytes)
    requires Swapped(w, u, v, t, m) && t != []
    ensures w + m != Replace(w + u, t, m) + Replace(v, t, m)
  {
    var q, rest := SplitTwo(w + u, v, t, m);
    if HitFirst(w + u, v, t, m, q, rest) {
      SwapNoneFirst(w, u, v, t, m, q, rest);
    } else if HitSecond(w + u, v, t, m, q, rest) {
      LongerBefore(w, u, v[..q], m, rest);
    } else {
      ShapedIsBorderless(m);
      Regroup(w, u, v);
      if w + m == w + (u + v) {
        Cancel(w, m, u + v);
      }
    }
  }

  lemma LongerBefore(w: Bytes, u: Bytes, a: Bytes, m: Bytes, rest: Bytes)
    requires u != []
    ensures w + m != ((w + u) + a) + m + rest
  {
    assert |w + m| < |((w + u) + a) + m + rest|;
  }

  lemma SwapNoneFirst(w: Bytes, u: Bytes, v: Bytes, t: Bytes, m: Bytes, q: int, rest: Bytes)
    requires Swapped(w, u, v, t, m) && t != [] && HitFirst(w + u, v, t, m, q, rest)
    ensures w + m != (w + u)[..q] + m + rest
  {
    var a := (w + u)[..q];
    assert w + m == w + m + [];
    if w + m + [] == a + m + rest {
      assert |w| == |a| + |rest|;
      TwoMarkers(a, rest, w, [], m);
      if q < |w| {
        MarkerUnderSecret(w, u, t, m, q);
      } else {
        EmptyRest(w, u, v, t, m, q, rest);
      }
    }
  }

  lemma ReplaceEmpty(x: Bytes, t: Bytes, m: Bytes)
    requires t != [] && m != []
    ensures Replace(x, t, m) == [] ==> x == []
  {
  }

  /** A hit at the end of `w` with nothing left means that the secret is `t`. */
  lemma EmptyRest(w: Bytes, u: Bytes, v: Bytes, t: Bytes, m: Bytes, q: int, rest: Bytes)
    requires t != [] && m != [] && HitFirst(w + u, v, t, m, q, rest) && q == |w|
    ensures rest == [] ==> u + v == t
  {
    if rest == [] {
      ReplaceEmpty((w + u)[q + |t|..], t, m);
      ReplaceEmpty(v, t, m);
      assert (w + u)[q..] == u;
      SplitsAt(w + u, t, q);
    }
  }

  // ................................... the secret across the marker's start

  lemma OpenOf(c: Bytes, d: Bytes, m: Bytes)
    requires Shaped(m)
    ensures (c + m + d)[|c|] == OPEN
  {
  }

  lemma NotOpenAfter(a: Bytes, b: Bytes, m: Bytes, j: int)
    requires Shaped(m) && Plain(b) && |a| < j < |a + m + b|
    ensures (a + m + b)[j] != OPEN
  {
    assert (a + m + b)[j] == if j < |a| + 10 then m[j - |a|] else b[j - |a| - 10];
  }

  /** After a plain rest there is no marker. */
  lemma MarkerLast(a: Bytes, b: Bytes, c: Bytes, d: Bytes, m: Bytes)
    requires Shaped(m) && Plain(b)
    ensures a + m + b == c + m + d ==> |c| <= |a|
  {
    OpenOf(c, d, m);
    if |a| < |c| < |a + m + b| {
      NotOpenAfter(a, b, m, |c|);
    }
  }

  predicate Across(w: Bytes, t: Bytes, m: Bytes, p: int, i: int) {
    0 <= p < |w| < |t| && i == |t| - (|w| - p) && 0 < i <= 10 == |m| && t == w[p..] + m[..i]
  }

  lemma AcrossHolds(w: Bytes, t: Bytes, m: Bytes, p: int) returns (i: int)
    requires Shaped(m) && |w| < |t| && OccursAt(w + m, t, p) && p < |w|
    ensures Across(w, t, m, p, i) && (w + m)[p + |t|..] == m[i..] && OPEN in t && Replace(m[i..], t, m) == m[i..]
  {
    i := |t| - (|w| - p);
    assert t == (w + m)[p..p + |t|] == w[p..] + m[..i];
    assert t[|w| - p] == m[..i][0];
    ShapedTail(m, i);
    PlainHasNot(m[i..], t);
    ReplaceNothing(m[i..], t, m);
  }

  lemma SwapAcross(w: Bytes, u: Bytes, v: Bytes, t: Bytes, m: Bytes, p: int, i: int)
    requires Swapped(w, u, v, t, m) && Across(w, t, m, p, i)
    ensures w[..p] + m + m[i..] != Replace(w + u, t, m) + Replace(v, t, m)
  {
    ShapedTail(m, i);
    var q, rest := SplitTwo(w + u, v, t, m);
    if HitFirst(w + u, v, t, m, q, rest) {
      SwapAcrossFirst(w, u, v, t, m, p, i, q, rest);
    } else if HitSecond(w + u, v, t, m, q, rest) {
      MarkerLast(w[..p], m[i..], (w + u) + v[..q], rest, m);
    } else {
      SwapAcrossNever(w, u, v, t, m, p, i);
    }
  }

  lemma SwapAcrossFirst(w: Bytes, u: Bytes, v: Bytes, t: Bytes, m: Bytes, p: int, i: int, q: int, rest: Bytes)
    requires Swapped(w, u, v, t, m) && Across(w, t, m, p, i) && HitFirst(w + u, v, t, m, q, rest)
    ensures w[..p] + m + m[i..] != (w + u)[..q] + m + rest
  {
    ShapedTail(m, i);
    if w[..p] + m + m[i..] == (w + u)[..q] + m + rest {
      MarkerLast(w[..p], m[i..], (w + u)[..q], rest, m);
      TwoMarkers((w + u)[..q], rest, w[..p], m[i..], m);
      if q < p {
        PrefixOccurs(w, p, m, q);
        MarkerUnderSecret(w, u, t, m, q);
      } else {
        SameHitAcross(w, u, v, t, m, p, i, rest);
      }
    }
  }

  lemma SameHitAcross(w: Bytes, u: Bytes, v: Bytes, t: Bytes, m: Bytes, p: int, i: int, rest: Bytes)
    requires Shaped(m) && Across(w, t, m, p, i) && HitFirst(w + u, v, t, m, p, rest)
    ensures rest == m[i..] ==> u + v == m
  {
    ShapedTail(m, i);
    assert (w + u)[p..p + |t|] == t && (w + u)[p + |t|..] == u[i..];
    assert u[..i] == (w + u)[p..p + |t|][|w| - p..] == m[..i];
    if rest == m[i..] {
      var q, more := SplitTwo(u[i..], v, t, m);
      if HitFirst(u[i..], v, t, m, q, more) || HitSecond(u[i..], v, t, m, q, more) {
        HitBringsMarker(u[i..], v, t, m, q, more);
      }
      assert u[..i] + u[i..] == u && m[..i] + m[i..] == m;
      Regroup(m[..i], u[i..], v);
    }
  }

  lemma SwapAcrossNever(w: Bytes, u: Bytes, v: Bytes, t: Bytes, m: Bytes, p: int, i: int)
    requires Swapped(w, u, v, t, m) && Across(w, t, m, p, i)
    ensures w[..p] + m + m[i..] != (w + u) + v
  {
    var a, b := w[p..], m[i..];
    assert w == w[..p] + a;
    if w[..p] + m + m[i..] == (w + u) + v {
      Regroup(w[..p], m, m[i..]);
      Regroup(w, u, v);
      Regroup(w[..p], a, u + v);
      Cancel(w[..p], m + m[i..], a + (u + v));
      if |a| >= 10 {
        FrontEnds(a, u + v, t, m, b);
      } else {
        OpenInFront(a, u + v, m, i);
      }
    }
  }

  lemma FrontEnds(a: Bytes, s: Bytes, t: Bytes, m: Bytes, b: Bytes)
    requires Shaped(m) && |a| >= 10 && a < t && m + b == a + s
    ensures EndsMarker(t, m)
  {
    assert t[..10] == a[..10] == (m + b)[..10] == m;
    StartsWithMarkerEnds(t, m);
  }

  lemma OpenInFront(a: Bytes, s: Bytes, m: Bytes, i: int)
    requires Shaped(m) && 0 < |a| < 10 && 0 < i <= 10 && m + m[i..] == a + s
    ensures OPEN in a && Plain(s)
  {
    var x := m + m[i..];
    assert a[0] == x[0] == OPEN;
    ShapedTail(m, i);
    forall j | 0 <= j < |s|
      ensures s[j] != OPEN
    {
      assert s[j] == x[|a| + j];
    }
  }

  // ............................................. the secret inside the marker

  lemma SwapInside(w: Bytes, u: Bytes, v: Bytes, t: Bytes, m: Bytes, r: int, e: int)
    requires Swapped(w, u, v, t, m) && InMarker(t, m, r, e) && e == r + |t|
    ensures (w + m[..r]) + m + Replace(m[e..], t, m) != Replace(w + u, t, m) + Replace(v, t, m)
  {
    var q, rest := SplitTwo(w + u, v, t, m);
    if HitFirst(w + u, v, t, m, q, rest) {
      SwapInsideFirst(w, u, v, t, m, r, e, q, rest);
    } else if HitSecond(w + u, v, t, m, q, rest) {
      SwapInsideSecond(w, u, v, t, m, r, e, q, rest);
    } else {
      SwapInsideNever(w, u, v, t, m, r, e);
    }
  }

  lemma InsideIsShort(t: Bytes, m: Bytes, r: int, e: int)
    requires Shaped(m) && InMarker(t, m, r, e)
    ensures |t| < 10 || t == m
  {
    if |t| == 10 {
      assert m[0..0 + |t|] == m;
    }
  }

  /** In the open text no marker ends before the marker's own start. */
  lemma NoMarkerInOpen(w: Bytes, m: Bytes, r: int, j: int)
    requires Shaped(m) && |w| < 9 && 0 <= r < 10
    ensures !OccursAt(w + m[..r], m, j)
  {
    var x := w + m[..r];
    if 0 <= j < |w| < |x| {
      ByteAt(x, m, j, |w| - j);
      assert x[|w|] == m[..r][0];
    }
  }

  lemma SwapInsidePlace(w: Bytes, u: Bytes, t: Bytes, m: Bytes, r: int, e: int, q: int, tail: Bytes, rest: Bytes)
    requires Shaped(m) && |w| < |t| && t != m && InMarker(t, m, r, e)
    requires 0 <= q <= |w + u| && forall j :: 0 <= j < q ==> !OccursAt(w + u, t, j)
    requires (w + m[..r]) + m + tail == (w + u)[..q] + m + rest
    ensures q == |w| + r && (w + u)[..q] == w + m[..r] && tail == rest
  {
    InsideIsShort(t, m, r, e);
    NoMarkerInOpen(w, m, r, q);
    NoMarkerBefore(w + u, q, t, m, r, e, |w| + r);
    SamePlace(w + m[..r], tail, (w + u)[..q], rest, m);
  }

  lemma SwapInsideFirst(w: Bytes, u: Bytes, v: Bytes, t: Bytes, m: Bytes, r: int, e: int, q: int, rest: Bytes)
    requires Swapped(w, u, v, t, m) && InMarker(t, m, r, e) && e == r + |t|
    requires OccursAt(w + u, t, q) && forall j :: 0 <= j < q ==> !OccursAt(w + u, t, j)
    requires rest == Replace((w + u)[q + |t|..], t, m) + Replace(v, t, m)
    ensures (w + m[..r]) + m + Replace(m[e..], t, m) != (w + u)[..q] + m + rest
  {
    var tail := Replace(m[e..], t, m);
    if (w + m[..r]) + m + tail == (w + u)[..q] + m + rest {
      SwapInsidePlace(w, u, t, m, r, e, q, tail, rest);
      SameHitInside(w, u, v, t, m, r, e, q);
    }
  }

  lemma HitSlices(w: Bytes, u: Bytes, t: Bytes, m: Bytes, r: int, e: int, q: int)
    requires 0 <= r <= |m| && q == |w| + r <= |w + u| && (w + u)[..q] == w + m[..r]
    requires OccursAt(w + u, t, q) && OccursAt(m, t, r) && e == r + |t|
    ensures e <= |u| && u[..e] == m[..e] && q + |t| <= |w + u| && (w + u)[q + |t|..] == u[e..]
  {
    assert u[..r] == (w + u)[..q][|w|..] == m[..r];
    assert u[r..e] == (w + u)[q..q + |t|] == t == m[r..e];
    assert u[..e] == u[..r] + u[r..e] && m[..e] == m[..r] + m[r..e];
  }

  lemma SameFront(u: Bytes, v: Bytes, m: Bytes, e: int)
    requires 0 <= e <= |u| && e <= |m| && u[..e] == m[..e] && m[e..] == u[e..] + v
    ensures u + v == m
  {
    assert u == u[..e] + u[e..] && m == m[..e] + m[e..];
    Regroup(u[..e], u[e..], v);
  }

  /** What follows the same start in the secret and in the marker. */
  lemma SameStart(u: Bytes, v: Bytes, t: Bytes, m: Bytes, e: int, r: int)
    requires Shaped(m) && SelfOverlap(u + v) && InMarker(t, m, r, e) && 0 < e <= |u| && u[..e] == m[..e]
    ensures Replace(u[e..], t, m) + Replace(v, t, m) != Replace(m[e..], t, m)
  {
    if Replace(u[e..], t, m) + Replace(v, t, m) == Replace(m[e..], t, m) {
      Unmixed(m[e..], u[e..], v, t, m, e, r);
      SameFront(u, v, m, e);
      ShapedIsBorderless(m);
    }
  }

  lemma SameHitInside(w: Bytes, u: Bytes, v: Bytes, t: Bytes, m: Bytes, r: int, e: int, q: int)
    requires Swapped(w, u, v, t, m) && InMarker(t, m, r, e) && e == r + |t|
    requires q == |w| + r && OccursAt(w + u, t, q) && (w + u)[..q] == w + m[..r]
    ensures Replace((w + u)[q + |t|..], t, m) + Replace(v, t, m) != Replace(m[e..], t, m)
  {
    HitSlices(w, u, t, m, r, e, q);
    SameStart(u, v, t, m, e, r);
  }

  lemma SwapInsideSecond(w: Bytes, u: Bytes, v: Bytes, t: Bytes, m: Bytes, r: int, e: int, q: int, rest: Bytes)
    requires Swapped(w, u, v, t, m) && InMarker(t, m, r, e) && e == r + |t| && HitSecond(w + u, v, t, m, q, rest)
    ensures (w + m[..r]) + m + Replace(m[e..], t, m) != ((w + u) + v[..q]) + m + rest
  {
    InsideIsShort(t, m, r, e);
    NoMarkerInOpen(w, m, r, |(w + u) + v[..q]|);
    var a, c, tail := w + m[..r], (w + u) + v[..q], Replace(m[e..], t, m);
    ShapedTail(m, e);
    var found, p := SplitFirst(m[e..], t, m);
    if found {
      InMarkerLater(t, m, r, e, p);
      NoMarkerAcross(w + u, v, q, t, m, r, e + p, |a|);
    } else {
      MarkerLast(a, tail, c, rest, m);
      if a + m + tail == c + m + rest {
        TwoMarkers(c, rest, a, tail, m);
      }
    }
    if a + m + tail == c + m + rest {
      TwoMarkers(a, tail, c, rest, m);
      TwoMarkers(c, rest, a, tail, m);
      SameHitLater(w, u, v, t, m, r, e, q);
    }
  }

  lemma SameBehind(u: Bytes, v: Bytes, t: Bytes, m: Bytes, r: int, e: int, q: int)
    requires OccursAt(v, t, q) && OccursAt(m, t, r) && e == r + |t|
    requires m[..r] == u + v[..q] && m[e..] == v[q + |t|..]
    ensures u + v == m
  {
    SplitsAt(v, t, q);
    SplitsAt(m, t, r);
    GlueSecond(u, v, v[..q], t, v[q + |t|..]);
  }

  lemma SameHitLater(w: Bytes, u: Bytes, v: Bytes, t: Bytes, m: Bytes, r: int, e: int, q: int)
    requires Swapped(w, u, v, t, m) && InMarker(t, m, r, e) && e == r + |t| && OccursAt(v, t, q)
    requires w + m[..r] == (w + u) + v[..q]
    ensures Replace(v[q + |t|..], t, m) != Replace(m[e..], t, m)
  {
    var x := v[q + |t|..];
    Regroup(w, u, v[..q]);
    Cancel(w, m[..r], u + v[..q]);
    if Replace(x, t, m) == Replace(m[e..], t, m) {
      assert [] + Replace(x, t, m) == Replace(x, t, m) && [] + x == x;
      Unmixed(m[e..], [], x, t, m, e, r);
      SameBehind(u, v, t, m, r, e, q);
      ShapedIsBorderless(m);
    }
  }

  lemma SwapInsideNever(w: Bytes, u: Bytes, v: Bytes, t: Bytes, m: Bytes, r: int, e: int)
    requires Swapped(w, u, v, t, m) && InMarker(t, m, r, e) && e == r + |t|
    ensures (w + m[..r]) + m + Replace(m[e..], t, m) != (w + u) + v
  {
    var x := m[..r] + m + Replace(m[e..], t, m);
    InsideIsShort(t, m, r, e);
    RewrittenIsBorderless(t, m, r, e);
    GlueSecond(w, x, m[..r], m, Replace(m[e..], t, m));
    Regroup(w, u, v);
    if w + x == w + (u + v) {
      Cancel(w, x, u + v);
    }
  }

  lemma FrontBytes(r: int, m: Bytes, tail: Bytes, j: int)
    requires Shaped(m) && 0 <= r < 10 && 0 <= j < r + 10
    ensures (m[..r] + m + tail)[j] == if j < r then m[j] else m[j - r]
  {
  }

  /** In the marker with its first `t` replaced, an opening bracket past the front
      begins a marker. */
  lemma OpensLater(t: Bytes, m: Bytes, r: int, e: int, j: int)
    requires Shaped(m) && InMarker(t, m, r, e)
    requires var x := m[..r] + m + Replace(m[e..], t, m); 0 < j < |x| && x[j] == OPEN
    ensures OccursAt(m[..r] + m + Replace(m[e..], t, m), m, j)
  {
    var tail := Replace(m[e..], t, m);
    var x := m[..r] + m + tail;
    ShapedTail(m, e);
    OccursBetween(m[..r], m, tail);
    if j >= r + 10 {
      TailOpens(m[..r] + m, m[e..], t, m, j);
    } else {
      FrontBytes(r, m, tail, j);
    }
  }

  lemma TailOpens(a: Bytes, x: Bytes, t: Bytes, m: Bytes, j: int)
    requires Shaped(m) && t != [] && Plain(x) && |a| <= j < |a + Replace(x, t, m)|
    requires (a + Replace(x, t, m))[j] == OPEN
    ensures OccursAt(a + Replace(x, t, m), m, j)
  {
    OpensAreMarkers(x, t, m, j - |a|);
    OccursShifted(a, Replace(x, t, m), m, j - |a|);
  }

  lemma NoOpenLater(t: Bytes, m: Bytes, e: int, j: int)
    requires Shaped(m) && InMarker(t, m, 0, e)
    requires 0 < j < |m[..0] + m + Replace(m[e..], t, m)|
    ensures (m[..0] + m + Replace(m[e..], t, m))[j] != OPEN
  {
    ShapedTail(m, e);
    assert t[0] == m[0];
    PlainHasNot(m[e..], t);
    ReplaceNothing(m[e..], t, m);
    NotOpenAfter(m[..0], m[e..], m, j);
  }

  lemma RewrittenIsBorderless(t: Bytes, m: Bytes, r: int, e: int)
    requires Shaped(m) && InMarker(t, m, r, e) && e == r + |t|
    ensures !SelfOverlap(m[..r] + m + Replace(m[e..], t, m))
  {
    var tail := Replace(m[e..], t, m);
    var x := m[..r] + m + tail;
    FrontBytes(r, m, tail, 0);
    FrontBytes(r, m, tail, r);
    forall k | 0 < k < |x|
      ensures !Border(x, x, k)
    {
      var j := |x| - k;
      BorderBytes(x, k);
      if r == 0 {
        NoOpenLater(t, m, e, j);
      } else if x[j] == OPEN {
        OpensLater(t, m, r, e, j);
        ByteAt(x, m, j, r);
      }
    }
  }

  lemma BorderBytes(x: Bytes, k: int)
    requires 0 < k < |x|
    ensures Border(x, x, k) ==> forall i :: 0 <= i < k ==> x[|x| - k + i] == x[i]
  {
    if Border(x, x, k) {
      forall i | 0 <= i < k
        ensures x[|x| - k + i] == x[i]
      {
        assert x[|x| - k..][i] == x[..k][i];
      }
    }
  }

  lemma SwapBefore(w: Bytes, u: Bytes, v: Bytes, t: Bytes, m: Bytes, p: int)
    requires Swapped(w, u, v, t, m) && OccursAt(w + m, t, p) && 0 <= p < |w| && p + |t| <= |w + m|
    ensures (w + m)[..p] + m + Replace((w + m)[p + |t|..], t, m) != Replace(w + u, t, m) + Replace(v, t, m)
  {
    var i := AcrossHolds(w, t, m, p);
    HitInFirst(w, m, p);
    SwapAcross(w, u, v, t, m, p, i);
  }

  lemma SwapBehind(w: Bytes, u: Bytes, v: Bytes, t: Bytes, m: Bytes, p: int, whole: Bytes)
    requires Swapped(w, u, v, t, m) && t != [] && OccursAt(w + m, t, p) && p >= |w|
    requires whole == (w + m)[..p] + m + Replace((w + m)[p + |t|..], t, m)
    ensures whole != Replace(w + u, t, m) + Replace(v, t, m)
  {
    InsideHolds(w, t, m, p);
    SwapInside(w, u, v, t, m, p - |w|, p - |w| + |t|);
  }

  /** A marker in place of the whole secret is not what its parts come to. */
  lemma SwapDiffers(w: Bytes, u: Bytes, v: Bytes, t: Bytes, m: Bytes)
    requires Swapped(w, u, v, t, m) && t != []
    ensures Replace(w + m, t, m) != Replace(w + u, t, m) + Replace(v, t, m)
  {
    var found, p := SplitFirst(w + m, t, m);
    if !found {
      SwapNone(w, u, v, t, m);
    } else if p < |w| {
      SwapBefore(w, u, v, t, m, p);
    } else {
      SwapBehind(w, u, v, t, m, p, Replace(w + m, t, m));
    }
  }

  lemma HitInFirst(b: Bytes, c: Bytes, p: int)
    requires 0 <= p <= |b|
    ensures (b + c)[..p] == b[..p]
  {
  }

  lemma InsideHolds(w: Bytes, t: Bytes, m: Bytes, p: int)
    requires Shaped(m) && t != [] && OccursAt(w + m, t, p) && p >= |w|
    ensures var r := p - |w|;
            && InMarker(t, m, r, r + |t|) && (w + m)[..p] == w + m[..r]
            && (w + m)[p + |t|..] == m[r + |t|..]
  {
    OccursShifted(w, m, t, p - |w|);
  }
}
