/** The longer secret: a password that leads into it, and its overlap with itself. */
module SecretShows {
  import opened Redaction
  import opened CopyRedacted
  import opened ReplaceFacts
  import opened OutputShows
  import opened MarkerShows

  // ------------------------------------------------- a password that leads in

  lemma OverlapsAreSelf(x: Bytes, t: Bytes, i: int)
    requires OccursAt(x, t, i) && !SelfOverlap(t)
    ensures forall j :: i < j < i + |t| ==> !OccursAt(x, t, j)
    ensures forall j :: j < i < j + |t| ==> !OccursAt(x, t, j)
  {
    forall j | i < j < i + |t|
      ensures !OccursAt(x, t, j)
    {
      if OccursAt(x, t, j) {
        OverlapIsSelf(x, t, i, j);
      }
    }
    forall j | j < i < j + |t|
      ensures !OccursAt(x, t, j)
    {
      if OccursAt(x, t, j) {
        OverlapIsSelf(x, t, j, i);
      }
    }
  }

  /** The first read is as long as `s` and starts with `t`: exactly `t` is written. */
  lemma LeadsCut(s: Bytes, t: Bytes, k: int)
    requires 0 < |t| <= |s| && t != s && Border(t, s, k) && !SelfOverlap(s) && !SelfOverlap(t)
    ensures |t + s[k..]| > |s| && Cut((t + s[k..])[..|s|], [s, t]) == |t|
  {
    KeepIs(s, t);
    var x := t + s[k..];
    OverlapOccurs(t, s, k, |s|);
    var y, q := x[..|s|], |t| - k;
    assert x == y + x[|s|..];
    assert OccursAt(y, t, 0);
    OverlapsAreSelf(y, t, 0);
    OverlapsAreSelf(x, s, q);
    forall r, p | r in [s, t] && OccursAt(y, r, p)
      ensures !(p < |t| < p + |r|)
    {
      OccursInPrefix(y, x[|s|..], r, p);
    }
    assert Clean(y, [s, t], |t|);
    assert FirstCut(y, [s, t]) == 1;
    forall c | 1 <= c < |t|
      ensures !Clean(y, [s, t], c)
    {
      assert !Clear(y, t, c) && t in [s, t];
    }
  }

  /** What the two ways write: the secret's rest after a marker, or a marker after
      the password's start. */
  lemma LeadsOut(s: Bytes, t: Bytes, k: int, m: Bytes)
    requires 0 < |t| <= |s| && t != s && Border(t, s, k) && !SelfOverlap(s)
    ensures Out(t + s[k..], s, t, m) == Replace(t[..|t| - k] + m, t, m)
    ensures Out(t, s, t, m) == m && Out(s[k..], s, t, m) == Replace(s[k..], t, m)
  {
    assert t == t[..|t| - k] + s[..k] && s == s[..k] + s[k..];
    Regroup(t[..|t| - k], s[..k], s[k..]);
    OutBefore(t[..|t| - k], s, t, m);
    ReplaceShort(t, s, m);
    assert t + [] == t && m + [] == m;
    ReplaceWhole(t, [], m);
    ReplaceShort(s[k..], s, m);
  }

  lemma LaterDiffers(m: Bytes, a: Bytes, b: Bytes, c: Bytes)
    requires Shaped(m) && 0 < |a| < 10
    ensures m + c != a + m + b
  {
    OccursBetween([], m, c);
    OccursBetween(a, m, b);
    assert [] + m + c == m + c;
    MarkersApart(m + c, m, 0, |a|);
  }

  lemma PrefixEnds(v: Bytes, r: Bytes, t: Bytes, m: Bytes)
    requires |m| == 10 <= |v| && v < t && m + r == v + m
    ensures EndsMarker(t, m)
  {
    assert t[..10] == v[..10] == (v + m)[..10] == (m + r)[..10] == m;
    assert m[|m| - 10..] == m;
    assert EndsWith(m, t[..10]);
  }

  /** A marker before `z` is not a marker after a start of the password. */
  lemma NoHitDiffers(v: Bytes, z: Bytes, t: Bytes, m: Bytes)
    requires Shaped(m) && [] < v < t && !EndsMarker(t, m)
    ensures m + Replace(z, t, m) != v + m
  {
    var r := Replace(z, t, m);
    if |v| < 10 {
      LaterDiffers(m, v, [], r);
      assert v + m + [] == v + m;
    } else if m + r == v + m {
      PrefixEnds(v, r, t, m);
    }
  }

  /** A hit across the marker's start or inside it. */
  lemma HitDiffers(s: Bytes, t: Bytes, k: int, m: Bytes, x: Bytes, p: int)
    requires Shaped(m) && 0 < |t| <= |s| && t != s && Border(t, s, k) && s != m && x == t[..|t| - k] + m
    requires OccursAt(x, t, p) && forall q :: 0 <= q < p ==> !OccursAt(x, t, q)
    ensures m + Replace(s[k..], t, m) != Replace(x, t, m)
  {
    ReplaceAt(x, t, m, p);
    if p > 0 {
      LaterDiffers(m, x[..p], Replace(x[p + |t|..], t, m), Replace(s[k..], t, m));
    } else {
      FrontHitDiffers(s, t, k, m);
      FrontDiffers(m, Replace(s[k..], t, m), Replace(x[0 + |t|..], t, m), x[..0]);
    }
  }

  lemma FrontDiffers(m: Bytes, a: Bytes, b: Bytes, nothing: Bytes)
    requires a != b && nothing == []
    ensures m + a != nothing + m + b
  {
    assert nothing + m == m && (m + a)[|m|..] == a && (m + b)[|m|..] == b;
  }

  lemma FrontHit(s: Bytes, t: Bytes, k: int, m: Bytes)
    requires Shaped(m) && 0 < |t| <= |s| && t != s && Border(t, s, k)
    requires OccursAt(t[..|t| - k] + m, t, 0)
    ensures k <= 10 && s[..k] == m[..k] && OPEN in t
    ensures (t[..|t| - k] + m)[|t|..] == m[k..]
  {
    var q := |t| - k;
    var x := t[..q] + m;
    assert x[..|t|] == t;
    assert t[q..] == x[q..|t|] == m[..k] == s[..k];
    assert t[q] == t[q..][0] == m[..k][0];
  }

  lemma FrontHitDiffers(s: Bytes, t: Bytes, k: int, m: Bytes)
    requires Shaped(m) && 0 < |t| <= |s| && t != s && Border(t, s, k) && s != m
    requires OccursAt(t[..|t| - k] + m, t, 0)
    ensures Replace(s[k..], t, m) != Replace((t[..|t| - k] + m)[|t|..], t, m)
  {
    FrontHit(s, t, k, m);
    ShapedTail(m, k);
    PlainHasNot(m[k..], t);
    ReplaceNothing(m[k..], t, m);
    var found, p := SplitFirst(s[k..], t, m);
    assert s == s[..k] + s[k..] && m == m[..k] + m[k..];
  }

  lemma LeadsDiffers(s: Bytes, t: Bytes, k: int, m: Bytes)
    requires Shaped(m) && 0 < |t| <= |s| && t != s && Border(t, s, k) && s != m
    requires t == m || !EndsMarker(t, m)
    ensures m + Replace(s[k..], t, m) != Replace(t[..|t| - k] + m, t, m)
  {
    var v := t[..|t| - k];
    if t == m {
      ReplaceItself(s[k..], m);
      ReplaceItself(v + m, m);
      LaterDiffers(m, v, [], s[k..]);
      assert v + m + [] == v + m;
    } else {
      var found, p := SplitFirst(v + m, t, m);
      if found {
        HitDiffers(s, t, k, m, v + m, p);
      } else {
        NoHitDiffers(v, s[k..], t, m);
      }
    }
  }

  lemma LeadsSlices(s: Bytes, t: Bytes, k: int)
    requires 0 < |t| <= |s| && t != s && 0 < k < |t| && |s| < |t + s[k..]|
    ensures var x := t + s[k..];
            && x[..|s|] + x[|s|..] == x && x[..|s|][..|t|] == t && x[..|s|][|t|..] + x[|s|..] == s[k..]
            && x[..|s|] != [] && x[|s|..] != []
  {
  }

  /** The end of the password begins the secret. */
  lemma LeadsShows(s: Bytes, t: Bytes, m: Bytes, limit: nat)
    requires 0 < |t| <= |s| && t != s
    requires Leads(t, s) && !SelfOverlap(s) && !SelfOverlap(t) && Shaped(m) && m == Marker() != s
    requires t == m || !EndsMarker(t, m)
    requires limit >= 4 * |s|
    ensures !SplitsUpTo([s, t], limit)
  {
    var k :| 0 < k < |t| && Border(t, s, k);
    var x := t + s[k..];
    LeadsOut(s, t, k, m);
    LeadsDiffers(s, t, k, m);
    LeadsCut(s, t, k);
    LeadsSlices(s, t, k);
    CutShows(x[..|s|], x[|s|..], t, s[k..], s, t, m, limit);
  }
}
