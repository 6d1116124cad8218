/** Passwords and secrets that meet each other or the marker, and the streams in
    which that shows. */
module MarkerShows {
  import opened Redaction
  import opened CopyRedacted
  import opened ReplaceFacts
  import opened OutputShows

  /** A proper prefix of `t` ends the marker. */
  predicate EndsMarker(t: Bytes, m: Bytes) {
    exists k :: 0 < k < |t| && EndsWith(m, t[..k])
  }

  /** A proper suffix of `t` begins the marker. */
  predicate BeginsMarker(t: Bytes, m: Bytes) {
    exists j :: 0 < j < |t| && StartsWith(m, t[j..])
  }

  /** A proper suffix of `t` begins `s`. */
  predicate Leads(t: Bytes, s: Bytes) {
    exists k :: 0 < k < |t| && Border(t, s, k)
  }

  function Out(x: Bytes, s: Bytes, t: Bytes, m: Bytes): Bytes
    requires s != [] && t != []
  {
    Replace(Replace(x, s, m), t, m)
  }

  lemma CutSplitsOut(x: Bytes, y: Bytes, s: Bytes, t: Bytes, m: Bytes)
    requires s != [] && t != [] && ReadsSplit(x, y, [s, t]) && m == Marker()
    ensures var c := Cut(x, [s, t]); Out(x + y, s, t, m) == Out(x[..c], s, t, m) + Out(x[c..] + y, s, t, m)
  {
    var c := Cut(x, [s, t]);
    ReplaceTwo(x + y, s, t);
    ReplaceTwo(x[..c], s, t);
    ReplaceTwo(x[c..] + y, s, t);
  }

  /** A first read that writes `a` and keeps the start of `b` shows when the whole
      is not replaced in these two parts. */
  lemma CutShows(x: Bytes, y: Bytes, a: Bytes, b: Bytes, s: Bytes, t: Bytes, m: Bytes, limit: nat)
    requires s != [] && t != [] && x != [] && y != [] && |x| <= limit && |y| <= limit && m == Marker()
    requires Cut(x, [s, t]) == |a| <= |x| && x[..|a|] == a && x[|a|..] + y == b
    requires Out(x + y, s, t, m) != Out(a, s, t, m) + Out(b, s, t, m)
    ensures !SplitsUpTo([s, t], limit)
  {
    if SplitsUpTo([s, t], limit) {
      CutSplitsOut(x, y, s, t, m);
    }
  }

  lemma FullCutShows(x: Bytes, y: Bytes, s: Bytes, t: Bytes, m: Bytes, limit: nat)
    requires s != [] && t != [] && x != [] && y != [] && |x| <= limit && |y| <= limit && m == Marker()
    requires Cut(x, [s, t]) == |x|
    requires Out(x + y, s, t, m) != Out(x, s, t, m) + Out(y, s, t, m)
    ensures !SplitsUpTo([s, t], limit)
  {
    assert x[..|x|] == x && x[|x|..] + y == y;
    CutShows(x, y, x, y, s, t, m, limit);
  }

  lemma KeepIs(s: Bytes, t: Bytes)
    requires 0 < |t| <= |s| && t != s
    ensures Keep([s, t]) == |s| - 1
  {
    KeepOfTwo(s, t);
  }

  /** A read that ends with the longer secret is written as a whole. */
  lemma EndsWithSecretCut(v: Bytes, s: Bytes, t: Bytes)
    requires 0 < |t| <= |s| && t != s
    ensures v + s != [] && Cut(v + s, [s, t]) == |v + s|
  {
    KeepIs(s, t);
    var x, c := v + s, Cut(v + s, [s, t]);
    assert x[|v|..|v| + |s|] == s;
    assert OccursAt(x, s, |v|);
    assert c < |x| ==> !Clear(x, s, c);
    assert s in [s, t];
  }

  lemma OverlapIsSelf(x: Bytes, s: Bytes, i: int, j: int)
    requires OccursAt(x, s, i) && OccursAt(x, s, j) && i < j < i + |s|
    ensures SelfOverlap(s)
  {
    var k := i + |s| - j;
    assert s[|s| - k..] == x[i..i + |s|][|s| - k..] == x[j..i + |s|];
    assert s[..k] == x[j..j + |s|][..k] == x[j..i + |s|];
    assert Border(s, s, k);
  }

  /** The longer secret between two short pieces is the one that is replaced. */
  lemma ReplaceBetween(v: Bytes, s: Bytes, w: Bytes, m: Bytes)
    requires |v| < |s| && |w| < |s| && !SelfOverlap(s)
    ensures Replace(v + s + w, s, m) == v + m + w
  {
    var x := v + s + w;
    assert x[|v|..|v| + |s|] == s;
    forall p | 0 <= p < |v|
      ensures !OccursAt(x, s, p)
    {
      if OccursAt(x, s, p) {
        OverlapIsSelf(x, s, p, |v|);
      }
    }
    ReplaceFirst(v, s, w, m);
    ReplaceShort(w, s, m);
  }

  lemma OutShort(x: Bytes, s: Bytes, t: Bytes, m: Bytes)
    requires |x| < |t| <= |s|
    ensures Out(x, s, t, m) == x
  {
    ReplaceShort(x, s, m);
    ReplaceShort(x, t, m);
  }

  lemma OutBetween(v: Bytes, s: Bytes, w: Bytes, t: Bytes, m: Bytes)
    requires |v| < |s| && |w| < |s| && !SelfOverlap(s) && t != []
    ensures Out(v + s + w, s, t, m) == Replace(v + m + w, t, m)
  {
    ReplaceBetween(v, s, w, m);
  }

  lemma OutBefore(v: Bytes, s: Bytes, t: Bytes, m: Bytes)
    requires |v| < |s| && !SelfOverlap(s) && t != []
    ensures Out(v + s, s, t, m) == Replace(v + m, t, m)
  {
    assert v + s + [] == v + s && v + m + [] == v + m;
    OutBetween(v, s, [], t, m);
  }

  lemma ReplaceWhole(s: Bytes, h: Bytes, m: Bytes)
    requires s != []
    ensures Replace(s + h, s, m) == m + Replace(h, s, m)
  {
    assert (s + h)[..|s|] == s && (s + h)[|s|..] == h;
  }

  lemma OutAlone(s: Bytes, t: Bytes, m: Bytes)
    requires s != [] && t != []
    ensures Out(s, s, t, m) == Replace(m, t, m)
  {
    assert s + [] == s && m + [] == m;
    ReplaceWhole(s, [], m);
  }

  // ------------------------------------------ a prefix that ends the marker

  lemma EndsMarkerOutside(t: Bytes, k: int, x: Bytes, p: int, m: Bytes)
    requires Shaped(m) && 0 < k < |t| && EndsWith(m, t[..k]) && OccursAt(x, t, p) && StartsWith(x, m)
    ensures p + k >= 10
  {
    assert m[10 - k..][k - 1] == m[9];
    assert t[k - 1] == t[..k][k - 1] == CLOSE;
    ByteAt(x, t, p, k - 1);
    ByteAt(x, m, 0, if p + k < 10 then p + k - 1 else 0);
  }

  lemma EndsMarkerApart(t: Bytes, k: int, m: Bytes)
    requires Shaped(m) && 0 < k < |t| && EndsWith(m, t[..k])
    ensures Replace(m, t, m) == m
  {
    assert m[..10] == m;
    forall p
      ensures !OccursAt(m, t, p)
    {
      if OccursAt(m, t, p) {
        EndsMarkerOutside(t, k, m, p, m);
      }
    }
    ReplaceNothing(m, t, m);
  }

  lemma MeetsAt(m: Bytes, t: Bytes, k: int)
    requires 0 < k < |t| && EndsWith(m, t[..k])
    ensures OccursAt(m + t[k..], t, |m| - k)
  {
    var x, p := m + t[k..], |m| - k;
    forall i | 0 <= i < |t|
      ensures x[p..p + |t|][i] == t[i]
    {
      assert i < k ==> m[p..][i] == t[..k][i];
    }
  }

  lemma EndsMarkerMeets(t: Bytes, k: int, m: Bytes)
    requires Shaped(m) && 0 < k < |t| && EndsWith(m, t[..k])
    ensures Replace(m + t[k..], t, m) == m[..10 - k] + m
  {
    var x, p := m + t[k..], 10 - k;
    MeetsAt(m, t, k);
    assert x[..10] == m && x[..p] == m[..p];
    forall q | 0 <= q < p
      ensures !OccursAt(x, t, q)
    {
      if OccursAt(x, t, q) {
        EndsMarkerOutside(t, k, x, q, m);
      }
    }
    ReplaceLast(x, t, m, p);
  }

  lemma EndsMarkerOut(s: Bytes, t: Bytes, k: int, m: Bytes)
    requires Shaped(m) && 0 < |t| <= |s| && t != s && 0 < k < |t| && EndsWith(m, t[..k])
    ensures Out(s + t[k..], s, t, m) == m[..10 - k] + m
    ensures Out(s, s, t, m) == m && Out(t[k..], s, t, m) == t[k..]
  {
    ReplaceWhole(s, t[k..], m);
    OutShort(t[k..], s, t, m);
    ReplaceShort(t[k..], s, m);
    EndsMarkerMeets(t, k, m);
    OutAlone(s, t, m);
    EndsMarkerApart(t, k, m);
  }

  lemma NotShifted(v: Bytes, k: int, m: Bytes)
    requires Shaped(m) && v != [] && 0 < k <= 10
    ensures m + v != m[..10 - k] + m
  {
    var g := m[..10 - k];
    OccursBetween([], m, v);
    OccursBetween(g, m, []);
    assert [] + m + v == m + v && g + m + [] == g + m;
    if k < 10 {
      MarkersApart(m + v, m, 0, 10 - k);
    }
  }

  /** `s` and then the rest of `t`, in one read or in two. */
  lemma EndsMarkerShows(s: Bytes, t: Bytes, m: Bytes, limit: nat)
    requires 0 < |t| <= |s| && t != s && EndsMarker(t, m) && Shaped(m) && m == Marker()
    requires limit >= 4 * |s|
    ensures !SplitsUpTo([s, t], limit)
  {
    var k :| 0 < k < |t| && EndsWith(m, t[..k]);
    EndsMarkerOut(s, t, k, m);
    assert [] + s == s;
    EndsWithSecretCut([], s, t);
    NotShifted(t[k..], k, m);
    FullCutShows(s, t[k..], s, t, m, limit);
  }

  // ------------------------------------------ a marker inside the password

  lemma InnerMarkerOut(s: Bytes, t: Bytes, v: Bytes, w: Bytes, m: Bytes)
    requires |t| <= |s| && t != s && !SelfOverlap(s) && t == v + m + w && v != [] && w != [] && m != []
    ensures Out(v + s, s, t, m) == v + m && Out(w, s, t, m) == w && Out(v + s + w, s, t, m) == m
  {
    OutBefore(v, s, t, m);
    ReplaceShort(v + m, t, m);
    OutShort(w, s, t, m);
    OutBetween(v, s, w, t, m);
    assert t + [] == t && m + [] == m;
    ReplaceWhole(t, [], m);
  }

  /** The password holds the marker: `s` in its place becomes the password. */
  lemma InnerMarkerShows(s: Bytes, t: Bytes, v: Bytes, w: Bytes, m: Bytes, limit: nat)
    requires |t| <= |s| && t != s && !SelfOverlap(s) && t == v + m + w && v != [] && w != [] && m == Marker() != []
    requires limit >= 4 * |s|
    ensures !SplitsUpTo([s, t], limit)
  {
    InnerMarkerOut(s, t, v, w, m);
    EndsWithSecretCut(v, s, t);
    FullCutShows(v + s, w, s, t, m, limit);
  }

  // -------------------------------------- a suffix that begins the marker

  /** No opening bracket, and so no text that has one. */
  predicate Plain(x: Bytes) {
    OPEN !in x
  }

  lemma PlainHasNot(x: Bytes, t: Bytes)
    requires Plain(x) && OPEN in t
    ensures forall p :: !OccursAt(x, t, p)
  {
    var j :| 0 <= j < |t| && t[j] == OPEN;
    forall p
      ensures !OccursAt(x, t, p)
    {
      ByteAt(x, t, p, j);
    }
  }

  lemma ShapedTail(m: Bytes, i: nat)
    requires Shaped(m) && 0 < i <= 10
    ensures |m[i..]| == 10 - i && Plain(m[i..])
  {
  }

  /** `t` ends with the first `i` bytes of the marker. */
  predicate Begins(t: Bytes, i: nat, m: Bytes) {
    0 < i <= 10 == |m| && i < |t| && t[|t| - i..] == m[..i]
  }

  lemma BeginsSomewhere(t: Bytes, m: Bytes) returns (i: nat)
    requires Shaped(m) && BeginsMarker(t, m)
    ensures Begins(t, i, m)
  {
    var j :| 0 < j < |t| && StartsWith(m, t[j..]);
    i := |t| - j;
  }

  lemma BeginsOpens(t: Bytes, i: nat, m: Bytes)
    requires Shaped(m) && Begins(t, i, m)
    ensures t[|t| - i] == OPEN && OPEN in t
    ensures forall p :: !OccursAt(m, t, p)
  {
    assert t[|t| - i..][0] == m[..i][0];
    forall p
      ensures !OccursAt(m, t, p)
    {
      ByteAt(m, t, p, |t| - i);
    }
  }

  /** Before the marker, the rest of `t` makes it whole. */
  lemma BeginsMeets(t: Bytes, i: nat, m: Bytes)
    requires Shaped(m) && Begins(t, i, m)
    ensures Replace(t[..|t| - i] + m, t, m) == m + m[i..]
  {
    var v, h := t[..|t| - i], m[i..];
    assert t == v + m[..i] && m == m[..i] + h;
    Regroup(v, m[..i], h);
    ReplaceWhole(t, h, m);
    BeginsOpens(t, i, m);
    ShapedTail(m, i);
    PlainHasNot(h, t);
    ReplaceNothing(h, t, m);
  }

  lemma BeforeMarkerDiffers(v: Bytes, i: nat, m: Bytes)
    requires Shaped(m) && 0 < i <= 10 && v != []
    ensures v + m != m + m[i..]
  {
    OccursBetween([], m, m[i..]);
    OccursBetween(v, m, []);
    assert [] + m + m[i..] == m + m[i..] && v + m + [] == v + m;
    MarkersApart(v + m, m, 0, |v|);
  }

  /** The first read ends inside `s`, so that only the start of `t` is written. */
  lemma BeforeSecretCut(v: Bytes, s: Bytes, t: Bytes)
    requires 0 < |t| <= |s| && t != s && !SelfOverlap(s) && !Leads(t, s)
    ensures Cut(v + s[..|s| - 1], [s, t]) == |v|
  {
    KeepIs(s, t);
    var x, n := v + s[..|s| - 1], |v|;
    forall r, p | r in [s, t] && OccursAt(x, r, p)
      ensures !(p < n < p + |r|)
    {
      if p < n < p + |r| {
        assert v + s == x + s[|s| - 1..];
        OccursInPrefix(x, s[|s| - 1..], r, p);
        SecretAcross(v, s, t, r, p);
      }
    }
    assert Clean(x, [s, t], n);
    assert FirstCut(x, [s, t]) == n;
  }

  lemma SecretAcross(v: Bytes, s: Bytes, t: Bytes, r: Bytes, p: int)
    requires 0 < |t| <= |s| && t != s && r in [s, t] && OccursAt(v + s, r, p) && p < |v| < p + |r| < |v| + |s|
    ensures SelfOverlap(s) || Leads(t, s)
  {
    var x := v + s;
    assert x[|v|..|v| + |s|] == s;
    if r == s {
      OverlapIsSelf(x, s, p, |v|);
    } else {
      var k := p + |t| - |v|;
      assert t[|t| - k..] == x[p..p + |t|][|t| - k..] == x[|v|..p + |t|] == s[..k];
      assert Border(t, s, k);
    }
  }

  lemma BeginsMarkerOut(s: Bytes, t: Bytes, i: nat, m: Bytes)
    requires Shaped(m) && 0 < |t| <= |s| && t != s && Begins(t, i, m) && !SelfOverlap(s)
    ensures var v := t[..|t| - i];
            && Out(v + s, s, t, m) == m + m[i..]
            && Out(v, s, t, m) + Out(s, s, t, m) == v + m != m + m[i..]
  {
    var v := t[..|t| - i];
    OutShort(v, s, t, m);
    OutAlone(s, t, m);
    BeginsOpens(t, i, m);
    ReplaceNothing(m, t, m);
    OutBefore(v, s, t, m);
    BeginsMeets(t, i, m);
    BeforeMarkerDiffers(v, i, m);
  }

  lemma BeforeSecretSlices(v: Bytes, s: Bytes)
    requires s != []
    ensures var x, y := v + s[..|s| - 1], s[|s| - 1..];
            x + y == v + s && x[..|v|] == v && x[|v|..] + y == s && y != []
  {
    assert s[..|s| - 1] + s[|s| - 1..] == s;
    Regroup(v, s[..|s| - 1], s[|s| - 1..]);
  }

  lemma BeginsMarkerShows(s: Bytes, t: Bytes, m: Bytes, limit: nat)
    requires 0 < |t| <= |s| && t != s
    requires BeginsMarker(t, m) && !SelfOverlap(s) && !Leads(t, s) && Shaped(m) && m == Marker()
    requires limit >= 4 * |s|
    ensures !SplitsUpTo([s, t], limit)
  {
    var i := BeginsSomewhere(t, m);
    var v := t[..|t| - i];
    BeginsMarkerOut(s, t, i, m);
    BeforeSecretCut(v, s, t);
    BeforeSecretSlices(v, s);
    CutShows(v + s[..|s| - 1], s[|s| - 1..], v, s, s, t, m, limit);
  }
}
