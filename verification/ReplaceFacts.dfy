/** What replacement does to lengths, positions and markers, whatever the text. */
module ReplaceFacts {
  import opened Redaction

  /** b'[' and b']' */
  const OPEN: Byte := 0x5b
  const CLOSE: Byte := 0x5d

  /** What matters of the marker: one opening bracket, one closing bracket. */
  predicate Shaped(m: Bytes) {
    && |m| == 10 && m[0] == OPEN && m[9] == CLOSE
    && (forall i :: 0 < i < 10 ==> m[i] != OPEN)
    && (forall i :: 0 <= i < 9 ==> m[i] != CLOSE)
  }

  lemma MarkerShaped()
    ensures Shaped(Marker())
  {
  }

  lemma ByteAt(x: Bytes, t: Bytes, p: int, i: int)
    requires 0 <= i < |t|
    ensures OccursAt(x, t, p) ==> p + i < |x| && x[p + i] == t[i]
  {
    if OccursAt(x, t, p) {
      assert x[p..p + |t|][i] == x[p + i];
    }
  }

  /** Markers do not overlap. */
  lemma MarkersApart(x: Bytes, m: Bytes, i: int, j: int)
    requires Shaped(m) && i < j
    ensures OccursAt(x, m, i) && OccursAt(x, m, j) ==> j >= i + 10
  {
    ByteAt(x, m, j, 0);
    ByteAt(x, m, i, if j < i + 10 then j - i else 0);
  }

  lemma OccursBetween(a: Bytes, t: Bytes, b: Bytes)
    ensures OccursAt(a + t + b, t, |a|)
  {
    assert (a + t + b)[|a|..|a| + |t|] == t;
  }

  // ------------------------------------------------------------- replacement

  lemma {:induction false} ReplaceNothing(x: Bytes, t: Bytes, m: Bytes)
    requires t != [] && forall p :: !OccursAt(x, t, p)
    ensures Replace(x, t, m) == x
    decreases |x|
  {
    if |x| >= |t| {
      assert !OccursAt(x, t, 0);
      forall p
        ensures !OccursAt(x[1..], t, p)
      {
        assert x == x[..1] + x[1..];
        if p >= 0 {
          OccursShifted(x[..1], x[1..], t, p);
        }
      }
      ReplaceNothing(x[1..], t, m);
    }
  }

  lemma ReplaceShort(x: Bytes, t: Bytes, m: Bytes)
    requires |x| <= |t| && x != t && t != []
    ensures Replace(x, t, m) == x && forall p :: !OccursAt(x, t, p)
  {
    if |x| == |t| {
      assert x[..|t|] == x;
      assert forall p :: OccursAt(x, t, p) ==> p == 0;
      ReplaceNothing(x, t, m);
    }
  }

  lemma {:induction false} ReplaceItself(x: Bytes, m: Bytes)
    requires m != []
    ensures Replace(x, m, m) == x
    decreases |x|
  {
    if |x| >= |m| {
      if x[..|m|] == m {
        ReplaceItself(x[|m|..], m);
        assert x == x[..|m|] + x[|m|..];
      } else {
        ReplaceItself(x[1..], m);
        assert x == [x[0]] + x[1..];
      }
    }
  }

  lemma NothingBefore(x: Bytes, t: Bytes, p: int)
    requires 0 <= p <= |x| && forall q :: 0 <= q < p ==> !OccursAt(x, t, q)
    ensures t != [] ==> forall q :: !OccursAt(x[..p], t, q)
  {
    forall q | t != []
      ensures !OccursAt(x[..p], t, q)
    {
      if OccursAt(x[..p], t, q) {
        assert x == x[..p] + x[p..];
        OccursInPrefix(x[..p], x[p..], t, q);
      }
    }
  }

  /** The first occurrence is what replacement takes first. */
  lemma ReplaceAt(x: Bytes, t: Bytes, m: Bytes, p: int)
    requires t != [] && OccursAt(x, t, p) && forall q :: 0 <= q < p ==> !OccursAt(x, t, q)
    ensures Replace(x, t, m) == x[..p] + m + Replace(x[p + |t|..], t, m)
  {
    var front, back := x[..p], x[p..];
    assert x == front + back;
    assert Clear(front + back, t, |front|);
    ReplaceSplits(front, back, t, m);
    NothingBefore(x, t, p);
    ReplaceNothing(front, t, m);
    HitAtFront(back, t, m);
    assert back[|t|..] == x[p + |t|..];
    Regroup(front, m, Replace(x[p + |t|..], t, m));
  }

  lemma ReplaceFirst(g: Bytes, t: Bytes, h: Bytes, m: Bytes)
    requires t != [] && forall p :: 0 <= p < |g| ==> !OccursAt(g + t + h, t, p)
    ensures Replace(g + t + h, t, m) == g + m + Replace(h, t, m)
  {
    var x := g + t + h;
    assert x[|g|..|g| + |t|] == t && x[..|g|] == g && x[|g| + |t|..] == h;
    ReplaceAt(x, t, m, |g|);
  }

  /** An occurrence that ends the text, and none before it. */
  lemma ReplaceLast(x: Bytes, t: Bytes, m: Bytes, p: int)
    requires t != [] && OccursAt(x, t, p) && p + |t| == |x| && forall q :: 0 <= q < p ==> !OccursAt(x, t, q)
    ensures Replace(x, t, m) == x[..p] + m
  {
    ReplaceAt(x, t, m, p);
    assert x[p + |t|..] == [] && x[..p] + m + [] == x[..p] + m;
  }

  predicate Has(x: Bytes, t: Bytes) {
    exists p :: 0 <= p <= |x| && OccursAt(x, t, p)
  }

  /** Either nothing occurs, or the text splits at the first occurrence. */
  lemma SplitFirst(x: Bytes, t: Bytes, m: Bytes) returns (found: bool, p: int)
    requires t != []
    ensures !found ==> (forall q :: !OccursAt(x, t, q)) && Replace(x, t, m) == x
    ensures found ==> OccursAt(x, t, p) && (forall q :: 0 <= q < p ==> !OccursAt(x, t, q))
                      && Replace(x, t, m) == x[..p] + m + Replace(x[p + |t|..], t, m)
    ensures found <==> Has(x, t)
  {
    p := Find(x, t, 0);
    found := p != -1;
    if found {
      ReplaceAt(x, t, m, p);
      assert Has(x, t);
    } else {
      ReplaceNothing(x, t, m);
    }
  }

  /** Replacing a text that holds `t` never gives the text back, unless `t` is the
      replacement. */
  lemma ReplaceChanges(x: Bytes, t: Bytes, m: Bytes)
    requires t != [] && t != m && Has(x, t)
    ensures Replace(x, t, m) != x
  {
    var found, p := SplitFirst(x, t, m);
    var r := Replace(x, t, m);
    if |t| == |m| {
      assert r[p..p + |m|] == m && x[p..p + |t|] == t;
    } else {
      ReplaceLength(x[p + |t|..], t, m);
    }
  }

  lemma {:induction false} ReplaceLength(x: Bytes, t: Bytes, m: Bytes)
    requires t != []
    ensures |t| <= |m| ==> |Replace(x, t, m)| >= |x|
    ensures |t| >= |m| ==> |Replace(x, t, m)| <= |x|
    decreases |x|
  {
    if |x| >= |t| {
      ReplaceLength(x[if x[..|t|] == t then |t| else 1..], t, m);
    }
  }

  /** The end of `x` that replacement leaves because it is shorter than `t`. */
  function Open(x: Bytes, t: Bytes): (r: Bytes)
    requires t != []
    ensures |r| < |t| && |r| <= |x|
    decreases |x|
  {
    if |x| < |t| then x else if x[..|t|] == t then Open(x[|t|..], t) else Open(x[1..], t)
  }

  function Done(x: Bytes, t: Bytes, m: Bytes): Bytes
    requires t != []
    decreases |x|
  {
    if |x| < |t| then []
    else if x[..|t|] == t then m + Done(x[|t|..], t, m)
    else [x[0]] + Done(x[1..], t, m)
  }

  lemma {:induction false} OpenEnds(x: Bytes, t: Bytes)
    requires t != []
    ensures x[|x| - |Open(x, t)|..] == Open(x, t)
    decreases |x|
  {
    if |x| >= |t| {
      var n := if x[..|t|] == t then |t| else 1;
      OpenEnds(x[n..], t);
      assert x == x[..n] + x[n..];
    }
  }

  /** What is replaced in `x` stays replaced when the text grows; less than one
      secret's length of `x` is still open. */
  lemma {:induction false} Appended(x: Bytes, y: Bytes, t: Bytes, m: Bytes)
    requires t != []
    ensures Replace(x + y, t, m) == Done(x, t, m) + Replace(Open(x, t) + y, t, m)
    decreases |x|
  {
    if |x| < |t| {
      assert [] + Replace(x + y, t, m) == Replace(x + y, t, m);
    } else {
      assert (x + y)[..|t|] == x[..|t|];
      var n := if x[..|t|] == t then |t| else 1;
      assert (x + y)[n..] == x[n..] + y;
      Appended(x[n..], y, t, m);
      Regroup(if x[..|t|] == t then m else [x[0]], Done(x[n..], t, m), Replace(Open(x, t) + y, t, m));
    }
  }

  lemma ReplaceIsDone(x: Bytes, t: Bytes, m: Bytes)
    requires t != []
    ensures Replace(x, t, m) == Done(x, t, m) + Open(x, t)
  {
    Appended(x, [], t, m);
    assert x + [] == x && Open(x, t) + [] == Open(x, t);
    ReplaceShort(Open(x, t), t, m);
  }

  lemma Cancel(a: Bytes, b: Bytes, c: Bytes)
    requires a + b == a + c
    ensures b == c
  {
    assert b == (a + b)[|a|..] && c == (a + c)[|a|..];
  }

  lemma HasLater(a: Bytes, b: Bytes, t: Bytes)
    requires Has(b, t)
    ensures Has(a + b, t)
  {
    var p :| 0 <= p <= |b| && OccursAt(b, t, p);
    OccursShifted(a, b, t, p);
    assert OccursAt(a + b, t, |a| + p);
  }

  /** A tail that holds the secret cannot be left unreplaced by reading on. */
  lemma GrowthReplaces(x: Bytes, y: Bytes, t: Bytes, m: Bytes)
    requires t != [] && t != m && Has(y, t)
    ensures Replace(x + y, t, m) != Replace(x, t, m) + y
  {
    var done, open := Done(x, t, m), Open(x, t);
    Appended(x, y, t, m);
    ReplaceIsDone(x, t, m);
    HasLater(open, y, t);
    ReplaceChanges(open + y, t, m);
    if Replace(x + y, t, m) == Replace(x, t, m) + y {
      Regroup(done, open, y);
      Cancel(done, Replace(open + y, t, m), open + y);
    }
  }
}
