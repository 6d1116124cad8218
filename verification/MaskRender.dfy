/** What a masked text reads like, and the redaction of any number of secrets. */
module MaskRender {
  import opened Redaction
  import opened CopyRedacted
  import opened SecretChains
  import opened Masking
  import opened MaskExact

  /** What a mark reads like in the end: the marker, in which the later secrets are
      replaced as well. `from` is the first secret that is still to come for old marks. */
  function Shown(c: Symbol, secrets: seq<Bytes>, from: nat): Bytes
    requires NonEmpty(secrets)
  {
    match c
    case Raw(b) => [b]
    case Mark(i) => ReplaceAll(Marker(), Later(secrets, if i + 1 > from then i + 1 else from))
  }

  function Later(secrets: seq<Bytes>, i: nat): (r: seq<Bytes>)
    requires NonEmpty(secrets)
    ensures NonEmpty(r)
  {
    if i <= |secrets| then
      assert forall s :: s in secrets[i..] ==> s in secrets;
      secrets[i..]
    else []
  }

  function Render(x: Text, secrets: seq<Bytes>, from: nat): Bytes
    requires NonEmpty(secrets)
  {
    if x == [] then [] else Shown(x[0], secrets, from) + Render(x[1..], secrets, from)
  }

  /** Every mark as a plain marker. */
  function Plainly(x: Text): Bytes {
    if x == [] then [] else Plain(x[0]) + Plainly(x[1..])
  }

  function Plain(c: Symbol): Bytes {
    match c
    case Raw(b) => [b]
    case Mark(_) => Marker()
  }

  lemma {:induction false} RenderConcat(x: Text, y: Text, secrets: seq<Bytes>, from: nat)
    requires NonEmpty(secrets)
    ensures Render(x + y, secrets, from) == Render(x, secrets, from) + Render(y, secrets, from)
    decreases |x|
  {
    if x == [] {
      assert x + y == y;
    } else {
      assert (x + y)[0] == x[0] && (x + y)[1..] == x[1..] + y;
      RenderConcat(x[1..], y, secrets, from);
      Regroup(Shown(x[0], secrets, from), Render(x[1..], secrets, from), Render(y, secrets, from));
    }
  }

  lemma {:induction false} PlainlyConcat(x: Text, y: Text)
    ensures Plainly(x + y) == Plainly(x) + Plainly(y)
    decreases |x|
  {
    if x == [] {
      assert x + y == y;
    } else {
      assert (x + y)[0] == x[0] && (x + y)[1..] == x[1..] + y;
      PlainlyConcat(x[1..], y);
      Regroup(Plain(x[0]), Plainly(x[1..]), Plainly(y));
    }
  }

  lemma {:induction false} PlainlyLift(x: Bytes)
    ensures Plainly(Lift(x)) == x
    decreases |x|
  {
    if x != [] {
      assert Lift(x)[1..] == Lift(x[1..]);
      PlainlyLift(x[1..]);
      assert [x[0]] + x[1..] == x;
    }
  }

  // ------------------------------------------------------ one secret on bytes

  lemma LiftPrefix(x: Bytes, s: Bytes)
    requires |s| <= |x|
    ensures Lift(x)[..|s|] == Lift(s) <==> x[..|s|] == s
    ensures Lift(x)[|s|..] == Lift(x[|s|..])
  {
    if Lift(x)[..|s|] == Lift(s) {
      forall i | 0 <= i < |s|
        ensures x[i] == s[i]
      {
        assert Lift(x)[..|s|][i] == Lift(s)[i];
      }
    }
  }

  /** On a text of bytes, putting marks is replacing by the marker. */
  lemma {:induction false} PutPlainly(x: Bytes, s: Bytes, i: nat)
    requires s != []
    ensures Plainly(Put(Lift(x), s, i)) == Replace(x, s, Marker())
    decreases |x|
  {
    if |x| < |s| {
      PlainlyLift(x);
    } else {
      LiftPrefix(x, s);
      if x[..|s|] == s {
        PutPlainly(x[|s|..], s, i);
      } else {
        assert Lift(x)[1..] == Lift(x[1..]);
        PutPlainly(x[1..], s, i);
      }
    }
  }

  /** Marks from the i-th secret on. */
  predicate MarksFrom(x: Text, i: nat) {
    forall j :: 0 <= j < |x| && x[j].Mark? ==> x[j].index >= i
  }

  lemma {:induction false} PutMarks(x: Text, s: Bytes, i: nat, k: nat)
    requires s != [] && MarksFrom(x, k) && k <= i
    ensures MarksFrom(Put(x, s, i), k)
    decreases |x|
  {
    if |x| >= |s| {
      if x[..|s|] == Lift(s) {
        PutMarks(x[|s|..], s, i, k);
      } else {
        PutMarks(x[1..], s, i, k);
      }
    }
  }

  lemma {:induction false} MaskFromMarks(x: Text, secrets: seq<Bytes>, i: nat, k: nat)
    requires NonEmpty(secrets) && i <= |secrets| && MarksFrom(x, k) && k <= i
    ensures MarksFrom(MaskFrom(x, secrets, i), k)
    decreases |secrets| - i
  {
    if i < |secrets| {
      assert secrets[i] in secrets;
      PutMarks(x, secrets[i], i, k);
      MaskFromMarks(Put(x, secrets[i], i), secrets, i + 1, k);
    }
  }

  lemma {:induction false} RenderLater(x: Text, secrets: seq<Bytes>, i: nat)
    requires NonEmpty(secrets) && MarksFrom(x, i)
    ensures Render(x, secrets, i) == Render(x, secrets, i + 1)
    decreases |x|
  {
    if x != [] {
      RenderLater(x[1..], secrets, i);
    }
  }

  // ------------------------------------------------- secrets apart from the marker

  predicate AllApart(secrets: seq<Bytes>) {
    forall t :: t in secrets ==> Apart(t, Marker())
  }

  lemma ApartStart(a: Bytes, b: Bytes, t: Bytes, m: Bytes)
    requires Apart(t, m)
    ensures Clear(a + (m + b), t, |a|)
  {
    var x := a + (m + b);
    forall p | OccursAt(x, t, p)
      ensures !(p < |a| < p + |t|)
    {
      if p < |a| < p + |t| {
        Meeting(a, m + b, t, |a| - p);
        HeadOfConcat(m, b, t[|a| - p..]);
        ApartTail(t, m, t[|a| - p..]);
      }
    }
  }

  lemma ApartEnd(m: Bytes, b: Bytes, t: Bytes)
    requires Apart(t, m)
    ensures Clear(m + b, t, |m|)
  {
    forall p | OccursAt(m + b, t, p)
      ensures !(p < |m| < p + |t|)
    {
      if p < |m| < p + |t| {
        Meeting(m, b, t, |m| - p);
      }
    }
  }

  lemma ApartParts(a: Bytes, b: Bytes, secrets: seq<Bytes>)
    requires NonEmpty(secrets) && AllApart(secrets)
    ensures ReplaceAll(a + (Marker() + b), secrets) ==
            ReplaceAll(a, secrets) + (ReplaceAll(Marker(), secrets) + ReplaceAll(b, secrets))
  {
    var m := Marker();
    forall t | t in secrets
      ensures Clear(a + (m + b), t, |a|) && Clear(m + b, t, |m|)
    {
      ApartStart(a, b, t, m);
      ApartEnd(m, b, t);
    }
    ReplaceAllSplits(a, m + b, secrets);
    ReplaceAllSplits(m, b, secrets);
  }

  // ---------------------------------------------------------- all of them

  predicate MarksBelow(x: Text, i: nat) {
    forall j :: 0 <= j < |x| && x[j].Mark? ==> x[j].index < i
  }

  lemma {:induction false} RenderEnd(x: Text, secrets: seq<Bytes>)
    requires NonEmpty(secrets) && MarksBelow(x, |secrets|)
    ensures Render(x, secrets, |secrets|) == Plainly(x)
    decreases |x|
  {
    if x != [] {
      RenderEnd(x[1..], secrets);
      assert secrets[|secrets|..] == [];
    }
  }

  lemma LiftHasNoMark(x: Text, s: Bytes)
    requires |s| <= |x|
    ensures x[..|s|] == Lift(s) ==> forall j :: 0 <= j < |s| ==> x[j].Raw?
  {
    if x[..|s|] == Lift(s) {
      forall j | 0 <= j < |s|
        ensures x[j].Raw?
      {
        assert x[..|s|][j] == Lift(s)[j];
      }
    }
  }

  lemma PutOnMark(c: Symbol, b: Text, s: Bytes, i: nat)
    requires s != [] && c.Mark?
    ensures Put([c] + b, s, i) == [c] + Put(b, s, i)
  {
    var x := [c] + b;
    assert x[0] == c && x[1..] == b;
    if |x| >= |s| {
      LiftHasNoMark(x, s);
    } else {
      assert Put(b, s, i) == b;
    }
  }

  /** No secret is found across an old mark. */
  lemma {:induction false} PutAroundMark(a: Text, c: Symbol, b: Text, s: Bytes, i: nat)
    requires s != [] && c.Mark?
    ensures Put(a + ([c] + b), s, i) == Put(a, s, i) + ([c] + Put(b, s, i))
    decreases |a|
  {
    var x := a + ([c] + b);
    if a == [] {
      assert x == [c] + b;
      PutOnMark(c, b, s, i);
    } else if |x| < |s| {
      assert Put(b, s, i) == b;
    } else {
      LiftHasNoMark(x, s);
      assert x[|a|] == c;
      if x[..|s|] == Lift(s) {
        assert |s| <= |a|;
        PutAroundMark(a[|s|..], c, b, s, i);
        PutAroundHit(a, [c] + b, [c] + Put(b, s, i), s, i);
      } else {
        PutAroundMark(a[1..], c, b, s, i);
        PutAroundMiss(a, [c] + b, [c] + Put(b, s, i), s, i);
      }
    }
  }

  lemma PutAroundHit(a: Text, y: Text, z: Text, s: Bytes, i: nat)
    requires s != [] && |a| >= |s| && (a + y)[..|s|] == Lift(s)
    requires Put(a[|s|..] + y, s, i) == Put(a[|s|..], s, i) + z
    ensures Put(a + y, s, i) == Put(a, s, i) + z
  {
    assert (a + y)[..|s|] == a[..|s|] && (a + y)[|s|..] == a[|s|..] + y;
    Associate([Mark(i)], Put(a[|s|..], s, i), z);
  }

  lemma PutAroundMiss(a: Text, y: Text, z: Text, s: Bytes, i: nat)
    requires a != [] && s != [] && |a + y| >= |s| && (a + y)[..|s|] != Lift(s)
    requires Put(a[1..] + y, s, i) == Put(a[1..], s, i) + z
    ensures Put(a + y, s, i) == Put(a, s, i) + z
  {
    assert (a + y)[1..] == a[1..] + y && (a + y)[0] == a[0];
    assert |a| >= |s| ==> a[..|s|] == (a + y)[..|s|];
    assert |a| < |s| ==> a == [a[0]] + a[1..];
    Associate([a[0]], Put(a[1..], s, i), z);
  }

  lemma {:induction false} MaskFromAround(a: Text, c: Symbol, b: Text, secrets: seq<Bytes>, i: nat)
    requires NonEmpty(secrets) && i <= |secrets| && c.Mark?
    ensures MaskFrom(a + ([c] + b), secrets, i) == MaskFrom(a, secrets, i) + ([c] + MaskFrom(b, secrets, i))
    decreases |secrets| - i
  {
    if i < |secrets| {
      var s := secrets[i];
      assert s in secrets;
      PutAroundMark(a, c, b, s, i);
      MaskFromAround(Put(a, s, i), c, Put(b, s, i), secrets, i + 1);
    }
  }

  /** One secret on a text of bytes, and then the others. */
  lemma {:induction false} RawReads(x: Bytes, secrets: seq<Bytes>, i: nat)
    requires NonEmpty(secrets) && i < |secrets| && AllApart(secrets[i + 1..])
    ensures NonEmpty(secrets[i..])
    ensures ReplaceAll(x, secrets[i..]) == Render(MaskFrom(Lift(x), secrets, i), secrets, i)
    decreases |secrets| - i, |x|, 0
  {
    var s := secrets[i];
    assert s in secrets;
    var y := Put(Lift(x), s, i);
    assert secrets[i..][0] == s && secrets[i..][1..] == secrets[i + 1..];
    assert forall t :: t in secrets[i..] ==> t in secrets;
    PutPlainly(x, s, i);
    PutMarks(Lift(x), s, i, i);
    PutBelow(Lift(x), s, i);
    MaskReads(y, secrets, i + 1);
    MaskFromMarks(Lift(x), secrets, i, i);
    RenderLater(MaskFrom(y, secrets, i + 1), secrets, i);
  }

  lemma {:induction false} PutBelow(x: Text, s: Bytes, i: nat)
    requires s != [] && MarksBelow(x, i)
    ensures MarksBelow(Put(x, s, i), i + 1)
    decreases |x|
  {
    if |x| >= |s| {
      PutBelow(x[if x[..|s|] == Lift(s) then |s| else 1..], s, i);
    }
  }

  lemma {:induction false} MaskReads(y: Text, secrets: seq<Bytes>, i: nat)
    requires NonEmpty(secrets) && i <= |secrets| && AllApart(secrets[i..]) && MarksBelow(y, i)
    ensures NonEmpty(secrets[i..])
    ensures ReplaceAll(Plainly(y), secrets[i..]) == Render(MaskFrom(y, secrets, i), secrets, i)
    decreases |secrets| - i, |y|, 1
  {
    assert forall t :: t in secrets[i..] ==> t in secrets;
    if i == |secrets| {
      RenderEnd(y, secrets);
    } else if k :| 0 <= k < |y| && y[k].Mark? {
      var a, b := y[..k], y[k + 1..];
      assert y == a + ([y[k]] + b);
      MaskReads(a, secrets, i);
      MaskReads(b, secrets, i);
      ApartParts(Plainly(a), Plainly(b), secrets[i..]);
      PlainlyAround(a, y[k], b);
      MaskFromAround(a, y[k], b, secrets, i);
      RenderAround(MaskFrom(a, secrets, i), y[k], MaskFrom(b, secrets, i), secrets, i);
    } else {
      PlainlyIsLift(y);
      assert secrets[i + 1..] == secrets[i..][1..];
      RawReads(Plainly(y), secrets, i);
    }
  }

  lemma PlainlyAround(a: Text, c: Symbol, b: Text)
    requires c.Mark?
    ensures Plainly(a + ([c] + b)) == Plainly(a) + (Marker() + Plainly(b))
  {
    PlainlyConcat(a, [c] + b);
    assert ([c] + b)[1..] == b;
  }

  lemma RenderAround(a: Text, c: Symbol, b: Text, secrets: seq<Bytes>, i: nat)
    requires NonEmpty(secrets) && c.Mark? && c.index < i <= |secrets|
    ensures NonEmpty(secrets[i..])
    ensures Render(a + ([c] + b), secrets, i) ==
            Render(a, secrets, i) + (ReplaceAll(Marker(), secrets[i..]) + Render(b, secrets, i))
  {
    RenderConcat(a, [c] + b, secrets, i);
    assert ([c] + b)[1..] == b;
    assert Later(secrets, i) == secrets[i..];
  }

  lemma {:induction false} PlainlyIsLift(y: Text)
    requires forall k :: 0 <= k < |y| ==> y[k].Raw?
    ensures Lift(Plainly(y)) == y
    decreases |y|
  {
    if y != [] {
      PlainlyIsLift(y[1..]);
      LiftConcat([y[0].byte], Plainly(y[1..]));
    }
  }

  /** The output of any number of secrets is the masked text read with markers, if the
      second and later ones are apart from the marker. */
  lemma OutputReads(x: Bytes, secrets: seq<Bytes>)
    requires NonEmpty(secrets) && MarkerSafe(secrets)
    ensures ReplaceAll(x, secrets) == Render(Mask(x, secrets), secrets, 0)
  {
    if secrets == [] {
      assert MarksBelow(Lift(x), 0);
      RenderEnd(Lift(x), secrets);
      PlainlyLift(x);
    } else {
      forall t | t in secrets[1..]
        ensures Apart(t, Marker())
      {
        var i :| 0 <= i < |secrets[1..]| && secrets[1..][i] == t;
        assert secrets[i + 1] == t;
      }
      assert secrets[0..] == secrets && secrets[0 + 1..] == secrets[1..];
      RawReads(x, secrets, 0);
    }
  }

  lemma {:induction false} RedactedReads(segments: seq<Bytes>, secrets: seq<Bytes>)
    requires NonEmpty(secrets) && MarkerSafe(secrets)
    ensures Redacted(segments, secrets) == Render(Masked(segments, secrets), secrets, 0)
    decreases |segments|
  {
    if segments != [] {
      OutputReads(segments[0], secrets);
      RedactedReads(segments[1..], secrets);
      RenderConcat(Mask(segments[0], secrets), Masked(segments[1..], secrets), secrets, 0);
    }
  }

  /** Across a boundary the output is that of the two parts. */
  lemma OutSplits(u: Bytes, v: Bytes, secrets: seq<Bytes>)
    requires NonEmpty(secrets) && MarkerSafe(secrets) && Boundary(Mask(u + v, secrets), secrets, |u|)
    ensures ReplaceAll(u + v, secrets) == ReplaceAll(u, secrets) + ReplaceAll(v, secrets)
  {
    MaskSplits(u, v, secrets);
    OutputReads(u + v, secrets);
    OutputReads(u, secrets);
    OutputReads(v, secrets);
    RenderConcat(Mask(u, secrets), Mask(v, secrets), secrets, 0);
  }

  /** For any number of secrets: where the chunking never decides which are replaced and
      the later ones are apart from the marker, it does not matter at all. */
  lemma SameSecretsSameOutput(secrets: seq<Bytes>)
    requires NonEmpty(secrets) && MarkerSafe(secrets) && LongChainsYield(secrets)
    ensures SameOutput(secrets)
  {
    SameSecretsExactly(secrets);
    forall chunks | NonEmpty(chunks)
      ensures Redacted(Segments([], chunks, secrets), secrets) == ReplaceAll(Concat(chunks), secrets)
    {
      RedactedReads(Segments([], chunks, secrets), secrets);
      OutputReads(Concat(chunks), secrets);
    }
  }
}
