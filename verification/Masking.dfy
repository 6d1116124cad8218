/** Which occurrences a redaction replaces: every secret gets a mark of its own, which
    is no text. */
module Masking {
  import opened Redaction
  import opened CopyRedacted
  import opened SecretChains

  /** A byte that is left, or the place of the i-th secret. */
  datatype Symbol = Raw(byte: Byte) | Mark(index: nat)

  type Text = seq<Symbol>

  function Lift(x: Bytes): (r: Text)
    ensures |r| == |x|
  {
    seq(|x|, i requires 0 <= i < |x| => Raw(x[i]))
  }

  /** bytes.replace with a mark. */
  function Put(x: Text, s: Bytes, i: nat): Text
    requires s != []
    decreases |x|
  {
    if |x| < |s| then x
    else if x[..|s|] == Lift(s) then [Mark(i)] + Put(x[|s|..], s, i)
    else [x[0]] + Put(x[1..], s, i)
  }

  /** The secrets from the i-th on, one after the other. */
  function MaskFrom(x: Text, secrets: seq<Bytes>, i: nat): Text
    requires NonEmpty(secrets) && i <= |secrets|
    decreases |secrets| - i
  {
    if i == |secrets| then x
    else
      assert secrets[i] in secrets;
      MaskFrom(Put(x, secrets[i], i), secrets, i + 1)
  }

  function Mask(x: Bytes, secrets: seq<Bytes>): Text
    requires NonEmpty(secrets)
  {
    MaskFrom(Lift(x), secrets, 0)
  }

  /** The bytes that a masked text stands for. */
  function Expand(x: Text, secrets: seq<Bytes>): Bytes {
    if x == [] then [] else Bare(x[0], secrets) + Expand(x[1..], secrets)
  }

  function Bare(c: Symbol, secrets: seq<Bytes>): Bytes {
    match c
    case Raw(b) => [b]
    case Mark(i) => if i < |secrets| then secrets[i] else [0]
  }

  // ------------------------------------------------------- marks and the bytes

  lemma {:induction false} ExpandConcat(x: Text, y: Text, secrets: seq<Bytes>)
    ensures Expand(x + y, secrets) == Expand(x, secrets) + Expand(y, secrets)
    decreases |x|
  {
    if x == [] {
      assert x + y == y;
    } else {
      assert (x + y)[0] == x[0] && (x + y)[1..] == x[1..] + y;
      ExpandConcat(x[1..], y, secrets);
      Regroup(Bare(x[0], secrets), Expand(x[1..], secrets), Expand(y, secrets));
    }
  }

  lemma {:induction false} ExpandLift(x: Bytes, secrets: seq<Bytes>)
    ensures Expand(Lift(x), secrets) == x
    decreases |x|
  {
    if x != [] {
      assert Lift(x)[1..] == Lift(x[1..]);
      ExpandLift(x[1..], secrets);
      assert [x[0]] + x[1..] == x;
    }
  }

  lemma ExpandOne(c: Symbol, x: Text, secrets: seq<Bytes>)
    ensures Expand([c] + x, secrets) == Bare(c, secrets) + Expand(x, secrets)
  {
    assert ([c] + x)[1..] == x;
  }

  lemma ExpandHit(x: Text, s: Bytes, i: nat, secrets: seq<Bytes>)
    requires i < |secrets| && secrets[i] == s && |s| <= |x| && x[..|s|] == Lift(s)
    ensures Expand(x, secrets) == s + Expand(x[|s|..], secrets)
  {
    assert x == x[..|s|] + x[|s|..];
    ExpandConcat(x[..|s|], x[|s|..], secrets);
    ExpandLift(s, secrets);
  }

  /** Putting marks changes nothing of what the text stands for. */
  lemma {:induction false} PutExpands(x: Text, s: Bytes, i: nat, secrets: seq<Bytes>)
    requires s != [] && i < |secrets| && secrets[i] == s
    ensures Expand(Put(x, s, i), secrets) == Expand(x, secrets)
    decreases |x|
  {
    if |x| >= |s| {
      if x[..|s|] == Lift(s) {
        PutExpands(x[|s|..], s, i, secrets);
        ExpandHit(x, s, i, secrets);
        ExpandOne(Mark(i), Put(x[|s|..], s, i), secrets);
      } else {
        PutExpands(x[1..], s, i, secrets);
        ExpandOne(x[0], Put(x[1..], s, i), secrets);
      }
    }
  }

  lemma {:induction false} MaskFromExpands(x: Text, secrets: seq<Bytes>, i: nat)
    requires NonEmpty(secrets) && i <= |secrets|
    ensures Expand(MaskFrom(x, secrets, i), secrets) == Expand(x, secrets)
    decreases |secrets| - i
  {
    if i < |secrets| {
      assert secrets[i] in secrets;
      PutExpands(x, secrets[i], i, secrets);
      MaskFromExpands(Put(x, secrets[i], i), secrets, i + 1);
    }
  }

  /** The masked text tells the whole text. */
  lemma MaskExpands(x: Bytes, secrets: seq<Bytes>)
    requires NonEmpty(secrets)
    ensures Expand(Mask(x, secrets), secrets) == x
  {
    MaskFromExpands(Lift(x), secrets, 0);
    ExpandLift(x, secrets);
  }

  // ------------------------------------------------------------- boundaries

  /** The n-th byte begins a symbol. */
  ghost predicate Boundary(x: Text, secrets: seq<Bytes>, n: nat) {
    exists j :: 0 <= j <= |x| && |Expand(x[..j], secrets)| == n
  }

  /** Over a boundary of the result, marks were put on the two sides apart. */
  lemma {:induction false} PutSplits(x: Text, y: Text, s: Bytes, i: nat, secrets: seq<Bytes>)
    requires NonEmpty(secrets) && s != [] && i < |secrets| && secrets[i] == s
    requires Boundary(Put(x + y, s, i), secrets, |Expand(x, secrets)|)
    ensures Put(x + y, s, i) == Put(x, s, i) + Put(y, s, i)
    decreases |x|
  {
    if x == [] {
      assert x + y == y;
    } else if |x + y| >= |s| {
      if (x + y)[..|s|] == Lift(s) {
        HitInside(x, y, s, i, secrets);
        assert (x + y)[|s|..] == x[|s|..] + y && x[..|s|] == Lift(s);
        ExpandHit(x, s, i, secrets);
        LaterBoundary(Mark(i), Put(x[|s|..] + y, s, i), secrets, |Expand(x[|s|..], secrets)|);
        PutSplits(x[|s|..], y, s, i, secrets);
        PutHit(x, y, s, i);
      } else {
        assert (x + y)[1..] == x[1..] + y && (x + y)[0] == x[0];
        LaterBoundary(x[0], Put(x[1..] + y, s, i), secrets, |Expand(x[1..], secrets)|);
        PutSplits(x[1..], y, s, i, secrets);
        PutMiss(x, y, s, i);
      }
    }
  }

  lemma PutHit(x: Text, y: Text, s: Bytes, i: nat)
    requires s != [] && |x| >= |s| && x[..|s|] == Lift(s)
    requires Put(x[|s|..] + y, s, i) == Put(x[|s|..], s, i) + Put(y, s, i)
    ensures Put(x + y, s, i) == Put(x, s, i) + Put(y, s, i)
  {
    assert (x + y)[..|s|] == x[..|s|] && (x + y)[|s|..] == x[|s|..] + y;
    Associate([Mark(i)], Put(x[|s|..], s, i), Put(y, s, i));
  }

  lemma PutMiss(x: Text, y: Text, s: Bytes, i: nat)
    requires x != [] && s != [] && |x + y| >= |s| && (x + y)[..|s|] != Lift(s)
    requires Put(x[1..] + y, s, i) == Put(x[1..], s, i) + Put(y, s, i)
    ensures Put(x + y, s, i) == Put(x, s, i) + Put(y, s, i)
  {
    assert (x + y)[1..] == x[1..] + y && (x + y)[0] == x[0];
    assert |x| >= |s| ==> x[..|s|] == (x + y)[..|s|];
    assert |x| < |s| ==> x == [x[0]] + x[1..];
    Associate([x[0]], Put(x[1..], s, i), Put(y, s, i));
  }

  lemma Associate(a: Text, b: Text, c: Text)
    ensures (a + b) + c == a + (b + c)
  {
  }

  lemma BareNonEmpty(c: Symbol, secrets: seq<Bytes>)
    requires NonEmpty(secrets)
    ensures Bare(c, secrets) != []
  {
    if c.Mark? && c.index < |secrets| {
      assert secrets[c.index] in secrets;
    }
  }

  /** A boundary after the first symbol is a boundary of the rest. */
  lemma LaterBoundary(c: Symbol, x: Text, secrets: seq<Bytes>, n: nat)
    requires NonEmpty(secrets) && Boundary([c] + x, secrets, |Bare(c, secrets)| + n)
    ensures Boundary(x, secrets, n)
  {
    BareNonEmpty(c, secrets);
    var y := [c] + x;
    var j :| 0 <= j <= |y| && |Expand(y[..j], secrets)| == |Bare(c, secrets)| + n;
    assert j > 0;
    assert y[..j] == [c] + x[..j - 1];
    ExpandOne(c, x[..j - 1], secrets);
  }

  /** There is no boundary inside the first symbol. */
  lemma FirstSymbol(c: Symbol, x: Text, secrets: seq<Bytes>, n: nat)
    requires Boundary([c] + x, secrets, n) && n > 0
    ensures n >= |Bare(c, secrets)|
  {
    var y := [c] + x;
    var j :| 0 <= j <= |y| && |Expand(y[..j], secrets)| == n;
    assert j > 0;
    assert y[..j] == [c] + x[..j - 1];
    ExpandOne(c, x[..j - 1], secrets);
  }

  lemma HitInside(x: Text, y: Text, s: Bytes, i: nat, secrets: seq<Bytes>)
    requires x != [] && s != [] && i < |secrets| && secrets[i] == s
    requires |x + y| >= |s| && (x + y)[..|s|] == Lift(s)
    requires Boundary(Put(x + y, s, i), secrets, |Expand(x, secrets)|)
    ensures |x| >= |s|
  {
    if |x| < |s| {
      assert x == Lift(s)[..|x|] == Lift(s[..|x|]);
      ExpandLift(s[..|x|], secrets);
      FirstSymbol(Mark(i), Put((x + y)[|s|..], s, i), secrets, |x|);
    }
  }

  lemma AddBoundary(a: Text, x: Text, secrets: seq<Bytes>, n: nat)
    requires Boundary(x, secrets, n)
    ensures Boundary(a + x, secrets, |Expand(a, secrets)| + n)
  {
    var j :| 0 <= j <= |x| && |Expand(x[..j], secrets)| == n;
    assert (a + x)[..|a| + j] == a + x[..j];
    ExpandConcat(a, x[..j], secrets);
  }

  lemma StartIsBoundary(x: Text, secrets: seq<Bytes>)
    ensures Boundary(x, secrets, 0)
  {
    assert x[..0] == [];
    assert |Expand(x[..0], secrets)| == 0;
  }

  /** Marks only join bytes: every boundary was one before. */
  lemma {:induction false} PutJoins(x: Text, s: Bytes, i: nat, secrets: seq<Bytes>, n: nat)
    requires NonEmpty(secrets) && s != [] && i < |secrets| && secrets[i] == s
    requires Boundary(Put(x, s, i), secrets, n)
    ensures Boundary(x, secrets, n)
    decreases |x|
  {
    if n == 0 {
      StartIsBoundary(x, secrets);
    } else if |x| >= |s| {
      var k, c := if x[..|s|] == Lift(s) then |s| else 1, if x[..|s|] == Lift(s) then Mark(i) else x[0];
      assert x == x[..k] + x[k..];
      ExpandLift(s, secrets);
      ExpandOne(x[0], [], secrets);
      assert [x[0]] + [] == x[..1];
      assert Expand(x[..k], secrets) == Bare(c, secrets);
      FirstSymbol(c, Put(x[k..], s, i), secrets, n);
      LaterBoundary(c, Put(x[k..], s, i), secrets, n - |Bare(c, secrets)|);
      PutJoins(x[k..], s, i, secrets, n - |Bare(c, secrets)|);
      AddBoundary(x[..k], x[k..], secrets, n - |Bare(c, secrets)|);
    }
  }

  lemma {:induction false} MaskFromJoins(x: Text, secrets: seq<Bytes>, i: nat, n: nat)
    requires NonEmpty(secrets) && i <= |secrets| && Boundary(MaskFrom(x, secrets, i), secrets, n)
    ensures Boundary(x, secrets, n)
    decreases |secrets| - i
  {
    if i < |secrets| {
      assert secrets[i] in secrets;
      MaskFromJoins(Put(x, secrets[i], i), secrets, i + 1, n);
      PutJoins(x, secrets[i], i, secrets, n);
    }
  }

  lemma {:induction false} MaskFromSplits(x: Text, y: Text, secrets: seq<Bytes>, i: nat)
    requires NonEmpty(secrets) && i <= |secrets|
    requires Boundary(MaskFrom(x + y, secrets, i), secrets, |Expand(x, secrets)|)
    ensures MaskFrom(x + y, secrets, i) == MaskFrom(x, secrets, i) + MaskFrom(y, secrets, i)
    decreases |secrets| - i
  {
    if i < |secrets| {
      var s := secrets[i];
      assert s in secrets;
      MaskFromJoins(Put(x + y, s, i), secrets, i + 1, |Expand(x, secrets)|);
      PutSplits(x, y, s, i, secrets);
      PutExpands(x, s, i, secrets);
      MaskFromSplits(Put(x, s, i), Put(y, s, i), secrets, i + 1);
    }
  }

  lemma LiftConcat(a: Bytes, b: Bytes)
    ensures Lift(a + b) == Lift(a) + Lift(b)
  {
  }

  /** Two parts are masked apart exactly when no replaced secret lies across. */
  lemma MaskSplits(a: Bytes, b: Bytes, secrets: seq<Bytes>)
    requires NonEmpty(secrets)
    ensures Boundary(Mask(a + b, secrets), secrets, |a|) <==>
            Mask(a + b, secrets) == Mask(a, secrets) + Mask(b, secrets)
  {
    LiftConcat(a, b);
    ExpandLift(a, secrets);
    if Boundary(Mask(a + b, secrets), secrets, |a|) {
      MaskFromSplits(Lift(a), Lift(b), secrets, 0);
    }
    if Mask(a + b, secrets) == Mask(a, secrets) + Mask(b, secrets) {
      MaskExpands(a, secrets);
      PrefixBoundary(Mask(a, secrets), Mask(b, secrets), secrets);
    }
  }

  lemma PrefixBoundary(x: Text, y: Text, secrets: seq<Bytes>)
    ensures Boundary(x + y, secrets, |Expand(x, secrets)|)
  {
    assert (x + y)[..|x|] == x;
  }

  // ----------------------------------------------------- what lies across

  /** A position is a boundary or lies inside one mark. */
  lemma {:induction false} Across(x: Text, secrets: seq<Bytes>, n: nat) returns (j: nat)
    requires n <= |Expand(x, secrets)| && !Boundary(x, secrets, n)
    ensures j < |x| && x[j].Mark? && x[j].index < |secrets|
    ensures var q := |Expand(x[..j], secrets)|; q < n < q + |secrets[x[j].index]|
    decreases |x|
  {
    StartIsBoundary(x, secrets);
    ExpandOne(x[0], x[1..], secrets);
    assert [x[0]] + x[1..] == x;
    var k := |Bare(x[0], secrets)|;
    if n < k {
      j := 0;
    } else {
      ExpandOne(x[0], [], secrets);
      assert [x[0]] + [] == [x[0]];
      if Boundary(x[1..], secrets, n - k) {
        AddBoundary([x[0]], x[1..], secrets, n - k);
      }
      j := Across(x[1..], secrets, n - k);
      assert x[..j + 1] == [x[0]] + x[1..][..j];
      ExpandOne(x[0], x[1..][..j], secrets);
      j := j + 1;
    }
  }

  /** A mark stands for an occurrence. */
  lemma MarkOccurs(x: Bytes, y: Text, j: nat, secrets: seq<Bytes>)
    requires Expand(y, secrets) == x && j < |y| && y[j].Mark? && y[j].index < |secrets|
    ensures var q, s := |Expand(y[..j], secrets)|, secrets[y[j].index];
            OccursAt(x, s, q) && |Expand(y[..j + 1], secrets)| == q + |s|
  {
    var a, s, b := y[..j], secrets[y[j].index], y[j + 1..];
    assert y == a + ([y[j]] + b) && y[..j + 1] == a + ([y[j]] + []);
    ExpandConcat(a, [y[j]] + b, secrets);
    ExpandOne(y[j], b, secrets);
    ExpandConcat(a, [y[j]] + [], secrets);
    ExpandOne(y[j], [], secrets);
    BetweenOccurs(Expand(a, secrets), s, Expand(b, secrets));
  }

  lemma BetweenOccurs(a: Bytes, s: Bytes, b: Bytes)
    ensures OccursAt(a + (s + b), s, |a|)
  {
    assert (a + (s + b))[|a|..|a| + |s|] == s;
  }

  lemma {:induction false} Grows(x: Text, secrets: seq<Bytes>)
    requires NonEmpty(secrets)
    ensures |Expand(x, secrets)| >= |x|
    decreases |x|
  {
    if x != [] {
      BareNonEmpty(x[0], secrets);
      Grows(x[1..], secrets);
    }
  }

  /** Longer prefixes stand for longer texts. */
  lemma PrefixesGrow(x: Text, secrets: seq<Bytes>, j: nat, k: nat)
    requires NonEmpty(secrets) && j <= k <= |x|
    ensures |Expand(x[..k], secrets)| >= |Expand(x[..j], secrets)| + (k - j)
  {
    assert x[..k] == x[..j] + x[j..k];
    ExpandConcat(x[..j], x[j..k], secrets);
    Grows(x[j..k], secrets);
  }
}
