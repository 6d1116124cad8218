/** The secrets of a run: those of its two connection strings together. */
module RunSecrets {
  import opened Redaction
  import opened CopyRedacted
  import opened ReplaceFacts
  import opened SecretChains
  import opened MaskExact
  import opened ChainsRead
  import opened OutputExact
  import opened FullStreams
  import opened Coincidence

  /** The size of one read. */
  const READ := 65536

  predicate Member(s: Bytes, dsn: Bytes, principal: Bytes) {
    s in SecretsFor(dsn) || s in SecretsFor(principal)
  }

  /** Longest first; which of two equally long ones comes first is left open. */
  predicate Falling(secrets: seq<Bytes>) {
    forall i, j :: 0 <= i < j < |secrets| ==> |secrets[i]| >= |secrets[j]| && secrets[i] != secrets[j]
  }

  ghost predicate PrivateSecrets(secrets: seq<Bytes>, dsn: Bytes, principal: Bytes) {
    Falling(secrets) && forall s :: s in secrets <==> Member(s, dsn, principal)
  }

  lemma InsertedMembers(secrets: seq<Bytes>, i: nat, s: Bytes)
    requires i <= |secrets|
    ensures forall t :: t in secrets[..i] + [s] + secrets[i..] <==> t in secrets || t == s
  {
    assert secrets == secrets[..i] + secrets[i..];
  }

  lemma InsertedFalls(secrets: seq<Bytes>, i: nat, s: Bytes)
    requires Falling(secrets) && s !in secrets && i <= |secrets| && forall j :: 0 <= j < i ==> |secrets[j]| >= |s|
    requires i < |secrets| ==> |secrets[i]| < |s|
    ensures Falling(secrets[..i] + [s] + secrets[i..])
  {
    var r := secrets[..i] + [s] + secrets[i..];
    forall a, b | 0 <= a < b < |r|
      ensures |r[a]| >= |r[b]| && r[a] != r[b]
    {
      var x, y := if a <= i then a else a - 1, if b <= i then b else b - 1;
      assert a != i ==> r[a] == secrets[x];
      assert b != i ==> r[b] == secrets[y];
    }
  }

  method Insert(secrets: seq<Bytes>, s: Bytes) returns (r: seq<Bytes>)
    requires Falling(secrets)
    ensures Falling(r) && forall t :: t in r <==> t in secrets || t == s
  {
    if s in secrets {
      return secrets;
    }
    var i := 0;
    while i < |secrets| && |secrets[i]| >= |s|
      invariant i <= |secrets| && forall j :: 0 <= j < i ==> |secrets[j]| >= |s|
    {
      i := i + 1;
    }
    r := secrets[..i] + [s] + secrets[i..];
    InsertedMembers(secrets, i, s);
    InsertedFalls(secrets, i, s);
  }

  /** sorted(set(...), key=len, reverse=True) */
  method Sorted(all: seq<Bytes>) returns (secrets: seq<Bytes>)
    ensures Falling(secrets) && forall s :: s in secrets <==> s in all
  {
    secrets := [];
    for i := 0 to |all|
      invariant Falling(secrets) && forall s :: s in secrets <==> s in all[..i]
    {
      assert all[..i + 1] == all[..i] + [all[i]];
      secrets := Insert(secrets, all[i]);
    }
    assert all[..|all|] == all;
  }

  method MergeSecrets(dsn: Bytes, principal: Bytes) returns (secrets: seq<Bytes>)
    ensures PrivateSecrets(secrets, dsn, principal)
  {
    secrets := Sorted(SecretsFor(dsn) + SecretsFor(principal));
  }

  lemma {:induction false} DistinctFit(secrets: seq<Bytes>, all: set<Bytes>)
    requires Falling(secrets) && forall s :: s in secrets ==> s in all
    ensures |secrets| <= |all|
    decreases |secrets|
  {
    if secrets != [] {
      var n := |secrets| - 1;
      assert forall s :: s in secrets[..n] ==> s in secrets && s != secrets[n];
      DistinctFit(secrets[..n], all - {secrets[n]});
    }
  }

  function Elements(secrets: seq<Bytes>): (r: set<Bytes>)
    ensures forall s :: s in r <==> s in secrets
    ensures |r| <= |secrets|
  {
    if secrets == [] then {} else {secrets[0]} + Elements(secrets[1..])
  }

  /** At most four secrets, none of them empty. */
  lemma PrivateShape(secrets: seq<Bytes>, dsn: Bytes, principal: Bytes)
    requires PrivateSecrets(secrets, dsn, principal)
    ensures NonEmpty(secrets) && |secrets| <= 4
  {
    var all := SecretsFor(dsn) + SecretsFor(principal);
    forall s | s in secrets
      ensures s != [] && s in Elements(all)
    {
      assert Member(s, dsn, principal);
    }
    DistinctFit(secrets, Elements(all));
  }

  /** No stream of a run is ever split if and only if no chain of its secrets spans more
      than the longest; with full reads the condition is the same. */
  lemma RunNeverSplitExactly(secrets: seq<Bytes>, dsn: Bytes, principal: Bytes)
    requires PrivateSecrets(secrets, dsn, principal)
    ensures NonEmpty(secrets)
    ensures ShortChains(secrets) <==>
            forall chunks :: NonEmpty(chunks) ==> Intact(Segments([], chunks, secrets), secrets)
    ensures 2 * Longest(secrets) <= READ ==>
              (ShortChains(secrets) <==>
               forall chunks :: FullReads(chunks, READ) ==> Intact(Segments([], chunks, secrets), secrets))
  {
    PrivateShape(secrets, dsn, principal);
    NeverSplitExactly(secrets);
    if 2 * Longest(secrets) <= READ {
      NeverSplitInFullReads(secrets, READ);
    }
  }

  /** The chunking never decides which secrets are replaced if and only if the last
      secret of every chain that is too long yields. */
  lemma RunSameSecretsExactly(secrets: seq<Bytes>, dsn: Bytes, principal: Bytes)
    requires PrivateSecrets(secrets, dsn, principal)
    ensures NonEmpty(secrets) && (SameSecrets(secrets) <==> LongChainsYield(secrets))
    ensures 2 * Longest(secrets) <= READ ==> (SameSecretsFull(secrets, READ) <==> LongChainsYield(secrets))
  {
    PrivateShape(secrets, dsn, principal);
    SameSecretsExactly(secrets);
    if 2 * Longest(secrets) <= READ {
      SameSecretsInFullReads(secrets, READ);
    }
  }

  /** The output is the redaction of the whole only if the divided long chains read like
      the whole; if the later secrets are apart from the marker, if and only if. With one
      or two secrets, marker or not, if and only if they are transparent. */
  lemma RunSameOutput(secrets: seq<Bytes>, dsn: Bytes, principal: Bytes)
    requires PrivateSecrets(secrets, dsn, principal)
    ensures NonEmpty(secrets)
    ensures SameOutput(secrets) ==> LongChainsRead(secrets)
    ensures MarkerSafe(secrets) ==> (SameOutput(secrets) <==> LongChainsRead(secrets))
    ensures |secrets| <= 2 ==> (SameOutput(secrets) <==> Transparent(secrets))
    ensures |secrets| <= 2 && 8 * Longest(secrets) <= READ ==>
              (SameOutputFull(secrets, READ) <==> Transparent(secrets))
  {
    PrivateShape(secrets, dsn, principal);
    SameOutputChains(secrets);
    if |secrets| <= 2 {
      SameOutputExactly(secrets);
      if 8 * Longest(secrets) <= READ {
        SameOutputInFullReads(secrets, READ);
      }
    }
  }

  // ------------------------------------- such secrets do come from two DSNs

  /** b'@tcp(:' */
  function Tail(): Bytes {
    Separator() + [0x3a]
  }

  lemma TailFacts()
    ensures Distinguished(0x7a, Tail())
  {
    forall k | 0 < k < 6
      ensures !Border(Tail(), Tail(), k)
    {
      assert Tail()[6 - k..][0] == Tail()[6 - k] && Tail()[..k][0] == 0x40;
    }
  }

  /** The last separator is where the last b'@' stands. */
  lemma LastSeparator(x: Bytes, at: nat)
    requires at + 5 <= |x| && OccursAt(x, Separator(), at) && forall i :: at < i < |x| ==> x[i] != 0x40
    ensures FindLast(x, Separator(), |x|) == at
  {
    var p := FindLast(x, Separator(), |x|);
    if p != -1 {
      ByteAt(x, Separator(), p, 0);
    }
  }

  lemma FirstColon(x: Bytes, at: nat)
    requires at < |x| && x[at] == 0x3a && forall i :: 0 <= i < at ==> x[i] != 0x3a
    ensures Find(x, [0x3a], 0) == at
  {
    assert x[at..at + 1] == [0x3a];
    assert OccursAt(x, [0x3a], at);
    ByteAt(x, [0x3a], Find(x, [0x3a], 0), 0);
  }

  lemma FirstDsn()
    ensures SecretsFor(Tail() + [0x7a] + Tail()) == [Tail() + [0x7a] + Tail(), [0x7a]]
  {
    var x := Tail() + [0x7a] + Tail();
    assert x[7..12] == Separator();
    LastSeparator(x, 7);
    FirstColon(x[..7], 5);
    assert x[..7][6..] == [0x7a];
  }

  lemma SecondDsn()
    ensures SecretsFor([0x7a] + Tail()) == [[0x7a] + Tail()]
  {
    var x := [0x7a] + Tail();
    assert x[1..6] == Separator();
    LastSeparator(x, 1);
    var p := Find(x[..1], [0x3a], 0);
    ByteAt(x[..1], [0x3a], p, 0);
  }

  lemma TripleFalls(a: Byte, b: Bytes)
    requires b != []
    ensures Falling(Triple(a, b))
  {
    var secrets := Triple(a, b);
    assert |secrets[0]| == 2 * |b| + 1 && |secrets[1]| == |b| + 1 && |secrets[2]| == 1;
  }

  lemma TripleIsPrivate(a: Byte, b: Bytes, dsn: Bytes, principal: Bytes)
    requires b != [] && SecretsFor(dsn) == [b + [a] + b, [a]] && SecretsFor(principal) == [[a] + b]
    ensures PrivateSecrets(Triple(a, b), dsn, principal)
  {
    TripleFalls(a, b);
    assert Triple(a, b) == [b + [a] + b, [a] + b, [a]];
  }

  /** A run whose streams read the same although the chunking decides what is replaced. */
  lemma RunCoincides(dsn: Bytes, principal: Bytes)
    requires dsn == Tail() + [0x7a] + Tail() && principal == [0x7a] + Tail()
    ensures PrivateSecrets(Triple(0x7a, Tail()), dsn, principal)
    ensures SameOutput(Triple(0x7a, Tail())) && !LongChainsYield(Triple(0x7a, Tail()))
  {
    TailFacts();
    FirstDsn();
    SecondDsn();
    TripleIsPrivate(0x7a, Tail(), dsn, principal);
    SameOutputOtherSecrets(0x7a, Tail());
  }
}
