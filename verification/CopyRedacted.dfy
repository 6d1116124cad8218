/** The streaming copy: chunks are appended to a pending text, a cut is moved
    out of every secret that straddles it, and what lies before it is redacted
    and written. */
module CopyRedacted {
  import opened Redaction

  function Keep(secrets: seq<Bytes>): (k: nat)
    requires NonEmpty(secrets)
    ensures forall s :: s in secrets ==> |s| <= k + 1
    ensures secrets != [] ==> exists s :: s in secrets && |s| == k + 1
    ensures secrets == [] ==> k == 0
  {
    if secrets == [] then 0
    else if |secrets| == 1 then
      assert secrets[0] in secrets;
      |secrets[0]| - 1
    else
      assert secrets[0] in secrets && secrets == [secrets[0]] + secrets[1..];
      assert forall s :: s in secrets <==> s == secrets[0] || s in secrets[1..];
      var rest := Keep(secrets[1..]);
      if |secrets[0]| - 1 > rest then |secrets[0]| - 1 else rest
  }

  /** Where scanning starts: all of it at the end of the stream, otherwise all
      but the bytes in which a secret may still be incomplete. */
  function FirstCut(pending: Bytes, secrets: seq<Bytes>): nat
    requires NonEmpty(secrets)
  {
    if |pending| <= Keep(secrets) then 0 else |pending| - Keep(secrets)
  }

  /** The least clean cut at or after `c`. */
  ghost function CleanFrom(x: Bytes, secrets: seq<Bytes>, c: nat): (r: nat)
    requires c <= |x|
    ensures c <= r <= |x| && Clean(x, secrets, r)
    ensures forall d :: c <= d < r ==> !Clean(x, secrets, d)
    decreases |x| - c
  {
    if c == |x| || Clean(x, secrets, c) then c else CleanFrom(x, secrets, c + 1)
  }

  ghost function Cut(pending: Bytes, secrets: seq<Bytes>): (c: nat)
    requires NonEmpty(secrets)
    ensures c <= |pending|
  {
    CleanFrom(pending, secrets, FirstCut(pending, secrets))
  }

  /** The pieces a run emits before redaction; the last read returns no bytes. */
  ghost function Segments(pending: Bytes, chunks: seq<Bytes>, secrets: seq<Bytes>): seq<Bytes>
    requires NonEmpty(secrets)
    decreases |chunks|
  {
    if chunks == [] then [pending]
    else
      var p := pending + chunks[0];
      var c := Cut(p, secrets);
      [p[..c]] + Segments(p[c..], chunks[1..], secrets)
  }

  function Redacted(segments: seq<Bytes>, secrets: seq<Bytes>): Bytes
    requires NonEmpty(secrets)
  {
    if segments == [] then [] else ReplaceAll(segments[0], secrets) + Redacted(segments[1..], secrets)
  }

  // -------------------------------------------------------------- any secrets

  lemma ConcatCons(a: Bytes, rest: seq<Bytes>)
    ensures Concat([a] + rest) == a + Concat(rest)
  {
    assert ([a] + rest)[1..] == rest;
  }

  /** Whatever the secrets are, the emitted pieces are the bytes that were read. */
  lemma {:induction false} SegmentsConcatenate(pending: Bytes, chunks: seq<Bytes>, secrets: seq<Bytes>)
    requires NonEmpty(secrets)
    ensures Concat(Segments(pending, chunks, secrets)) == pending + Concat(chunks)
    decreases |chunks|
  {
    if chunks == [] {
      ConcatCons(pending, []);
    } else {
      var p := pending + chunks[0];
      var c := Cut(p, secrets);
      SegmentsConcatenate(p[c..], chunks[1..], secrets);
      ConcatCons(p[..c], Segments(p[c..], chunks[1..], secrets));
      CutRejoins(pending, chunks[0], c, Concat(chunks[1..]));
    }
  }

  lemma CutRejoins(pending: Bytes, chunk: Bytes, c: nat, future: Bytes)
    requires c <= |pending + chunk|
    ensures (pending + chunk)[..c] + ((pending + chunk)[c..] + future) == pending + (chunk + future)
    ensures (pending + chunk)[..c] + ((pending + chunk)[c..] + future) == (pending + chunk) + future
  {
  }

  /** No occurrence of a secret in the whole text straddles a boundary between
      two emitted pieces. */
  ghost predicate Intact(segments: seq<Bytes>, secrets: seq<Bytes>) {
    forall j :: 0 <= j <= |segments| ==> Clean(Concat(segments), secrets, |Concat(segments[..j])|)
  }

  lemma IntactHead(segments: seq<Bytes>, secrets: seq<Bytes>)
    requires segments != [] && Intact(segments, secrets)
    ensures Clean(segments[0] + Concat(segments[1..]), secrets, |segments[0]|)
  {
    assert segments[..1][1..] == [];
    assert Concat(segments[..1]) == segments[0];
  }

  lemma IntactTail(segments: seq<Bytes>, secrets: seq<Bytes>)
    requires segments != [] && Intact(segments, secrets)
    ensures Intact(segments[1..], secrets)
  {
    forall j | 0 <= j < |segments|
      ensures Clean(Concat(segments[1..]), secrets, |Concat(segments[1..][..j])|)
    {
      assert segments[..j + 1][0] == segments[0] && segments[..j + 1][1..] == segments[1..][..j];
      forall s | s in secrets {
        ClearShifts(segments[0], Concat(segments[1..]), s, |Concat(segments[1..][..j])|);
      }
    }
  }

  lemma IntactCons(a: Bytes, rest: seq<Bytes>, secrets: seq<Bytes>)
    requires Intact(rest, secrets) && Clean(a + Concat(rest), secrets, |a|)
    ensures Intact([a] + rest, secrets)
  {
    var all := [a] + rest;
    assert all[1..] == rest;
    forall j | 0 <= j <= |all|
      ensures Clean(Concat(all), secrets, |Concat(all[..j])|)
    {
      if j > 0 {
        assert all[..j][0] == a && all[..j][1..] == rest[..j - 1];
        forall s | s in secrets
          ensures Clear(a + Concat(rest), s, |a| + |Concat(rest[..j - 1])|)
        {
          LaterCutClear(a, Concat(rest), s, |Concat(rest[..j - 1])|);
        }
      }
    }
  }

  lemma LaterCutClear(a: Bytes, b: Bytes, s: Bytes, c: nat)
    requires Clear(a + b, s, |a|) && Clear(b, s, c)
    ensures Clear(a + b, s, |a| + c)
  {
    forall p | OccursAt(a + b, s, p)
      ensures !(p < |a| + c < p + |s|)
    {
      if |a| <= p {
        OccursShifted(a, b, s, p - |a|);
      }
    }
  }

  // ----------------------------------------------------- when nothing is split

  /** The last `k` bytes of `t` are the first `k` bytes of `s`. */
  predicate Border(t: Bytes, s: Bytes, k: int) {
    0 < k < |t| && k < |s| && t[|t| - k..] == s[..k]
  }

  predicate BorderFree(secrets: seq<Bytes>) {
    forall t, s :: t in secrets && s in secrets ==> forall k :: 0 < k < |t| ==> !Border(t, s, k)
  }

  /** A cut chosen without seeing the future splits no future occurrence. */
  lemma CutSplitsNothing(p: Bytes, future: Bytes, secrets: seq<Bytes>)
    requires NonEmpty(secrets) && BorderFree(secrets)
    ensures Clean(p + future, secrets, Cut(p, secrets))
  {
    var c := Cut(p, secrets);
    forall s, q | s in secrets && OccursAt(p + future, s, q)
      ensures !(q < c < q + |s|)
    {
      if q < c < q + |s| {
        if q + |s| <= |p| {
          OccursInPrefix(p, future, s, q);
        } else {
          assert FirstCut(p, secrets) <= q;
          assert !Clean(p, secrets, q);
          var t, r :| t in secrets && OccursAt(p, t, r) && r < q < r + |t|;
          OverlapIsBorder(p, future, t, r, s, q);
        }
        assert false;
      }
    }
  }

  lemma OverlapIsBorder(p: Bytes, future: Bytes, t: Bytes, r: int, s: Bytes, q: int)
    requires OccursAt(p, t, r) && OccursAt(p + future, s, q) && r < q < r + |t| <= |p| < q + |s|
    ensures Border(t, s, r + |t| - q)
  {
    var k := r + |t| - q;
    assert t[|t| - k..] == p[r..r + |t|][|t| - k..] == p[q..q + k];
    assert s[..k] == (p + future)[q..q + |s|][..k] == p[q..q + k];
  }

  lemma LastPieceIntact(pending: Bytes, secrets: seq<Bytes>)
    ensures Intact([pending], secrets)
  {
    assert pending + Concat([]) == pending;
    IntactCons(pending, [], secrets);
  }

  /** Border-free secrets are never split, however the stream is chunked. */
  lemma {:induction false} BorderFreeIsIntact(pending: Bytes, chunks: seq<Bytes>, secrets: seq<Bytes>)
    requires NonEmpty(secrets) && BorderFree(secrets)
    ensures Intact(Segments(pending, chunks, secrets), secrets)
    decreases |chunks|
  {
    if chunks == [] {
      LastPieceIntact(pending, secrets);
    } else {
      var p := pending + chunks[0];
      var c := Cut(p, secrets);
      var rest := Segments(p[c..], chunks[1..], secrets);
      BorderFreeIsIntact(p[c..], chunks[1..], secrets);
      SegmentsConcatenate(p[c..], chunks[1..], secrets);
      CutSplitsNothing(p, Concat(chunks[1..]), secrets);
      CutRejoins(pending, chunks[0], c, Concat(chunks[1..]));
      IntactCons(p[..c], rest, secrets);
    }
  }

  // ------------------------------------------------------ when something is split

  /** A text in which every inner position lies inside an occurrence of `t`. */
  ghost predicate Covered(x: Bytes, t: Bytes) {
    forall c :: 0 < c < |x| ==> !Clear(x, t, c)
  }

  /** `t` overlapped with itself over its border, n more times. */
  function Chain(t: Bytes, k: nat, n: nat): Bytes
    requires 0 < k < |t|
  {
    if n == 0 then t else t[..|t| - k] + Chain(t, k, n - 1)
  }

  lemma {:induction false} ChainCovered(t: Bytes, k: nat, n: nat)
    requires Border(t, t, k)
    ensures |Chain(t, k, n)| >= |t| + n && StartsWith(Chain(t, k, n), t) && Covered(Chain(t, k, n), t)
  {
    if n == 0 {
      assert OccursAt(t, t, 0);
    } else {
      var d, rest := |t| - k, Chain(t, k, n - 1);
      ChainCovered(t, k, n - 1);
      var x := t[..d] + rest;
      assert x[..|t|] == t[..d] + rest[..k] == t[..d] + t[..k] == t;
      assert OccursAt(x, t, 0);
      forall c | 0 < c < |x|
        ensures !Clear(x, t, c)
      {
        if c >= |t| {
          ClearShiftsBack(t[..d], rest, t, c - d);
        }
      }
    }
  }

  lemma ClearShiftsBack(a: Bytes, b: Bytes, t: Bytes, c: int)
    requires !Clear(b, t, c)
    ensures !Clear(a + b, t, |a| + c)
  {
    var p :| OccursAt(b, t, p) && p < c < p + |t|;
    OccursShifted(a, b, t, p);
    assert OccursAt(a + b, t, |a| + p);
  }

  lemma ConcatPair(a: Bytes, b: Bytes)
    ensures Concat([a, b]) == a + b
  {
    assert [a, b] == [a] + [b] && [b] == [b] + [];
    ConcatCons(a, [b]);
    ConcatCons(b, []);
    assert b + Concat([]) == b;
  }

  lemma IntactMeansClear(first: Bytes, second: Bytes, secrets: seq<Bytes>, s: Bytes)
    requires NonEmpty(secrets) && s in secrets
    ensures Intact(Segments([], [first, second], secrets), secrets) ==>
              Clear(first + second, s, Cut(first, secrets))
  {
    var chunks := [first, second];
    var c := Cut(first, secrets);
    var segments := Segments([], chunks, secrets);
    assert [] + first == first;
    assert segments[0] == first[..c];
    if Intact(segments, secrets) {
      SegmentsConcatenate([], chunks, secrets);
      ConcatPair(first, second);
      IntactHead(segments, secrets);
      assert segments[0] + Concat(segments[1..]) == Concat(segments) == [] + (first + second) == first + second;
    }
  }

  /** Two reads whose first emission boundary splits an occurrence. */
  lemma TwoReadsSplit(first: Bytes, second: Bytes, secrets: seq<Bytes>, s: Bytes)
    requires NonEmpty(secrets) && s in secrets
    requires !Clear(first + second, s, Cut(first, secrets))
    ensures !Intact(Segments([], [first, second], secrets), secrets)
  {
    IntactMeansClear(first, second, secrets, s);
  }

  lemma OverlapOccurs(t: Bytes, s: Bytes, k: int, m: nat)
    requires Border(t, s, k) && |t| <= m
    ensures OccursAt(t + s[k..], s, |t| - k)
    ensures m <= |t + s[k..]| ==> OccursAt((t + s[k..])[..m], t, 0)
  {
    var x, q := t + s[k..], |t| - k;
    assert x[q..q + |s|] == t[q..] + s[k..] == s[..k] + s[k..] == s;
    if m <= |x| {
      assert x[..m][..|t|] == t;
    }
  }

  lemma KeepOfTwo(x: Bytes, y: Bytes)
    requires x != [] && y != []
    ensures Keep([x, y]) + 1 == if |x| > |y| then |x| else |y|
  {
    assert [x, y][1..] == [y];
  }

  // -------------------------------------------------------------- the output

  /** Every secret but the first is replaced in a text that holds markers. */
  predicate MarkerSafe(secrets: seq<Bytes>) {
    forall i :: 1 <= i < |secrets| ==> Apart(secrets[i], Marker())
  }

  lemma {:induction false} ReplaceAllSplits(a: Bytes, b: Bytes, secrets: seq<Bytes>)
    requires NonEmpty(secrets) && MarkerSafe(secrets) && Clean(a + b, secrets, |a|)
    ensures ReplaceAll(a + b, secrets) == ReplaceAll(a, secrets) + ReplaceAll(b, secrets)
    decreases |secrets|
  {
    if secrets != [] {
      var s, rest, m := secrets[0], secrets[1..], Marker();
      assert s in secrets;
      ReplaceSplits(a, b, s, m);
      forall t | t in rest
        ensures t in secrets && Clear(Replace(a, s, m) + Replace(b, s, m), t, |Replace(a, s, m)|)
      {
        var i :| 0 <= i < |rest| && rest[i] == t;
        assert secrets[i + 1] == t;
        ReplaceKeepsClear(a, b, s, m, t);
      }
      ReplaceAllSplits(Replace(a, s, m), Replace(b, s, m), rest);
    }
  }

  lemma {:induction false} ReplaceAllEmpty(secrets: seq<Bytes>)
    requires NonEmpty(secrets)
    ensures ReplaceAll([], secrets) == []
    decreases |secrets|
  {
    if secrets != [] {
      assert secrets[0] in secrets && forall s :: s in secrets[1..] ==> s in secrets;
      assert Replace([], secrets[0], Marker()) == [];
      ReplaceAllEmpty(secrets[1..]);
    }
  }

  /** Pieces that split no secret redact to the redaction of the whole. */
  lemma {:induction false} IntactRedactsWhole(segments: seq<Bytes>, secrets: seq<Bytes>)
    requires NonEmpty(secrets) && MarkerSafe(secrets) && Intact(segments, secrets)
    ensures Redacted(segments, secrets) == ReplaceAll(Concat(segments), secrets)
    decreases |segments|
  {
    if segments == [] {
      ReplaceAllEmpty(secrets);
    } else {
      IntactHead(segments, secrets);
      IntactTail(segments, secrets);
      IntactRedactsWhole(segments[1..], secrets);
      ReplaceAllSplits(segments[0], Concat(segments[1..]), secrets);
    }
  }

  /** However a stream is chunked, the output is the replacement of the whole. */
  ghost predicate SameOutput(secrets: seq<Bytes>)
    requires NonEmpty(secrets)
  {
    forall chunks :: NonEmpty(chunks) ==>
                       Redacted(Segments([], chunks, secrets), secrets) == ReplaceAll(Concat(chunks), secrets)
  }

  /** Any number of secrets that do not overlap: however the stream is chunked, the
      output is the sequential replacement of the whole input. */
  lemma StreamingIsWholeReplacement(chunks: seq<Bytes>, secrets: seq<Bytes>)
    requires NonEmpty(secrets) && BorderFree(secrets) && MarkerSafe(secrets)
    ensures Redacted(Segments([], chunks, secrets), secrets) == ReplaceAll(Concat(chunks), secrets)
  {
    BorderFreeIsIntact([], chunks, secrets);
    SegmentsConcatenate([], chunks, secrets);
    IntactRedactsWhole(Segments([], chunks, secrets), secrets);
    assert [] + Concat(chunks) == Concat(chunks);
  }

  // ------------------------------------------------------------- the procedure

  /** A readable stream: an empty read is the end. */
  class Pipe {
    var chunks: seq<Bytes>

    constructor (chunks: seq<Bytes>)
      ensures this.chunks == chunks
    {
      this.chunks := chunks;
    }

    method Read() returns (chunk: Bytes)
      modifies this
      ensures old(chunks) == [] ==> chunk == [] && chunks == []
      ensures old(chunks) != [] ==> chunk == old(chunks)[0] && chunks == old(chunks)[1..]
    {
      if chunks == [] {
        chunk := [];
      } else {
        chunk := chunks[0];
        chunks := chunks[1..];
      }
    }
  }

  class Target {
    var written: Bytes

    constructor ()
      ensures written == []
    {
      written := [];
    }

    method Write(data: Bytes)
      modifies this
      ensures written == old(written) + data
    {
      written := written + data;
    }
  }

  // --------------------------------------------------------- which secrets

  /** str.rfind: the last position of `s`, or -1. */
  function FindLast(x: Bytes, s: Bytes, end: nat): (p: int)
    ensures p == -1 || (0 <= p < end && OccursAt(x, s, p))
    ensures forall q :: p < q < end ==> !OccursAt(x, s, q)
  {
    if end == 0 then -1
    else if OccursAt(x, s, end - 1) then end - 1
    else FindLast(x, s, end - 1)
  }

  /** b'@tcp(' */
  function Separator(): Bytes {
    [0x40, 0x74, 0x63, 0x70, 0x28]
  }

  /** The password of `account@tcp(`: what follows the account's first colon. */
  function Password(dsn: Bytes): (p: Bytes)
    ensures p != [] ==> |p| < |dsn| && exists i :: OccursAt(dsn, p, i)
  {
    var at := FindLast(dsn, Separator(), |dsn|);
    if at == -1 then []
    else
      var colon := Find(dsn[..at], [0x3a], 0);
      if colon == -1 then []
      else
        assert OccursAt(dsn, dsn[..at][colon + 1..], colon + 1);
        dsn[..at][colon + 1..]
  }

  /** The DSN and its password, longest first. */
  function SecretsFor(dsn: Bytes): (secrets: seq<Bytes>)
    ensures NonEmpty(secrets) && |secrets| <= 2
    ensures dsn != [] ==> secrets != [] && secrets[0] == dsn && Keep(secrets) == |dsn| - 1
    ensures |secrets| == 2 ==> |secrets[1]| < |dsn| && exists i :: OccursAt(dsn, secrets[1], i)
  {
    if dsn == [] then [] else if Password(dsn) == [] then [dsn] else [dsn, Password(dsn)]
  }

  /** The account ends at the last separator, and its password begins after its first
      colon and is not empty. */
  ghost predicate AccountOf(dsn: Bytes, user: Bytes, password: Bytes, rest: Bytes) {
    && dsn == user + [0x3a] + password + Separator() + rest
    && 0x3a !in user && password != []
    && forall p :: p > |user| + 1 + |password| ==> !OccursAt(dsn, Separator(), p)
  }

  lemma AccountSlices(dsn: Bytes, user: Bytes, password: Bytes, rest: Bytes)
    requires dsn == user + [0x3a] + password + Separator() + rest
    ensures var at := |user| + 1 + |password|;
            && OccursAt(dsn, Separator(), at)
            && dsn[..at] == user + [0x3a] + password && dsn[..at][|user| + 1..] == password
  {
    var at := |user| + 1 + |password|;
    assert dsn[..at] == user + [0x3a] + password;
    assert dsn[at..at + |Separator()|] == Separator();
  }

  lemma InPrefix(account: Bytes, user: Bytes, p: int)
    requires user <= account && 0 <= p < |user|
    ensures account[p] in user
  {
    assert account[p] == user[p];
  }

  lemma ColonAt(account: Bytes, user: Bytes, p: int)
    requires user <= account && OccursAt(account, [0x3a], p) && 0x3a !in user
    ensures p >= |user|
  {
    assert account[p..p + 1][0] == account[p];
    if p < |user| {
      InPrefix(account, user, p);
    }
  }

  lemma ColonFound(account: Bytes, user: Bytes, password: Bytes)
    requires account == user + [0x3a] + password && 0x3a !in user
    ensures Find(account, [0x3a], 0) == |user|
  {
    assert account[|user|..|user| + 1] == [0x3a];
    assert OccursAt(account, [0x3a], |user|);
    ColonAt(account, user, Find(account, [0x3a], 0));
  }

  /** What follows the first colon of the account is the second secret. */
  lemma AccountGives(dsn: Bytes, user: Bytes, password: Bytes, rest: Bytes)
    requires AccountOf(dsn, user, password, rest)
    ensures SecretsFor(dsn) == [dsn, password]
  {
    var at := |user| + 1 + |password|;
    AccountSlices(dsn, user, password, rest);
    assert FindLast(dsn, Separator(), |dsn|) == at;
    ColonFound(dsn[..at], user, password);
  }

  lemma NoColonBefore(account: Bytes, c: int)
    requires c == Find(account, [0x3a], 0) != -1
    ensures 0x3a !in account[..c] && account == account[..c] + [0x3a] + account[c + 1..]
  {
    forall i | 0 <= i < c
      ensures account[i] != 0x3a
    {
      assert !OccursAt(account, [0x3a], i);
      assert account[i..i + 1] == [account[i]];
    }
    assert account[c..c + 1] == [0x3a];
  }

  /** A second secret comes from such an account. */
  lemma AccountNeeded(dsn: Bytes) returns (user: Bytes, password: Bytes, rest: Bytes)
    requires Password(dsn) != []
    ensures AccountOf(dsn, user, password, rest)
  {
    var at := FindLast(dsn, Separator(), |dsn|);
    var account := dsn[..at];
    var c := Find(account, [0x3a], 0);
    NoColonBefore(account, c);
    user, password, rest := account[..c], account[c + 1..], dsn[at + |Separator()|..];
    assert dsn == account + dsn[at..at + |Separator()|] + rest;
    forall p | p > at
      ensures !OccursAt(dsn, Separator(), p)
    {
    }
  }

  /** For every connection string: its password is a secret exactly if the text before
      the last separator has a colon with something behind it. */
  lemma SecretsForExactly(dsn: Bytes)
    ensures forall user, password, rest :: AccountOf(dsn, user, password, rest) ==> SecretsFor(dsn) == [dsn, password]
    ensures (forall user, password, rest :: !AccountOf(dsn, user, password, rest)) ==>
              SecretsFor(dsn) == if dsn == [] then [] else [dsn]
  {
    forall user, password, rest | AccountOf(dsn, user, password, rest)
      ensures SecretsFor(dsn) == [dsn, password]
    {
      AccountGives(dsn, user, password, rest);
    }
    if Password(dsn) != [] {
      var user, password, rest := AccountNeeded(dsn);
    }
  }

  /** Moves the cut to the end of every occurrence it falls into, until a whole
      pass over the secrets moves it no more. */
  method SettleCut(pending: Bytes, secrets: seq<Bytes>, first: nat) returns (cut: nat)
    requires NonEmpty(secrets) && first <= |pending|
    ensures cut == CleanFrom(pending, secrets, first)
  {
    cut := first;
    var changed := true;
    while changed
      invariant first <= cut <= |pending|
      invariant forall d :: first <= d < cut ==> !Clean(pending, secrets, d)
      invariant !changed ==> Clean(pending, secrets, cut)
      decreases |pending| - cut, changed
    {
      changed := false;
      ghost var entry := cut;
      for i := 0 to |secrets|
        invariant entry <= cut <= |pending| && (changed <==> entry < cut)
        invariant forall d :: first <= d < cut ==> !Clean(pending, secrets, d)
        invariant !changed ==> forall j :: 0 <= j < i ==> Clear(pending, secrets[j], cut)
      {
        var secret := secrets[i];
        var start := Find(pending, secret, 0);
        while start != -1
          invariant start == -1 || OccursAt(pending, secret, start)
          invariant entry <= cut <= |pending| && (changed <==> entry < cut)
          invariant forall d :: first <= d < cut ==> !Clean(pending, secrets, d)
          invariant !changed ==> forall j :: 0 <= j < i ==> Clear(pending, secrets[j], cut)
          invariant !changed ==> forall p :: OccursAt(pending, secret, p) && (start == -1 || p < start) ==>
                                               !(p < cut < p + |secret|)
          decreases if start == -1 then 0 else |pending| + 1 - start
        {
          if start < cut < start + |secret| {
            forall d | cut <= d < start + |secret|
              ensures !Clean(pending, secrets, d)
            {
              assert !Clear(pending, secret, d);
            }
            cut := start + |secret|;
            changed := true;
          }
          start := Find(pending, secret, start + 1);
        }
        assert !changed ==> Clear(pending, secret, cut);
      }
    }
  }

  lemma RedactedCons(a: Bytes, rest: seq<Bytes>, secrets: seq<Bytes>)
    requires NonEmpty(secrets)
    ensures Redacted([a] + rest, secrets) == ReplaceAll(a, secrets) + Redacted(rest, secrets)
  {
    assert ([a] + rest)[1..] == rest;
  }

  /** What a run has still to write. */
  ghost function Owing(done: bool, pending: Bytes, chunks: seq<Bytes>, secrets: seq<Bytes>): Bytes
    requires NonEmpty(secrets)
  {
    if done then [] else Redacted(Segments(pending, chunks, secrets), secrets)
  }

  lemma WriteStep(pending: Bytes, chunks: seq<Bytes>, secrets: seq<Bytes>)
    requires NonEmpty(secrets)
    ensures chunks == [] ==> Owing(false, pending, chunks, secrets) == ReplaceAll(pending, secrets)
    ensures chunks != [] ==>
              var p := pending + chunks[0];
              var c := Cut(p, secrets);
              Owing(false, pending, chunks, secrets) ==
              ReplaceAll(p[..c], secrets) + Owing(false, p[c..], chunks[1..], secrets)
  {
    if chunks == [] {
      RedactedCons(pending, [], secrets);
      assert [pending] + [] == [pending];
      assert ReplaceAll(pending, secrets) + [] == ReplaceAll(pending, secrets);
    } else {
      var p := pending + chunks[0];
      var c := Cut(p, secrets);
      RedactedCons(p[..c], Segments(p[c..], chunks[1..], secrets), secrets);
    }
  }

  /** How much of the pending text is written now: all of it at the end of the
      stream, otherwise up to the settled cut. */
  method Emit(text: Bytes, last: bool, secrets: seq<Bytes>) returns (cut: nat)
    requires NonEmpty(secrets)
    ensures cut == if last then |text| else Cut(text, secrets)
  {
    var keep := Keep(secrets);
    var first := if last then |text| else if |text| <= keep then 0 else |text| - keep;
    cut := SettleCut(text, secrets, first);
  }

  /** One read and one write. */
  method CopyChunk(pipe: Pipe, target: Target, secrets: seq<Bytes>, pending: Bytes) returns (rest: Bytes, done: bool)
    requires NonEmpty(secrets) && NonEmpty(pipe.chunks)
    modifies pipe, target
    ensures done <==> old(pipe.chunks) == []
    ensures NonEmpty(pipe.chunks) && pipe.chunks == if done then [] else old(pipe.chunks)[1..]
    ensures target.written + Owing(done, rest, pipe.chunks, secrets) ==
            old(target.written) + Owing(false, pending, old(pipe.chunks), secrets)
  {
    WriteStep(pending, pipe.chunks, secrets);
    if pipe.chunks != [] {
      assert pipe.chunks[0] in pipe.chunks && forall c :: c in pipe.chunks[1..] ==> c in pipe.chunks;
    }
    var chunk := pipe.Read();
    var text := pending + chunk;
    var cut := Emit(text, chunk == [], secrets);
    var ready := ReplaceAll(text[..cut], secrets);
    rest, done := text[cut..], chunk == [];
    if done {
      assert text[..cut] == pending;
    }
    Regroup(target.written, ready, Owing(done, rest, pipe.chunks, secrets));
    target.Write(ready);
  }

  /** Copies a pipe to a target. Every write is the redaction of one clean piece;
      where chunking does not matter the target receives exactly the redaction of
      everything that was read. */
  method CopyRedacted(pipe: Pipe, target: Target, secrets: seq<Bytes>)
    requires NonEmpty(secrets) && NonEmpty(pipe.chunks)
    modifies pipe, target
    ensures pipe.chunks == []
    ensures target.written == old(target.written) + Redacted(Segments([], old(pipe.chunks), secrets), secrets)
    ensures SameOutput(secrets) || (BorderFree(secrets) && MarkerSafe(secrets)) ==>
              target.written == old(target.written) + ReplaceAll(Concat(old(pipe.chunks)), secrets)
  {
    var pending: Bytes, done := [], false;
    while !done
      invariant NonEmpty(pipe.chunks) && (done ==> pipe.chunks == [])
      invariant target.written + Owing(done, pending, pipe.chunks, secrets)
                == old(target.written) + Owing(false, [], old(pipe.chunks), secrets)
      decreases !done, |pipe.chunks|
    {
      pending, done := CopyChunk(pipe, target, secrets, pending);
    }
    assert target.written + [] == target.written;
    if BorderFree(secrets) && MarkerSafe(secrets) {
      StreamingIsWholeReplacement(old(pipe.chunks), secrets);
    }
  }

  lemma OverlapCuts(a: Byte)
    ensures Cut([a, a, a], [[a, a]]) == 3 && Cut([a], [[a, a]]) == 0
  {
    var s: Bytes, x: Bytes := [a, a], [a, a, a];
    assert OccursAt(x, s, 1) && OccursAt(x, s, 0);
    assert !Clear(x, s, 2);
  }

  lemma OverlapPieces(a: Byte)
    ensures ReplaceAll([a, a, a], [[a, a]]) == Marker() + [a]
    ensures ReplaceAll([], [[a, a]]) == [] && ReplaceAll([a], [[a, a]]) == [a]
  {
    var s: Bytes, x: Bytes := [a, a], [a, a, a];
    ReplaceOnce(x, s);
    ReplaceOnce([], s);
    ReplaceOnce([a], s);
    assert x[2..] == [a];
  }

  /** A self-overlapping secret: the output depends on the chunking, and a secret
      of the whole text is emitted in part. */
  lemma ChunkingMatters(a: Byte)
    ensures Redacted(Segments([], [[a, a, a], [a]], [[a, a]]), [[a, a]]) == Marker() + [a, a]
    ensures ReplaceAll(Concat([[a, a, a], [a]]), [[a, a]]) == Marker() + Marker()
  {
    var x: Bytes := [a, a, a];
    OverlapCuts(a);
    OverlapPieces(a);
    TwoPieces(x, [a], [[a, a]]);
    assert (Marker() + [a]) + ([] + [a]) == Marker() + [a, a];
    ConcatPair(x, [a]);
    TwiceReplaced(a);
    assert x + [a] == [a, a, a, a];
  }

  lemma TwiceReplaced(a: Byte)
    ensures ReplaceAll([a, a, a, a], [[a, a]]) == Marker() + Marker()
  {
    var s: Bytes, y: Bytes := [a, a], [a, a, a, a];
    ReplaceOnce(y, s);
    assert y[2..] == s && s[2..] == [];
    assert Replace(s, s, Marker()) == Marker() + [];
  }

  lemma ReplaceOnce(x: Bytes, s: Bytes)
    requires s != []
    ensures ReplaceAll(x, [s]) == Replace(x, s, Marker())
  {
    assert [s][1..] == [];
  }

  lemma TwoPieces(x: Bytes, y: Bytes, secrets: seq<Bytes>)
    requires NonEmpty(secrets) && Cut(x, secrets) == |x| && Cut(y, secrets) == 0
    ensures Redacted(Segments([], [x, y], secrets), secrets) ==
            ReplaceAll(x, secrets) + (ReplaceAll([], secrets) + ReplaceAll(y, secrets))
  {
    assert [] + x == x && x[..|x|] == x && x[|x|..] == [] && [] + y == y && y[..0] == [] && y[0..] == y;
    assert [x, y][1..] == [y] && [y][1..] == [];
    WriteStep([], [x, y], secrets);
    WriteStep([], [y], secrets);
    WriteStep(y, [], secrets);
  }
}
