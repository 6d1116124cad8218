/** Copying one table to the migration destination in batches bounded by row count
    and by runtime bytes. */
module TableCopy {
  import opened Wrappers

  const ROWS := 200
  const BYTES := 4 * 1024 * 1024

  /** A converted row and the runtime bytes it is charged. */
  datatype Item<R> = Item(record: R, bytes: nat)

  function Concat<R>(batches: seq<seq<Item<R>>>): seq<Item<R>> {
    if batches == [] then [] else Concat(batches[..|batches| - 1]) + batches[|batches| - 1]
  }

  function Size<R>(batch: seq<Item<R>>): nat {
    if batch == [] then 0 else Size(batch[..|batch| - 1]) + batch[|batch| - 1].bytes
  }

  /** At most 200 rows; more bytes than the bound only in a single row. */
  predicate Fits<R>(batch: seq<Item<R>>) {
    |batch| <= ROWS && (Size(batch) <= BYTES || |batch| == 1)
  }

  predicate AllFit<R>(batches: seq<seq<Item<R>>>) {
    forall i :: 0 <= i < |batches| ==> batches[i] != [] && Fits(batches[i])
  }

  /** A batch ends only when it is full or when the next row would not fit. */
  predicate Closed<R>(batch: seq<Item<R>>, next: seq<Item<R>>) {
    |batch| == ROWS || (next != [] && Size(batch) + next[0].bytes > BYTES)
  }

  predicate Justified<R>(batches: seq<seq<Item<R>>>) {
    forall i :: 0 <= i < |batches| - 1 ==> Closed(batches[i], batches[i + 1])
  }

  function Records<R>(items: seq<Item<R>>): seq<R> {
    seq(|items|, i requires 0 <= i < |items| => items[i].record)
  }

  predicate Converts<Raw, R>(source: seq<Raw>, convert: Raw -> Result<Item<R>>) {
    forall i :: 0 <= i < |source| ==> convert(source[i]).Ok?
  }

  /** The converted rows in source order, each once. */
  function Transformed<Raw, R>(source: seq<Raw>, convert: Raw -> Result<Item<R>>): seq<Item<R>>
    requires Converts(source, convert)
  {
    seq(|source|, i requires 0 <= i < |source| => convert(source[i]).value)
  }

  lemma ConcatSnoc<R>(batches: seq<seq<Item<R>>>, batch: seq<Item<R>>)
    ensures Concat(batches + [batch]) == Concat(batches) + batch
    ensures AllFit(batches) && batch != [] && Fits(batch) ==> AllFit(batches + [batch])
  {
    assert (batches + [batch])[..|batches|] == batches;
  }

  lemma SizeSnoc<R>(batch: seq<Item<R>>, item: Item<R>)
    ensures Size(batch + [item]) == Size(batch) + item.bytes
  {
    assert (batch + [item])[..|batch|] == batch;
  }

  lemma RecordsConcat<R>(a: seq<Item<R>>, b: seq<Item<R>>)
    ensures Records(a + b) == Records(a) + Records(b)
  {
  }

  /** Growing the open batch keeps every closed one justified. */
  lemma JustifiedGrows<R>(batches: seq<seq<Item<R>>>, batch: seq<Item<R>>, item: Item<R>)
    requires Justified(batches + [batch])
    requires batch == [] && batches != [] ==>
               |batches[|batches| - 1]| == ROWS || Size(batches[|batches| - 1]) + item.bytes > BYTES
    ensures Justified(batches + [batch + [item]])
  {
    var was, after := batches + [batch], batches + [batch + [item]];
    forall i | 0 <= i < |after| - 1
      ensures Closed(after[i], after[i + 1])
    {
      assert Closed(was[i], was[i + 1]) || (i == |batches| - 1 && batch == []);
      assert after[i] == was[i];
      if i == |batches| - 1 && batch != [] {
        assert (batch + [item])[0] == batch[0];
      }
    }
  }

  /** Closing the open batch, full or not, leaves the closed ones justified. */
  lemma JustifiedCloses<R>(batches: seq<seq<Item<R>>>, batch: seq<Item<R>>)
    requires Justified(batches + [batch])
    ensures Justified(batches)
    ensures |batch| == ROWS ==> Justified(batches + [batch] + [[]])
  {
    var was, after := batches + [batch], batches + [batch] + [[]];
    assert forall i :: 0 <= i < |batches| ==> batches[i] == was[i];
    assert forall i :: 0 <= i < |was| ==> after[i] == was[i];
    forall i | 0 <= i < |batches| - 1
      ensures Closed(batches[i], batches[i + 1])
    {
      assert Closed(was[i], was[i + 1]);
    }
  }

  /** A batch that the next row would overfill may be followed by that row. */
  lemma JustifiedNext<R>(batches: seq<seq<Item<R>>>, batch: seq<Item<R>>, item: Item<R>)
    requires Justified(batches + [batch]) && Size(batch) + item.bytes > BYTES
    ensures Justified(batches + [batch] + [[] + [item]]) && Fits([] + [item])
  {
    var was, after := batches + [batch], batches + [batch] + [[] + [item]];
    forall i | 0 <= i < |after| - 1
      ensures Closed(after[i], after[i + 1])
    {
      assert after[i] == was[i];
      if i < |was| - 1 {
        assert Closed(was[i], was[i + 1]);
      }
    }
  }

  /** Rows that each stay within the bound never make an oversized batch. */
  lemma SmallRowsSmallBatches<R>(batches: seq<seq<Item<R>>>, i: nat)
    requires AllFit(batches) && i < |batches|
    requires forall k :: 0 <= k < |batches[i]| ==> batches[i][k].bytes <= BYTES
    ensures Size(batches[i]) <= BYTES
  {
    if |batches[i]| == 1 {
      assert Size(batches[i][..0]) == 0 && Size(batches[i]) == Size(batches[i][..0]) + batches[i][0].bytes;
    }
  }

  lemma Regroup<R>(a: seq<R>, b: seq<R>, c: seq<R>)
    ensures (a + b) + c == a + (b + c)
  {
  }

  lemma FrontAndBack<T>(s: seq<T>, n: nat)
    requires 0 < n == |s| - 1
    ensures s[..n][0] == s[0] && s[..n][1..] == s[1..][..n - 1] && s[1..][n - 1] == s[n] && |s[1..]| == n
  {
  }

  lemma Single<T>(x: seq<T>)
    ensures x + [] == x && [] + x == x
  {
  }

  lemma {:induction false} ConcatFront<R>(batches: seq<seq<Item<R>>>)
    requires batches != []
    ensures Concat(batches) == batches[0] + Concat(batches[1..])
    decreases |batches|
  {
    var n := |batches| - 1;
    var first, last, rest := batches[0], batches[n], batches[1..];
    if n == 0 {
      assert batches[..0] == [] && rest == [];
      Single(first);
    } else {
      FrontAndBack(batches, n);
      ConcatFront(batches[..n]);
      var middle := Concat(rest[..n - 1]);
      Regroup(first, middle, last);
      assert Concat(batches) == (first + middle) + last && Concat(rest) == middle + last;
    }
  }

  lemma {:induction false} SizeGrows<R>(batch: seq<Item<R>>, n: nat)
    requires n <= |batch|
    ensures Size(batch[..n]) <= Size(batch)
  {
    if n == |batch| {
      assert batch[..n] == batch;
    } else {
      assert batch[..|batch| - 1][..n] == batch[..n];
      SizeGrows(batch[..|batch| - 1], n);
    }
  }

  /** Each INSERT carries 1 to 200 rows and more than 4194304 bytes only in a single row,
      and it ends only because a row more would have broken one of the two bounds. */
  lemma BatchBounds<R>(batches: seq<seq<Item<R>>>, i: nat)
    requires AllFit(batches) && Justified(batches) && i < |batches|
    ensures 1 <= |batches[i]| <= 200 && (|batches[i]| == 1 || Size(batches[i]) <= 4194304)
    ensures i + 1 < |batches| ==> |batches[i]| == 200 || Size(batches[i] + [batches[i + 1][0]]) > 4194304
  {
    if i + 1 < |batches| {
      assert Closed(batches[i], batches[i + 1]);
      SizeSnoc(batches[i], batches[i + 1][0]);
    }
  }

  lemma Overlap<T>(x: seq<T>, y: seq<T>, u: seq<T>, v: seq<T>)
    requires x + y == u + v && |x| < |u|
    ensures y != [] && u[..|x|] == x && u[|x|] == y[0]
  {
    var all := x + y;
    assert all[..|u|] == u && all[..|x|] == x && all[|x|..] == y;
    assert all[|x|] == u[|x|];
  }

  /** The row after a shorter first batch opens its second batch. */
  lemma NextFirst<R>(a: seq<seq<Item<R>>>, b: seq<seq<Item<R>>>)
    requires AllFit(a) && a != [] && b != [] && Concat(a) == Concat(b) && |a[0]| < |b[0]|
    ensures |a| > 1 && b[0][..|a[0]|] == a[0] && b[0][|a[0]|] == a[1][0]
  {
    ConcatFront(a);
    ConcatFront(b);
    Overlap(a[0], Concat(a[1..]), b[0], Concat(b[1..]));
    assert a[1..] != [];
    ConcatFront(a[1..]);
  }

  lemma Overfull<R>(batch: seq<Item<R>>, n: nat)
    requires 0 < n < |batch| && (n == ROWS || Size(batch[..n]) + batch[n].bytes > BYTES)
    ensures !Fits(batch)
  {
    assert batch[..n + 1] == batch[..n] + [batch[n]];
    SizeSnoc(batch[..n], batch[n]);
    SizeGrows(batch, n + 1);
  }

  /** A batch that could have taken the next row was not closed. */
  lemma NoShorterFirst<R>(a: seq<seq<Item<R>>>, b: seq<seq<Item<R>>>)
    requires AllFit(a) && AllFit(b) && Justified(a) && a != [] && b != [] && Concat(a) == Concat(b)
    ensures |a[0]| >= |b[0]|
  {
    if |a[0]| < |b[0]| {
      NextFirst(a, b);
      assert Closed(a[0], a[1]);
      Overfull(b[0], |a[0]|);
      assert false;
    }
  }

  /** The rules leave one way to batch: the rows and the two bounds decide it. */
  lemma {:induction false} BatchingUnique<R>(a: seq<seq<Item<R>>>, b: seq<seq<Item<R>>>)
    requires AllFit(a) && AllFit(b) && Justified(a) && Justified(b) && Concat(a) == Concat(b)
    ensures a == b
    decreases |a|
  {
    if a != [] && b != [] {
      NoShorterFirst(a, b);
      NoShorterFirst(b, a);
      ConcatFront(a);
      ConcatFront(b);
      assert a[0] == Concat(a)[..|a[0]|] == b[0];
      assert Concat(a[1..]) == Concat(a)[|a[0]|..] == Concat(b[1..]);
      TailRules(a);
      TailRules(b);
      BatchingUnique(a[1..], b[1..]);
      assert a == [a[0]] + a[1..] && b == [b[0]] + b[1..];
    } else if a != [] {
      ConcatFront(a);
    } else if b != [] {
      ConcatFront(b);
    }
  }

  lemma TailRules<R>(a: seq<seq<Item<R>>>)
    requires AllFit(a) && Justified(a) && a != []
    ensures AllFit(a[1..]) && Justified(a[1..])
  {
    forall i | 0 <= i < |a[1..]| - 1
      ensures Closed(a[1..][i], a[1..][i + 1])
    {
      assert Closed(a[i + 1], a[i + 2]);
    }
  }

  predicate Written<R(==)>(before: seq<R>, rows: seq<R>, batches: seq<seq<Item<R>>>) {
    rows == before + Records(Concat(batches)) && AllFit(batches)
  }

  lemma WrittenSnoc<R>(before: seq<R>, rows: seq<R>, batches: seq<seq<Item<R>>>, batch: seq<Item<R>>)
    requires Written(before, rows, batches) && batch != [] && Fits(batch)
    ensures Written(before, rows + Records(batch), batches + [batch])
  {
    ConcatSnoc(batches, batch);
    RecordsConcat(Concat(batches), batch);
    Regroup(before, Records(Concat(batches)), Records(batch));
  }

  lemma CountsAgree<R>(before: seq<R>, rows: seq<R>, batches: seq<seq<Item<R>>>, items: seq<Item<R>>)
    requires Written(before, rows, batches) && Concat(batches) == items
    ensures |rows| == |before| + |items|
  {
  }

  /** The destination table. `batches` lists the INSERT statements of this copy that
      succeeded; `accepts` is how many more of its `capacity` the database will take,
      and it refuses one only when none is left. */
  class Target<R> {
    ghost const before: seq<R>
    ghost const capacity: nat
    ghost var batches: seq<seq<Item<R>>>
    var rows: seq<R>
    var accepts: nat
    var refused: bool

    ghost predicate Valid()
      reads this
    {
      Written(before, rows, batches) && |batches| + accepts == capacity && (refused ==> accepts == 0)
    }

    constructor (rows: seq<R>, accepts: nat)
      ensures Valid() && this.rows == rows == before && batches == [] && !refused
      ensures this.accepts == accepts == capacity
    {
      before, this.rows, batches, refused := rows, rows, [], false;
      capacity, this.accepts := accepts, accepts;
    }

    method Create(batch: seq<Item<R>>) returns (ok: bool)
      requires Valid() && batch != [] && Fits(batch)
      modifies this
      ensures Valid()
      ensures ok <==> old(accepts) > 0
      ensures refused == (old(refused) || !ok)
      ensures batches == if ok then old(batches) + [batch] else old(batches)
    {
      if accepts == 0 {
        refused := true;
        return false;
      }
      WrittenSnoc(before, rows, batches, batch);
      accepts := accepts - 1;
      rows := rows + Records(batch);
      batches := batches + [batch];
      ok := true;
    }

    /** What a copy has written so far, and its open batch. */
    ghost predicate Open(batch: seq<Item<R>>, bytes: nat)
      reads this
    {
      && bytes == Size(batch) && Valid() && !refused && |batch| < ROWS && Fits(batch) && Justified(batches + [batch])
      && (batch == [] && batches != [] ==> |batches[|batches| - 1]| == ROWS)
    }

    /** The open batch is written and emptied when the next row does not fit. */
    method FlushBefore(batch: seq<Item<R>>, bytes: nat, item: Item<R>)
      returns (ok: bool, next: seq<Item<R>>, size: nat)
      requires Open(batch, bytes)
      modifies this
      ensures Valid() && refused == !ok && Justified(batches)
      ensures ok ==> size == Size(next) && |next| < ROWS && Fits(next + [item]) && Justified(batches + [next + [item]])
      ensures ok ==> Concat(batches) + next == old(Concat(batches)) + batch
    {
      ok, next, size := true, batch, bytes;
      SizeSnoc(batch, item);
      JustifiedCloses(batches, batch);
      ghost var was := batches;
      if bytes + item.bytes > BYTES && batch != [] {
        JustifiedNext(was, batch, item);
        ConcatSnoc(was, batch);
        ok := Create(batch);
        next, size := [], 0;
        assert ok ==> Concat(batches) + [] == Concat(was) + batch;
      } else {
        JustifiedGrows(batches, batch, item);
      }
    }

    /** A full batch is written and emptied. */
    method FlushFull(batch: seq<Item<R>>, bytes: nat) returns (ok: bool, next: seq<Item<R>>, size: nat)
      requires Valid() && !refused && Justified(batches + [batch])
      requires batch != [] && Fits(batch) && bytes == Size(batch)
      modifies this
      ensures Valid() && refused == !ok && Justified(batches)
      ensures ok ==> Open(next, size) && Concat(batches) + next == old(Concat(batches)) + batch
    {
      ok, next, size := true, batch, bytes;
      JustifiedCloses(batches, batch);
      if |batch| == ROWS {
        ghost var was := batches;
        ok := Create(batch);
        ConcatSnoc(was, batch);
        next, size := [], 0;
        assert Concat(batches) + [] == Concat(batches);
      }
    }

    /** One converted row: flush, append, and flush again once the batch is full. */
    method Append(batch: seq<Item<R>>, bytes: nat, item: Item<R>)
      returns (ok: bool, next: seq<Item<R>>, size: nat)
      requires Open(batch, bytes)
      modifies this
      ensures Valid() && refused == !ok && Justified(batches)
      ensures ok ==> Open(next, size) && Concat(batches) + next == old(Concat(batches)) + batch + [item]
    {
      ok, next, size := FlushBefore(batch, bytes, item);
      if !ok {
        return;
      }
      assert Concat(batches) + (next + [item]) == Concat(batches) + next + [item];
      SizeSnoc(next, item);
      next, size := next + [item], size + item.bytes;
      ok, next, size := FlushFull(next, size);
    }

    /** The last, partial batch. */
    method Finish(batch: seq<Item<R>>, ghost bytes: nat) returns (ok: bool)
      requires Open(batch, bytes)
      modifies this
      ensures Valid() && refused == !ok && Justified(batches)
      ensures ok ==> Concat(batches) == old(Concat(batches)) + batch
    {
      JustifiedCloses(batches, batch);
      ok := true;
      if |batch| > 0 {
        ConcatSnoc(batches, batch);
        ok := Create(batch);
      }
    }

    /** Success means every row was converted, every INSERT was taken and both
        tables count the same; then the batches are exactly the converted rows. */
    method CopyTableRows<Raw>(source: seq<Raw>, convert: Raw -> Result<Item<R>>, intact: bool, sourceCount: nat)
      returns (ok: bool)
      requires Valid() && batches == [] && !refused
      modifies this
      ensures Valid() && Justified(batches)
      ensures ok <==> Converts(source, convert) && intact && !refused && sourceCount == |rows|
      ensures ok ==> Concat(batches) == Transformed(source, convert)
      ensures sourceCount == |source| ==>
                (ok <==> Converts(source, convert) && intact && !refused && before == [])
    {
      var batch: seq<Item<R>>, bytes := [], 0;
      for i := 0 to |source|
        invariant Open(batch, bytes) && Converts(source[..i], convert)
        invariant Concat(batches) + batch == Transformed(source[..i], convert)
      {
        JustifiedCloses(batches, batch);
        var item := convert(source[i]);
        if item.Err? {
          return false;
        }
        TransformedSnoc(source, convert, i);
        ok, batch, bytes := Append(batch, bytes, item.value);
        if !ok {
          return;
        }
      }
      assert source[..|source|] == source;
      JustifiedCloses(batches, batch);
      if !intact {
        return false;
      }
      ok := Finish(batch, bytes);
      if !ok {
        return;
      }
      CountsAgree(before, rows, batches, Transformed(source, convert));
      ok := sourceCount == |rows|;
    }
  }

  lemma TransformedSnoc<Raw, R>(source: seq<Raw>, convert: Raw -> Result<Item<R>>, i: nat)
    requires i < |source| && Converts(source[..i], convert) && convert(source[i]).Ok?
    ensures Converts(source[..i + 1], convert)
    ensures Transformed(source[..i + 1], convert) == Transformed(source[..i], convert) + [convert(source[i]).value]
  {
    assert source[..i + 1] == source[..i] + [source[i]];
  }
}
