/** A delivery projection: one row per credential or per network entry, naming
    the node and configuration that last confirmed it. A row whose hash was
    blanked confirms nothing. */
module DeliveryTables {
  datatype Row<D> = Row(node: nat, deployment: nat, config: string, detail: D, at: int)

  type Table<D> = map<nat, Row<D>>

  /** A manifest target: the row's key and its delivered detail. */
  datatype Item<D> = Item(id: nat, detail: D)

  datatype Receipt = Receipt(node: nat, deployment: nat, config: string, at: int)

  function Ids<D>(items: seq<Item<D>>): set<nat> {
    set i | 0 <= i < |items| :: items[i].id
  }

  predicate Distinct<D>(items: seq<Item<D>>) {
    forall i, j :: 0 <= i < j < |items| ==> items[i].id != items[j].id
  }

  /** UPDATE ... SET config_sha256 = '' WHERE node_id = node. */
  function Blanked<D>(t: Table<D>, node: nat): Table<D> {
    map c | c in t :: if t[c].node == node then t[c].(config := "") else t[c]
  }

  function RowOf<D>(r: Receipt, item: Item<D>): Row<D> {
    Row(r.node, r.deployment, r.config, item.detail, r.at)
  }

  /** INSERT ... ON CONFLICT(key) DO UPDATE, row by row. */
  function Upserted<D>(t: Table<D>, r: Receipt, items: seq<Item<D>>): Table<D> {
    if items == [] then t
    else Upserted(t, r, items[..|items| - 1])[items[|items| - 1].id := RowOf(r, items[|items| - 1])]
  }

  function Replaced<D>(t: Table<D>, r: Receipt, items: seq<Item<D>>): Table<D> {
    Upserted(Blanked(t, r.node), r, items)
  }

  /** The keys whose row carries this node's hash. */
  function Carrying<D>(t: Table<D>, node: nat, config: string): set<nat> {
    set c | c in t && t[c].node == node && t[c].config == config
  }

  lemma {:induction false} UpsertedAt<D>(t: Table<D>, r: Receipt, items: seq<Item<D>>, c: nat)
    ensures c !in Ids(items) ==> (c in Upserted(t, r, items) <==> c in t)
    ensures c !in Ids(items) && c in t ==> Upserted(t, r, items)[c] == t[c]
    ensures c in Ids(items) ==>
              c in Upserted(t, r, items) && exists i :: 0 <= i < |items| && items[i].id == c
                                                        && Upserted(t, r, items)[c] == RowOf(r, items[i])
  {
    if items != [] {
      var n := |items| - 1;
      UpsertedAt(t, r, items[..n], c);
      if items[n].id != c {
        if c in Ids(items) {
          assert c in Ids(items[..n]);
        }
        if c in Ids(items[..n]) {
          var i :| 0 <= i < n && items[..n][i].id == c && Upserted(t, r, items[..n])[c] == RowOf(r, items[..n][i]);
          assert items[i].id == c && c in Ids(items);
        }
      }
    }
  }

  /** After one replacement exactly the items carry the node's hash, with their
      own details, and every other node keeps what the items did not take. */
  lemma ReplacedCarries<D>(t: Table<D>, r: Receipt, items: seq<Item<D>>, node: nat, config: string)
    requires r.config != "" && config != ""
    ensures Carrying(Replaced(t, r, items), node, config) ==
            if node == r.node && config == r.config then Ids(items)
            else if node == r.node then {}
            else Carrying(t, node, config) - Ids(items)
  {
    var after := Replaced(t, r, items);
    forall c
      ensures c in Carrying(after, node, config) <==>
              c in (if node == r.node && config == r.config then Ids(items)
                    else if node == r.node then {}
                    else Carrying(t, node, config) - Ids(items))
    {
      UpsertedAt(Blanked(t, r.node), r, items, c);
    }
  }

  lemma ReplacedDetail<D>(t: Table<D>, r: Receipt, items: seq<Item<D>>, i: nat)
    requires Distinct(items) && i < |items|
    ensures items[i].id in Replaced(t, r, items) && Replaced(t, r, items)[items[i].id] == RowOf(r, items[i])
  {
    assert items[i].id in Ids(items);
    UpsertedAt(Blanked(t, r.node), r, items, items[i].id);
  }

  lemma {:induction false} DistinctIds<D>(items: seq<Item<D>>)
    requires Distinct(items)
    ensures |Ids(items)| == |items|
  {
    if items != [] {
      var n := |items| - 1;
      DistinctIds(items[..n]);
      assert Ids(items) == Ids(items[..n]) + {items[n].id};
    }
  }

  lemma SubsetOfSameSize(a: set<nat>, b: set<nat>)
    requires a <= b && |a| == |b|
    ensures a == b
  {
    assert |b - a| == |b| - |a|;
  }

  lemma TakenTwice(x: set<nat>, a: set<nat>, b: set<nat>)
    ensures (x - a) - b == x - (a + b)
  {
  }

  /** All of `b` is left after taking `taken` exactly when none of it was taken. */
  lemma NothingTaken(b: set<nat>, taken: set<nat>)
    ensures |b - taken| == |b| <==> b !! taken
  {
    if b !! taken {
      assert b - taken == b;
    }
    if |b - taken| == |b| {
      SubsetOfSameSize(b - taken, b);
    }
  }
}
