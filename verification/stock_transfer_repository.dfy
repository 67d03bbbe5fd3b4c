/** Queries over the transfer log (by warehouse, by item, filtered listing, latest first)
    and the append that records a transfer. */
module StockTransferRepository {
  import opened Wrappers
  import opened Sequences
  import opened StockTransferModel
  import opened Database

  /** Whether a transfer leaves from or arrives at `warehouseId`. */
  predicate Involves(t: StockTransfer, warehouseId: int) {
    t.fromWarehouseId == warehouseId || t.toWarehouseId == warehouseId
  }

  /** `orderBy('transferred_at', 'desc')` holds: no record is later than one listed before it. */
  predicate LatestFirst(log: seq<StockTransfer>) {
    forall i, j :: 0 <= i < j < |log| ==> log[i].transferredAt >= log[j].transferredAt
  }

  /** Putting the head of a latest-first sequence in front of `rest`, the tail with a later-or-equal
      record inserted, gives a latest-first sequence holding the head, the tail and that record. */
  lemma InsertBehindHead(t: StockTransfer, sorted: seq<StockTransfer>, rest: seq<StockTransfer>)
    requires LatestFirst(sorted) && sorted != [] && t.transferredAt < sorted[0].transferredAt
    requires LatestFirst(rest) && multiset(rest) == multiset(sorted[1..]) + multiset{t} && |rest| == |sorted|
    requires rest[0] == t || (sorted[1..] != [] && rest[0] == sorted[1..][0])
    ensures LatestFirst([sorted[0]] + rest)
    ensures multiset([sorted[0]] + rest) == multiset(sorted) + multiset{t}
  {
    var r := [sorted[0]] + rest;
    assert sorted == [sorted[0]] + sorted[1..];
    assert multiset(r) == multiset{sorted[0]} + multiset(rest);
    assert sorted[0].transferredAt >= rest[0].transferredAt;
    forall i, j | 0 <= i < j < |r| ensures r[i].transferredAt >= r[j].transferredAt {
      if i == 0 {
        assert rest[0].transferredAt >= rest[j - 1].transferredAt;
      } else {
        assert r[i] == rest[i - 1] && r[j] == rest[j - 1];
      }
    }
  }

  /** Places `t` into a latest-first sequence. */
  function InsertLatestFirst(t: StockTransfer, sorted: seq<StockTransfer>): (r: seq<StockTransfer>)
    requires LatestFirst(sorted)
    ensures LatestFirst(r)
    ensures multiset(r) == multiset(sorted) + multiset{t}
    ensures |r| == |sorted| + 1
    ensures r[0] == t || (sorted != [] && r[0] == sorted[0])
  {
    if sorted == [] || t.transferredAt >= sorted[0].transferredAt then [t] + sorted
    else
      var rest := InsertLatestFirst(t, sorted[1..]);
      InsertBehindHead(t, sorted, rest);
      [sorted[0]] + rest
  }

  /** The records of `log` ordered by `transferred_at`, latest first. */
  function OrderByLatest(log: seq<StockTransfer>): (r: seq<StockTransfer>)
    ensures LatestFirst(r)
    ensures multiset(r) == multiset(log)
  {
    if log == [] then []
    else
      assert log == [log[0]] + log[1..];
      InsertLatestFirst(log[0], OrderByLatest(log[1..]))
  }

  /** `getByWarehouse($warehouseId)`: the transfers out of or into that warehouse, each as often as logged. */
  function GetByWarehouse(log: seq<StockTransfer>, warehouseId: int): (r: seq<StockTransfer>)
    ensures forall t :: multiset(r)[t] == if Involves(t, warehouseId) then multiset(log)[t] else 0
  {
    var r := Filter(log, (t: StockTransfer) => Involves(t, warehouseId));
    assert forall t :: multiset(r)[t] == if Involves(t, warehouseId) then multiset(log)[t] else 0 by {
      forall t { FilterCounts(log, (t: StockTransfer) => Involves(t, warehouseId), t); }
    }
    r
  }

  /** `getByItem($itemId)`: the transfers of that item, each as often as logged, latest first. */
  function GetByItem(log: seq<StockTransfer>, itemId: int): (r: seq<StockTransfer>)
    ensures forall t :: multiset(r)[t] == if t.inventoryItemId == itemId then multiset(log)[t] else 0
    ensures LatestFirst(r)
  {
    var selected := Filter(log, (t: StockTransfer) => t.inventoryItemId == itemId);
    assert forall t :: multiset(selected)[t] == if t.inventoryItemId == itemId then multiset(log)[t] else 0 by {
      forall t { FilterCounts(log, (t: StockTransfer) => t.inventoryItemId == itemId, t); }
    }
    OrderByLatest(selected)
  }

  /** `getAllWithRelations($warehouseId)`: every transfer when no warehouse is given, otherwise
      those `getByWarehouse` selects; latest first either way. */
  function GetAllWithRelations(log: seq<StockTransfer>, warehouseId: Option<int>): (r: seq<StockTransfer>)
    ensures warehouseId.None? ==> multiset(r) == multiset(log)
    ensures warehouseId.Some? ==> multiset(r) == multiset(GetByWarehouse(log, warehouseId.value))
    ensures LatestFirst(r)
  {
    if warehouseId.None? then OrderByLatest(log) else OrderByLatest(GetByWarehouse(log, warehouseId.value))
  }

  /** A transfer appended to the log shows up in the listings of both its warehouses and of its item. */
  lemma {:induction false} RecordedTransferIsListed(log: seq<StockTransfer>, t: StockTransfer)
    ensures t in GetByWarehouse(log + [t], t.fromWarehouseId)
    ensures t in GetByWarehouse(log + [t], t.toWarehouseId)
    ensures t in GetByItem(log + [t], t.inventoryItemId)
    ensures t in GetAllWithRelations(log + [t], None)
  {
    var logged := log + [t];
    assert logged[|log|] == t;
    assert multiset(logged)[t] > 0;
    assert multiset(GetByWarehouse(logged, t.fromWarehouseId))[t] > 0;
    assert multiset(GetByWarehouse(logged, t.toWarehouseId))[t] > 0;
    assert multiset(GetByItem(logged, t.inventoryItemId))[t] > 0;
    assert multiset(GetAllWithRelations(logged, None))[t] > 0;
  }

  /** `create([...])` on the transfer log: appends one record. */
  method Create(db: Store, t: StockTransfer)
    modifies db
    ensures db.transfers == old(db.transfers) + [t]
    ensures db.stocks == old(db.stocks) && db.nextStockId == old(db.nextStockId) && db.events == old(db.events)
  {
    db.transfers := db.transfers + [t];
  }
}
