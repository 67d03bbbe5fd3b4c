/** The stock-specific repository: lookup by (warehouse, item), the low-stock and filtered
    listings, and the two quantity writes. */
module StockRepository {
  import opened Wrappers
  import opened Sequences
  import opened StockModel
  import opened Database
  import BaseRepository

  /** Whether a row is the stock of `itemId` held at `warehouseId`. */
  predicate At(s: Stock, warehouseId: int, itemId: int) {
    s.warehouseId == warehouseId && s.inventoryItemId == itemId
  }

  /** `getByWarehouseAndItem`: the first row, in key order, for that warehouse and item, or null. */
  function GetByWarehouseAndItem(rows: seq<Stock>, warehouseId: int, itemId: int): (r: Option<Stock>)
    ensures r.Some? ==> r.value in rows && At(r.value, warehouseId, itemId)
    ensures r.None? ==> forall k :: 0 <= k < |rows| ==> !At(rows[k], warehouseId, itemId)
  {
    if rows == [] then None
    else if At(rows[0], warehouseId, itemId) then Some(rows[0])
    else GetByWarehouseAndItem(rows[1..], warehouseId, itemId)
  }

  /** When each (warehouse, item) pair has at most one row, the lookup finds exactly that row. */
  lemma LookupIsTheRow(rows: seq<Stock>, s: Stock)
    requires UniqueLocations(rows) && s in rows
    ensures GetByWarehouseAndItem(rows, s.warehouseId, s.inventoryItemId) == Some(s)
  {
    var found := GetByWarehouseAndItem(rows, s.warehouseId, s.inventoryItemId).value;
    var i :| 0 <= i < |rows| && rows[i] == found;
    var j :| 0 <= j < |rows| && rows[j] == s;
    if i < j || j < i {
      assert false;
    }
  }

  /** `getLowStock($threshold)`: the rows holding strictly less than the threshold, each as
      often as it occurs in the table. */
  function GetLowStock(rows: seq<Stock>, threshold: int): (r: seq<Stock>)
    ensures forall s :: s in r <==> s in rows && s.quantity < threshold
    ensures forall s :: multiset(r)[s] == if s.quantity < threshold then multiset(rows)[s] else 0
  {
    var r := Filter(rows, (s: Stock) => s.quantity < threshold);
    assert forall s :: multiset(r)[s] == if s.quantity < threshold then multiset(rows)[s] else 0 by {
      forall s { FilterCounts(rows, (s: Stock) => s.quantity < threshold, s); }
    }
    r
  }

  /** A row the `updated` hook reports is listed by `getLowStock` at the default threshold,
      and a row it stays silent about after a change is not. */
  lemma HookAgreesWithLowStockListing(rows: seq<Stock>, before: Stock, after: Stock)
    requires after in rows && before != after
    ensures UpdatedHook(before, after) != [] <==> after in GetLowStock(rows, LowStockThreshold)
  {
  }

  /** Whether a row passes the optional warehouse and item filters. */
  predicate Listed(s: Stock, warehouseId: Option<int>, itemId: Option<int>) {
    && (warehouseId.Some? ==> s.warehouseId == warehouseId.value)
    && (itemId.Some? ==> s.inventoryItemId == itemId.value)
  }

  /** `getAllWithRelations($warehouseId, $itemId)`: each filter applies only when given, and each
      selected row appears as often as it occurs in the table. */
  function GetAllWithRelations(rows: seq<Stock>, warehouseId: Option<int>, itemId: Option<int>): (r: seq<Stock>)
    ensures forall s :: s in r <==> s in rows && Listed(s, warehouseId, itemId)
    ensures forall s :: multiset(r)[s] == if Listed(s, warehouseId, itemId) then multiset(rows)[s] else 0
  {
    var r := Filter(rows, (s: Stock) => Listed(s, warehouseId, itemId));
    assert forall s :: multiset(r)[s] == if Listed(s, warehouseId, itemId) then multiset(rows)[s] else 0 by {
      forall s { FilterCounts(rows, (s: Stock) => Listed(s, warehouseId, itemId), s); }
    }
    r
  }

  /** With neither filter, the listing is the whole table in key order; with both, it is the
      rows the (warehouse, item) lookup searches. */
  lemma GetAllWithRelationsUnfiltered(rows: seq<Stock>, warehouseId: int, itemId: int)
    ensures GetAllWithRelations(rows, None, None) == rows
    ensures GetByWarehouseAndItem(rows, warehouseId, itemId).None?
            <==> GetAllWithRelations(rows, Some(warehouseId), Some(itemId)) == []
  {
    FilterAll(rows, (s: Stock) => Listed(s, None, None));
    var both := GetAllWithRelations(rows, Some(warehouseId), Some(itemId));
    if both != [] {
      assert both[0] in both;
    }
  }

  /** `updateQuantity($id, $quantity)`: sets that row's quantity and returns it, firing the hook;
      on an unknown id returns null and changes nothing. */
  method UpdateQuantity(db: Store, id: nat, quantity: int) returns (r: Option<Stock>)
    requires db.Valid()
    modifies db
    ensures db.Valid()
    ensures db.transfers == old(db.transfers) && db.nextStockId == old(db.nextStockId)
    ensures r.Some? <==> BaseRepository.Find(old(db.stocks), id).Some?
    ensures r.None? ==> db.stocks == old(db.stocks) && db.events == old(db.events)
    ensures r.Some? ==> r.value == BaseRepository.Find(old(db.stocks), id).value.(quantity := quantity)
    ensures r.Some? ==> db.stocks == BaseRepository.Put(old(db.stocks), r.value)
    ensures r.Some? ==> db.events == old(db.events) + UpdatedHook(BaseRepository.Find(old(db.stocks), id).value, r.value)
  {
    ghost var before := BaseRepository.Find(db.stocks, id);
    if before.Some? {
      FillQuantityOnly(before.value, quantity, QuantityOnly(quantity));
    }
    r := BaseRepository.Update(db, id, QuantityOnly(quantity));
  }

  /** `adjustQuantity($id, $delta)`: adds `delta` to that row's quantity, with no sign or bound
      check, and returns it; on an unknown id returns null and changes nothing. */
  method AdjustQuantity(db: Store, id: nat, delta: int) returns (r: Option<Stock>)
    requires db.Valid()
    modifies db
    ensures db.Valid()
    ensures db.transfers == old(db.transfers) && db.nextStockId == old(db.nextStockId)
    ensures r.Some? <==> BaseRepository.Find(old(db.stocks), id).Some?
    ensures r.None? ==> db.stocks == old(db.stocks) && db.events == old(db.events)
    ensures r.Some? ==> var s := BaseRepository.Find(old(db.stocks), id).value; r.value == s.(quantity := s.quantity + delta)
    ensures r.Some? ==> db.stocks == BaseRepository.Put(old(db.stocks), r.value)
    ensures r.Some? ==> db.events == old(db.events) + UpdatedHook(BaseRepository.Find(old(db.stocks), id).value, r.value)
  {
    var found := BaseRepository.Find(db.stocks, id);
    if found.None? {
      return None;
    }
    var s := found.value;
    FillQuantityOnly(s, s.quantity + delta, QuantityOnly(s.quantity + delta));
    r := BaseRepository.Update(db, id, QuantityOnly(s.quantity + delta));
  }
}
