/** The stock service: intake (`recordStock`), absolute and relative quantity changes, the
    generic update and deletion, with the service's own low-stock notification rules. */
module StockService {
  import opened Wrappers
  import opened StockModel
  import opened Database
  import opened BaseRepository
  import opened StockRepository
  import opened StockTable

  /** The rule in `recordStock`: notify whenever the saved row is low, whatever it held before. */
  function LevelAlert(s: Stock): (r: seq<LowStockDetected>)
    ensures |r| == if s.quantity < LowStockThreshold then 1 else 0
    ensures r != [] ==> r[0] == LowStockDetected(s, LowStockThreshold)
  {
    if s.quantity < LowStockThreshold then [LowStockDetected(s, LowStockThreshold)] else []
  }

  /** The rule in `updateStockQuantity` and `adjustStock`: notify only when the row drops from
      at least the threshold to below it. */
  function CrossingAlert(oldQuantity: int, s: Stock): (r: seq<LowStockDetected>)
    ensures |r| == if oldQuantity >= LowStockThreshold && s.quantity < LowStockThreshold then 1 else 0
    ensures r != [] ==> r[0] == LowStockDetected(s, LowStockThreshold)
  {
    if s.quantity < LowStockThreshold && oldQuantity >= LowStockThreshold then [LowStockDetected(s, LowStockThreshold)] else []
  }

  /** The row `recordStock` saves: the matching row credited with `quantity`, or a new row
      holding `quantity` under the next id. */
  function RecordedRow(rows: seq<Stock>, nextId: nat, warehouseId: int, itemId: int, quantity: int): Stock {
    match GetByWarehouseAndItem(rows, warehouseId, itemId)
    case Some(e) => e.(quantity := e.quantity + quantity)
    case None => Stock(nextId, warehouseId, itemId, quantity)
  }

  /** The stocks table after `recordStock`: the matching row overwritten, or the new row appended. */
  function Recorded(rows: seq<Stock>, nextId: nat, warehouseId: int, itemId: int, quantity: int): seq<Stock> {
    var s := RecordedRow(rows, nextId, warehouseId, itemId, quantity);
    if GetByWarehouseAndItem(rows, warehouseId, itemId).Some? then Put(rows, s) else rows + [s]
  }

  /** The events `recordStock` dispatches: the `updated` hook's when it overwrote a row, then
      the service's own level alert. */
  function RecordedEvents(rows: seq<Stock>, nextId: nat, warehouseId: int, itemId: int, quantity: int): seq<LowStockDetected> {
    var s := RecordedRow(rows, nextId, warehouseId, itemId, quantity);
    match GetByWarehouseAndItem(rows, warehouseId, itemId)
    case Some(e) => UpdatedHook(e, s) + LevelAlert(s)
    case None => LevelAlert(s)
  }

  /** The saved row belongs to the requested (warehouse, item) pair, is in the new table, and
      holds the old quantity of that pair plus the recorded amount. */
  lemma RecordedRowIsSaved(rows: seq<Stock>, nextId: nat, warehouseId: int, itemId: int, quantity: int)
    requires IdsAscending(rows)
    ensures var s := RecordedRow(rows, nextId, warehouseId, itemId, quantity);
      && At(s, warehouseId, itemId)
      && s in Recorded(rows, nextId, warehouseId, itemId, quantity)
      && s.quantity == quantity + match GetByWarehouseAndItem(rows, warehouseId, itemId)
                                  case Some(e) => e.quantity
                                  case None => 0
  {
    var s := RecordedRow(rows, nextId, warehouseId, itemId, quantity);
    match GetByWarehouseAndItem(rows, warehouseId, itemId)
    case Some(e) =>
      var k :| 0 <= k < |rows| && rows[k] == e;
      assert Put(rows, s)[k] == s;
    case None =>
      assert (rows + [s])[|rows|] == s;
  }

  /** `recordStock` is intake: the item's total over all warehouses grows by exactly `quantity`
      and every other item's total stays. */
  lemma {:induction false} RecordStockIsIntake(rows: seq<Stock>, nextId: nat, warehouseId: int, itemId: int, quantity: int, item: int)
    requires IdsAscending(rows)
    ensures Total(Recorded(rows, nextId, warehouseId, itemId, quantity), item)
            == Total(rows, item) + (if item == itemId then quantity else 0)
  {
    match GetByWarehouseAndItem(rows, warehouseId, itemId)
    case Some(e) =>
      var credited := e.(quantity := e.quantity + quantity);
      assert Recorded(rows, nextId, warehouseId, itemId, quantity) == Put(rows, credited);
      QuantityWriteTotal(rows, e, credited, item);
      assert e.inventoryItemId == itemId;
      assert Total(Put(rows, credited), item) == Total(rows, item) + (if item == itemId then quantity else 0);
    case None =>
      TotalAppend(rows, Stock(nextId, warehouseId, itemId, quantity), item);
  }

  /** `recordStock` never adds a second row for a (warehouse, item) pair, and keeps quantities
      non-negative when the recorded quantity is. */
  lemma RecordStockKeepsInvariants(rows: seq<Stock>, nextId: nat, warehouseId: int, itemId: int, quantity: int)
    requires IdsAscending(rows)
    ensures UniqueLocations(rows) ==> UniqueLocations(Recorded(rows, nextId, warehouseId, itemId, quantity))
    ensures NonNegative(rows) && quantity >= 0 ==> NonNegative(Recorded(rows, nextId, warehouseId, itemId, quantity))
  {
    var recorded := Recorded(rows, nextId, warehouseId, itemId, quantity);
    var found := GetByWarehouseAndItem(rows, warehouseId, itemId);
    if found.Some? {
      var e := found.value;
      var credited := e.(quantity := e.quantity + quantity);
      assert recorded == Put(rows, credited);
      QuantityWriteKeeps(rows, e, e.quantity + quantity);
      if UniqueLocations(rows) {
        assert UniqueLocations(Put(rows, credited));
      }
    } else {
      var created := Stock(nextId, warehouseId, itemId, quantity);
      assert recorded == rows + [created];
      RowInsert(rows, created);
      if UniqueLocations(rows) {
        assert UniqueLocations(rows + [created]);
      }
    }
  }

  /** The write of `recordStock`: the matching row credited through `updateQuantity` (firing
      the `updated` hook), or a new row created holding `quantity`. */
  method SaveRecorded(db: Store, warehouseId: int, itemId: int, quantity: int) returns (s: Stock)
    requires db.Valid()
    modifies db
    ensures db.Valid()
    ensures s == RecordedRow(old(db.stocks), old(db.nextStockId), warehouseId, itemId, quantity)
    ensures db.stocks == Recorded(old(db.stocks), old(db.nextStockId), warehouseId, itemId, quantity)
    ensures db.events == old(db.events) + match GetByWarehouseAndItem(old(db.stocks), warehouseId, itemId)
                                           case Some(e) => UpdatedHook(e, s)
                                           case None => []
    ensures db.nextStockId == old(db.nextStockId) + if GetByWarehouseAndItem(old(db.stocks), warehouseId, itemId).None? then 1 else 0
    ensures db.transfers == old(db.transfers)
  {
    var existing := GetByWarehouseAndItem(db.stocks, warehouseId, itemId);
    if existing.Some? {
      var e := existing.value;
      FindIsTheRow(db.stocks, e);
      var updated := UpdateQuantity(db, e.id, e.quantity + quantity);
      s := updated.value;
    } else {
      s := Create(db, warehouseId, itemId, quantity);
    }
  }

  /** `recordStock`: adds `quantity` to the row for (warehouse, item), or creates that row
      holding `quantity`; then dispatches `LowStockDetected` if the row is low. */
  method RecordStock(db: Store, warehouseId: int, itemId: int, quantity: int) returns (s: Stock)
    requires db.Valid()
    modifies db
    ensures db.Valid()
    ensures s == RecordedRow(old(db.stocks), old(db.nextStockId), warehouseId, itemId, quantity)
    ensures db.stocks == Recorded(old(db.stocks), old(db.nextStockId), warehouseId, itemId, quantity)
    ensures db.events == old(db.events) + RecordedEvents(old(db.stocks), old(db.nextStockId), warehouseId, itemId, quantity)
    ensures db.nextStockId == old(db.nextStockId) + if GetByWarehouseAndItem(old(db.stocks), warehouseId, itemId).None? then 1 else 0
    ensures db.transfers == old(db.transfers)
  {
    ghost var hookEvents := match GetByWarehouseAndItem(db.stocks, warehouseId, itemId)
                            case Some(e) => UpdatedHook(e, RecordedRow(db.stocks, db.nextStockId, warehouseId, itemId, quantity))
                            case None => [];
    s := SaveRecorded(db, warehouseId, itemId, quantity);
    if s.quantity < LowStockThreshold {
      db.events := db.events + [LowStockDetected(s, LowStockThreshold)];
    }
    assert db.events == old(db.events) + hookEvents + LevelAlert(s);
  }

  /** `updateStockQuantity`: sets the row's quantity; beside the hook, notifies only when the
      row crosses below the threshold. An unknown id changes nothing and returns null. */
  method UpdateStockQuantity(db: Store, id: nat, quantity: int) returns (r: Option<Stock>)
    requires db.Valid()
    modifies db
    ensures db.Valid()
    ensures db.transfers == old(db.transfers) && db.nextStockId == old(db.nextStockId)
    ensures r.Some? <==> Find(old(db.stocks), id).Some?
    ensures r.None? ==> db.stocks == old(db.stocks) && db.events == old(db.events)
    ensures r.Some? ==> r.value == Find(old(db.stocks), id).value.(quantity := quantity)
    ensures r.Some? ==> db.stocks == Put(old(db.stocks), r.value)
    ensures r.Some? ==> var s := Find(old(db.stocks), id).value;
      db.events == old(db.events) + UpdatedHook(s, r.value) + CrossingAlert(s.quantity, r.value)
  {
    var stock := Find(db.stocks, id);
    var oldQuantity := if stock.Some? then stock.value.quantity else 0;
    var updated := UpdateQuantity(db, id, quantity);
    if updated.Some? && updated.value.quantity < LowStockThreshold && oldQuantity >= LowStockThreshold {
      db.events := db.events + [LowStockDetected(updated.value, LowStockThreshold)];
    }
    r := updated;
  }

  /** `updateStock`: the generic update of the fillable attributes, through `update`. */
  method UpdateStock(db: Store, id: nat, attrs: StockAttributes) returns (r: Option<Stock>)
    requires db.Valid()
    modifies db
    ensures db.Valid()
    ensures db.transfers == old(db.transfers) && db.nextStockId == old(db.nextStockId)
    ensures r.Some? <==> Find(old(db.stocks), id).Some?
    ensures r.None? ==> db.stocks == old(db.stocks) && db.events == old(db.events)
    ensures r.Some? ==> r.value == Fill(Find(old(db.stocks), id).value, attrs)
    ensures r.Some? ==> db.stocks == Put(old(db.stocks), r.value)
    ensures r.Some? ==> db.events == old(db.events) + UpdatedHook(Find(old(db.stocks), id).value, r.value)
  {
    r := Update(db, id, attrs);
  }

  /** `adjustStock`: adds `delta` to the row's quantity with no lower bound; beside the hook,
      notifies only when the row crosses below the threshold. An unknown id changes nothing. */
  method AdjustStock(db: Store, id: nat, delta: int) returns (r: Option<Stock>)
    requires db.Valid()
    modifies db
    ensures db.Valid()
    ensures db.transfers == old(db.transfers) && db.nextStockId == old(db.nextStockId)
    ensures r.Some? <==> Find(old(db.stocks), id).Some?
    ensures r.None? ==> db.stocks == old(db.stocks) && db.events == old(db.events)
    ensures r.Some? ==> var s := Find(old(db.stocks), id).value; r.value == s.(quantity := s.quantity + delta)
    ensures r.Some? ==> db.stocks == Put(old(db.stocks), r.value)
    ensures r.Some? ==> var s := Find(old(db.stocks), id).value;
      db.events == old(db.events) + UpdatedHook(s, r.value) + CrossingAlert(s.quantity, r.value)
  {
    var stock := Find(db.stocks, id);
    var oldQuantity := if stock.Some? then stock.value.quantity else 0;
    var updated := AdjustQuantity(db, id, delta);
    if updated.Some? && updated.value.quantity < LowStockThreshold && oldQuantity >= LowStockThreshold {
      db.events := db.events + [LowStockDetected(updated.value, LowStockThreshold)];
    }
    r := updated;
  }

  /** `deleteStock`: removes the row, reporting whether it existed. */
  method DeleteStock(db: Store, id: nat) returns (deleted: bool)
    requires db.Valid()
    modifies db
    ensures db.Valid()
    ensures deleted <==> Find(old(db.stocks), id).Some?
    ensures db.stocks == Without(old(db.stocks), id)
    ensures forall other :: other != id ==> Find(db.stocks, other) == Find(old(db.stocks), other)
    ensures Find(db.stocks, id).None?
    ensures db.transfers == old(db.transfers) && db.events == old(db.events)
  {
    ghost var before := db.stocks;
    deleted := Delete(db, id);
    forall other ensures Find(db.stocks, other) == if other == id then None else Find(before, other) {
      FindAfterWithout(before, id, other);
    }
  }

  /** Events appended by `recordStock` on an existing row: two when the result is low and the
      quantity changed (hook and service), one when low and unchanged, none otherwise. */
  lemma RecordStockAlertCount(e: Stock, quantity: int)
    ensures var s := e.(quantity := e.quantity + quantity);
      |UpdatedHook(e, s) + LevelAlert(s)|
        == if s.quantity >= LowStockThreshold then 0 else if quantity != 0 then 2 else 1
  {
  }

  /** Events appended by `updateStockQuantity` (and, with `s.quantity + delta`, by `adjustStock`):
      two on crossing below the threshold, one when already low and the quantity changed, none otherwise. */
  lemma UpdateStockQuantityAlertCount(s: Stock, quantity: int)
    ensures var s' := s.(quantity := quantity);
      |UpdatedHook(s, s') + CrossingAlert(s.quantity, s')|
        == if quantity >= LowStockThreshold then 0
           else if s.quantity >= LowStockThreshold then 2
           else if quantity != s.quantity then 1
           else 0
  {
  }
}
