/** The persistent state the core works on: the stocks table, the transfer log, and the
    list of `LowStockDetected` events dispatched so far. */
module Database {
  import opened StockModel
  import opened StockTransferModel

  /** Row ids strictly increase along the table: rows are kept in primary-key order and no id repeats. */
  predicate IdsAscending(rows: seq<Stock>) {
    forall i, j :: 0 <= i < j < |rows| ==> rows[i].id < rows[j].id
  }

  /** Every id in the table is below the auto-increment counter. */
  predicate IdsBelow(rows: seq<Stock>, nextId: nat) {
    forall k :: 0 <= k < |rows| ==> rows[k].id < nextId
  }

  /** At most one row per (warehouse, item) pair. Nothing in the code enforces it; some operations keep it. */
  predicate UniqueLocations(rows: seq<Stock>) {
    forall i, j :: 0 <= i < j < |rows| ==>
      rows[i].warehouseId != rows[j].warehouseId || rows[i].inventoryItemId != rows[j].inventoryItemId
  }

  /** No row holds a negative quantity. */
  predicate NonNegative(rows: seq<Stock>) {
    forall k :: 0 <= k < |rows| ==> rows[k].quantity >= 0
  }

  /** What row `s` contributes to the stock of `item`. */
  function Contribution(s: Stock, item: int): int {
    if s.inventoryItemId == item then s.quantity else 0
  }

  /** The quantity of `item` held over all warehouses. */
  function Total(rows: seq<Stock>, item: int): int {
    if rows == [] then 0 else Contribution(rows[0], item) + Total(rows[1..], item)
  }

  /** Inserting a row adds exactly its own quantity to the total of its item. */
  lemma {:induction false} TotalAppend(rows: seq<Stock>, s: Stock, item: int)
    ensures Total(rows + [s], item) == Total(rows, item) + Contribution(s, item)
  {
    if rows != [] {
      assert (rows + [s])[1..] == rows[1..] + [s];
      TotalAppend(rows[1..], s, item);
    }
  }

  class Store {
    /** The stocks table in primary-key order. */
    var stocks: seq<Stock>
    /** The auto-increment counter of the stocks table. */
    var nextStockId: nat
    /** The stock_transfers table, in insertion order; it is only ever appended to. */
    var transfers: seq<StockTransfer>
    /** Every `LowStockDetected` dispatched so far, in dispatch order. */
    var events: seq<LowStockDetected>

    ghost predicate Valid()
      reads this
    {
      IdsAscending(stocks) && IdsBelow(stocks, nextStockId)
    }

    constructor ()
      ensures Valid()
      ensures stocks == [] && nextStockId == 1 && transfers == [] && events == []
    {
      stocks := [];
      nextStockId := 1;
      transfers := [];
      events := [];
    }
  }
}
