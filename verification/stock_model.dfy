/** The `Stock` model: one row of the stocks table, the attributes that may be mass-assigned
    to it, and the `updated` hook that dispatches `LowStockDetected`. */
module StockModel {
  import opened Wrappers

  /** The low-stock threshold, fixed at 10 both in the hook and in the stock service. */
  const LowStockThreshold: int := 10

  datatype Stock = Stock(id: nat, warehouseId: int, inventoryItemId: int, quantity: int)

  /** The `$fillable` attributes; `None` leaves an attribute as it is. The primary key is not fillable. */
  datatype StockAttributes = StockAttributes(warehouseId: Option<int>, inventoryItemId: Option<int>, quantity: Option<int>)

  /** The attribute set `['quantity' => q]`. */
  function QuantityOnly(q: int): StockAttributes {
    StockAttributes(None, None, Some(q))
  }

  /** Mass assignment of `attrs` onto a loaded row: each given fillable attribute is set,
      each absent one is kept, and the primary key is never touched. */
  function Fill(s: Stock, attrs: StockAttributes): (r: Stock)
    ensures r.id == s.id
    ensures attrs.warehouseId.Some? ==> r.warehouseId == attrs.warehouseId.value
    ensures attrs.warehouseId.None? ==> r.warehouseId == s.warehouseId
    ensures attrs.inventoryItemId.Some? ==> r.inventoryItemId == attrs.inventoryItemId.value
    ensures attrs.inventoryItemId.None? ==> r.inventoryItemId == s.inventoryItemId
    ensures attrs.quantity.Some? ==> r.quantity == attrs.quantity.value
    ensures attrs.quantity.None? ==> r.quantity == s.quantity
  {
    Stock(s.id,
          if attrs.warehouseId.Some? then attrs.warehouseId.value else s.warehouseId,
          if attrs.inventoryItemId.Some? then attrs.inventoryItemId.value else s.inventoryItemId,
          if attrs.quantity.Some? then attrs.quantity.value else s.quantity)
  }

  /** Assigning only the quantity changes the quantity and nothing else; assigning the
      same attributes twice is the same as assigning them once. */
  lemma FillQuantityOnly(s: Stock, q: int, attrs: StockAttributes)
    ensures Fill(s, QuantityOnly(q)) == s.(quantity := q)
    ensures Fill(Fill(s, attrs), attrs) == Fill(s, attrs)
  {
  }

  /** The event `LowStockDetected($stock, $threshold)`: a snapshot of the row and the threshold. */
  datatype LowStockDetected = LowStockDetected(stock: Stock, threshold: int)

  /** The events the `updated` hook dispatches when a save turns `before` into `after`.
      The framework fires `updated` only when some attribute actually changed. */
  function UpdatedHook(before: Stock, after: Stock): (r: seq<LowStockDetected>)
    ensures |r| <= 1
    ensures r != [] <==> before != after && after.quantity < LowStockThreshold
    ensures r != [] ==> r[0] == LowStockDetected(after, 10)
  {
    if before != after && after.quantity < LowStockThreshold then [LowStockDetected(after, LowStockThreshold)] else []
  }
}
