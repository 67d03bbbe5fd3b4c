/** One record of the append-only `stock_transfers` log. */
module StockTransferModel {
  /** `transferredAt` is the timestamp taken when the record was written, as an opaque number. */
  datatype StockTransfer = StockTransfer(inventoryItemId: int, fromWarehouseId: int, toWarehouseId: int, quantity: int, transferredAt: int)
}
