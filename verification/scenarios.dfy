/** Worked examples of the services on a fresh, empty database: the transfer that the source
    cannot cover, the transfer that it can, the double notification of a quantity update,
    and an adjustment that drives a quantity negative. */
module Scenarios {
  import opened Wrappers
  import opened StockModel
  import opened StockTransferModel
  import opened Database
  import StockService
  import StockTransferService

  /** Warehouse 1 holds 15 of item 7. Asking to move 20 to warehouse 2 fails with the
      insufficient-quantity message and leaves the table as it was; moving 5 then leaves
      10 in warehouse 1, a new row with 5 in warehouse 2, and one transfer record. */
  method TransferScenario() returns (rejected: Result<StockTransfer, string>, accepted: Result<StockTransfer, string>,
                                     stocks: seq<Stock>, transfers: seq<StockTransfer>)
    ensures rejected == Failure(StockTransferService.InsufficientQuantity)
    ensures accepted == Success(StockTransfer(7, 1, 2, 5, 100))
    ensures stocks == [Stock(1, 1, 7, 10), Stock(2, 2, 7, 5)]
    ensures transfers == [StockTransfer(7, 1, 2, 5, 100)]
  {
    var db := new Store();
    var s := StockService.RecordStock(db, 1, 7, 15);
    assert db.stocks == [Stock(1, 1, 7, 15)];
    rejected := StockTransferService.TransferStock(db, 1, 2, 7, 20, 100);
    assert db.stocks == [Stock(1, 1, 7, 15)];
    accepted := StockTransferService.TransferStock(db, 1, 2, 7, 5, 100);
    stocks := db.stocks;
    transfers := db.transfers;
  }

  /** A row recorded at 12 and set to 8 dispatches two events for that one update (the
      `updated` hook's and the service's); set again to 5 it dispatches one more (the hook's). */
  method QuantityUpdateScenario() returns (afterFirstUpdate: seq<LowStockDetected>, afterSecondUpdate: seq<LowStockDetected>)
    ensures afterFirstUpdate == [LowStockDetected(Stock(1, 1, 7, 8), 10), LowStockDetected(Stock(1, 1, 7, 8), 10)]
    ensures afterSecondUpdate == afterFirstUpdate + [LowStockDetected(Stock(1, 1, 7, 5), 10)]
  {
    var db := new Store();
    var s := StockService.RecordStock(db, 1, 7, 12);
    assert db.stocks == [Stock(1, 1, 7, 12)] && db.events == [];
    var r := StockService.UpdateStockQuantity(db, 1, 8);
    afterFirstUpdate := db.events;
    assert db.stocks == [Stock(1, 1, 7, 8)];
    r := StockService.UpdateStockQuantity(db, 1, 5);
    afterSecondUpdate := db.events;
  }

  /** `adjustStock` has no lower bound: adjusting a row holding 5 by -1000 leaves -995. */
  method AdjustScenario() returns (adjusted: Option<Stock>)
    ensures adjusted == Some(Stock(1, 1, 7, -995))
  {
    var db := new Store();
    var s := StockService.RecordStock(db, 1, 7, 5);
    assert db.stocks == [Stock(1, 1, 7, 5)];
    adjusted := StockService.AdjustStock(db, 1, -1000);
  }
}
