# Stock ledger and stock transfer of the inventory API

This project models the stock core of a Laravel warehouse-inventory API in Dafny and proves
properties of that model. The core is the stocks table, which holds one row per
(warehouse, inventory item) with a quantity. It covers:

- the stock service's operations on that table: intake (`recordStock`), absolute and relative
  quantity changes, the generic update, and deletion;
- the transfer service, which moves a quantity of an item between two warehouses inside one
  database transaction and appends a transfer record;
- the low-stock notifications (`LowStockDetected`). These come from two places: the stock
  service's own rules, and the `updated` hook of the `Stock` model;
- the repository queries over the stocks table and the transfer log.

The database is one object, `Database.Store`. Its fields are:

- `stocks`: the stocks table, in primary-key order, so ids are strictly ascending;
- `nextStockId`: the auto-increment counter;
- `transfers`: the transfer log, which is only ever appended to;
- `events`: every dispatched `LowStockDetected`, in dispatch order.

The repository and service methods take the store and change it in place. The tables they
leave are described by pure functions over sequences: `Put` (save a row), `Recorded`,
`Transferred`, `TransferEvents` and others. The lemmas prove the promised properties about
those functions. These include:

- conservation of an item's total across warehouses under a transfer;
- the exact debit and credit, with nothing else changing;
- the preservation of non-negative quantities and of one row per (warehouse, item);
- exact event counts.

The `updated` hook and the stock service's alerts use a low-stock threshold of 10.
`getLowStock` takes the threshold as a parameter whose default is 10. Eloquent's dirty check is
modelled explicitly:
the `updated` hook runs only when the saved row differs from the row as loaded
(`StockModel.UpdatedHook`).

## Where the code departs from its own comments and validation

- **No negative-quantity guard.** The form requests accept only `quantity` values of at
  least 0 (`min:0` at app/Http/Requests/StoreStockRequest.php:27 and
  app/Http/Requests/UpdateStockRequest.php:27). Below the controllers nothing checks the sign:
  `adjustStock` and `adjustQuantity` add any delta, and `updateStockQuantity` writes any value.
  The model has no guard: adjusting a row holding 5 by -1000 leaves -995
  (`Scenarios.AdjustScenario`).
- **"Just became low" still notifies twice.** `updateStockQuantity` and `adjustStock` carry the
  comment "Check if stock just became low" (app/Services/StockService.php:77 and :103) and
  dispatch only when the quantity crosses from at least 10 to below 10. The model's `updated`
  hook (app/Models/Stock.php:18-26) also notifies on every change that ends below 10. Setting
  12 to 8 therefore dispatches two events, the hook's and the service's. Setting 8 to 5
  dispatches one, from the hook (`StockService.UpdateStockQuantityAlertCount`,
  `Scenarios.QuantityUpdateScenario`).
- **Transfer notifications come from the hook.** The two writes of a transfer go through
  `updateQuantity`, so each leg notifies through the hook alone: whenever the row changed and
  ends below 10, not only when it just became low (`StockTransferService.TransferAlertCount`).
- **One row per (warehouse, item) is not enforced.** Nothing in the code enforces it, and
  `updateStock` can rewrite both keys. It is therefore not part of `Store.Valid()`. The lookup
  takes the first matching row in key order. Preservation of the property is proved where the
  code preserves it: `recordStock`, the quantity writes and the transfer.
- **The transfer service itself does not require distinct warehouses or a positive
  quantity.** Only the request validation requires them (`different:` and `min:1` at
  app/Http/Requests/TransferStockRequest.php:26-28). `TransferStock` is modelled without those
  preconditions:
  - The lemmas about conservation and the two legs take `from != to` as a precondition.
  - With `from == to`, the destination write starts from the row as read before the debit.
    The row therefore ends credited by the quantity, and the item's total grows
    (`StockTransferService.SameWarehouseTransferCredits`).
- `adjustStock` has no caller in the controllers. It is modelled as written.

## Model

| member | source | states |
|---|---|---|
| StockModel.Fill | app/Models/Stock.php:12-16 | mass assignment sets each given fillable attribute to its value, keeps each absent one, and never changes the primary key |
| StockModel.FillQuantityOnly | app/Models/Stock.php:12-16 | assigning `['quantity' => q]` changes the quantity and nothing else; assigning the same attributes twice equals assigning them once |
| StockModel.UpdatedHook | app/Models/Stock.php:18-26 | after a save, at most one `LowStockDetected(row, 10)`; one exactly when the row changed and its new quantity is below 10 |
| BaseRepository.Find | app/Repositories/Eloquent/BaseRepository.php:30-33 | the row with that id, or null exactly when no row has that id |
| BaseRepository.Put | app/Repositories/Eloquent/BaseRepository.php:40-46 | saving a row replaces the row with the same id and leaves every other position as it was |
| BaseRepository.FindWhere | app/Repositories/Eloquent/BaseRepository.php:59-62 | exactly the rows satisfying every given equality condition, each as often as it occurs in the table |
| BaseRepository.FindWhereNoConditions | app/Repositories/Eloquent/BaseRepository.php:59-62 | with no conditions, every row of the table (in the model's key order, which the source does not promise) |
| BaseRepository.FindIsTheRow | app/Repositories/Eloquent/BaseRepository.php:30-33 | with ascending ids, `find` on a row's id returns that row |
| BaseRepository.FindAfterPut | app/Repositories/Eloquent/BaseRepository.php:40-46 | after saving an existing row, `find` returns the new row for its id and the old answer for every other id |
| BaseRepository.FindAfterAppend | app/Repositories/Eloquent/BaseRepository.php:35-38 | a created row under a fresh id is found by it, and every other id is found as before |
| BaseRepository.FindAfterWithout | app/Repositories/Eloquent/BaseRepository.php:50-57 | after a delete, that id is not found and every other id is found as before |
| BaseRepository.Create | app/Repositories/Eloquent/BaseRepository.php:35-38 | appends exactly one row holding the given data under the next, previously unused id, and returns it |
| BaseRepository.Update | app/Repositories/Eloquent/BaseRepository.php:40-48 | on an existing id, saves the fillable attributes onto that row only, fires the hook and returns the row; on a missing id returns null and changes nothing |
| BaseRepository.Delete | app/Repositories/Eloquent/BaseRepository.php:50-57 | returns true exactly when the id existed, and removes only that row |
| StockRepository.GetByWarehouseAndItem | app/Repositories/Eloquent/StockRepository.php:15-22 | a row of the table with both the warehouse and the item, or null exactly when no row has both |
| StockRepository.LookupIsTheRow | app/Repositories/Eloquent/StockRepository.php:15-22 | when each pair has one row, the lookup returns exactly that row |
| StockRepository.GetLowStock | app/Repositories/Eloquent/StockRepository.php:24-30 | exactly the rows whose quantity is strictly below the threshold, each as often as it occurs in the table |
| StockRepository.HookAgreesWithLowStockListing | app/Repositories/Eloquent/StockRepository.php:24-30 | after a change, the hook notifies about a row exactly when the default low-stock listing contains it |
| StockRepository.GetAllWithRelations | app/Repositories/Eloquent/StockRepository.php:32-45 | the warehouse filter applies only when given, and so does the item filter; each selected row appears as often as it occurs in the table |
| StockRepository.GetAllWithRelationsUnfiltered | app/Repositories/Eloquent/StockRepository.php:32-45 | with no filters, every row of the table (in the model's key order, which the source does not promise); with both filters, the result is empty exactly when the lookup finds nothing |
| StockRepository.UpdateQuantity | app/Repositories/Eloquent/StockRepository.php:47-55 | on an existing id, sets that row's quantity to the argument, leaves its other fields and every other row alone, fires the hook and returns the row; on a missing id returns null and changes nothing |
| StockRepository.AdjustQuantity | app/Repositories/Eloquent/StockRepository.php:57-65 | on an existing id, sets the quantity to old + delta with no bound check, fires the hook and returns the row; on a missing id returns null and changes nothing |
| StockTable.QuantityWriteTotal | app/Repositories/Eloquent/StockRepository.php:47-55 | writing a row's quantity changes that item's total by exactly the difference |
| StockTable.QuantityWriteKeeps | app/Repositories/Eloquent/StockRepository.php:47-55 | a quantity write keeps one row per pair, and keeps quantities non-negative when the value written is non-negative |
| StockTable.QuantityMoveTotal | app/Services/StockTransferService.php:69-70 | debiting one row and crediting another row of the same item by the same amount leaves every item's total unchanged |
| StockTransferRepository.OrderByLatest | app/Repositories/Eloquent/StockTransferRepository.php:31 | a permutation of the log ordered by `transferred_at`, latest first |
| StockTransferRepository.GetByWarehouse | app/Repositories/Eloquent/StockTransferRepository.php:15-24 | exactly the transfers whose source or destination is the warehouse, each as often as in the log |
| StockTransferRepository.GetByItem | app/Repositories/Eloquent/StockTransferRepository.php:26-33 | exactly the transfers of the item, latest first |
| StockTransferRepository.GetAllWithRelations | app/Repositories/Eloquent/StockTransferRepository.php:35-47 | with no warehouse, every transfer; with one, the same transfers as `getByWarehouse`; latest first either way |
| StockTransferRepository.RecordedTransferIsListed | app/Services/StockTransferService.php:73-79 | an appended transfer appears under its source warehouse, its destination warehouse, its item and the unfiltered listing |
| StockTransferRepository.Create | app/Services/StockTransferService.php:73-79 | appends exactly the given record to the log and changes nothing else |
| StockService.LevelAlert | app/Services/StockService.php:59-62 | one `LowStockDetected(row, 10)` exactly when the saved row is below 10, whatever it held before |
| StockService.CrossingAlert | app/Services/StockService.php:77-80 | one `LowStockDetected(row, 10)` exactly when the old quantity was at least 10 and the new one is below 10 |
| StockService.RecordedRowIsSaved | app/Services/StockService.php:42-57 | the saved row belongs to the requested warehouse and item, is in the table, and holds the old quantity of that pair (0 when none) plus the amount |
| StockService.RecordStockIsIntake | app/Services/StockService.php:44-56 | recording raises the item's total by exactly the amount and leaves every other item's total unchanged |
| StockService.RecordStockKeepsInvariants | app/Services/StockService.php:44-56 | recording never adds a second row for a pair, and keeps quantities non-negative when the amount is non-negative |
| StockService.SaveRecorded | app/Services/StockService.php:44-57 | credits the matching row through `updateQuantity` (firing the hook) without creating a row, or creates exactly one row holding the amount under the next id, which fires nothing |
| StockService.RecordStock | app/Services/StockService.php:42-65 | credits the matching row without creating one, or creates exactly one new row; dispatches the hook's events and then the level alert |
| StockService.UpdateStockQuantity | app/Services/StockService.php:70-83 | sets the row's quantity exactly and leaves every other row alone; dispatches the hook's event, then the crossing alert; an unknown id returns null and changes nothing |
| StockService.UpdateStock | app/Services/StockService.php:88-91 | the generic update of the fillable attributes, with the hook |
| StockService.AdjustStock | app/Services/StockService.php:96-109 | changes the quantity by exactly delta with no bound, then the hook's event and the crossing alert; an unknown id changes nothing |
| StockService.DeleteStock | app/Services/StockService.php:114-117 | reports true exactly when the id existed; afterwards the id is gone and every other id is unchanged |
| StockService.RecordStockAlertCount | app/Services/StockService.php:46-62 | recording onto an existing row ending below 10 dispatches two events when the quantity changed, one when it did not, none otherwise |
| StockService.UpdateStockQuantityAlertCount | app/Services/StockService.php:72-80 | an update crossing below 10 dispatches two events, an update that stays below 10 and changes the row dispatches one, and any other update dispatches none |
| StockTransferService.DestinationExists | app/Services/StockTransferService.php:57-66 | ensuring the destination row keeps ids ascending, every item's total and every existing row; every id except the destination's is found as before |
| StockTransferService.RowsKeptWithDestination | app/Services/StockTransferService.php:57-66 | every existing row and the destination row are in the table once the destination row exists |
| StockTransferService.DistinctRows | app/Services/StockTransferService.php:49-66 | between different warehouses, source and destination are different rows |
| StockTransferService.TransferConserves | app/Services/StockTransferService.php:69-70 | between different warehouses, no item's total over all warehouses changes |
| StockTransferService.TransferMovesQuantity | app/Services/StockTransferService.php:49-70 | the source drops by exactly the quantity and stays non-negative; the destination rises by exactly the quantity; a missing destination is created at 0 under the next id; no other row changes |
| StockTransferService.TransferKeepsInvariants | app/Services/StockTransferService.php:49-70 | a transfer keeps one row per pair, and keeps quantities non-negative when the quantity moved is non-negative |
| StockTransferService.SameWarehouseTransferCredits | app/Services/StockTransferService.php:49-70 | with the same warehouse on both sides, the row ends at old + quantity and the item's total grows by the quantity |
| StockTransferService.TransferAlertCount | app/Services/StockTransferService.php:69-70 | between different warehouses, each leg dispatches one event when it moved a non-zero quantity and ends below 10, and none otherwise |
| StockTransferService.TransferWrites | app/Services/StockTransferService.php:69-70 | the two quantity writes, as their contracts describe them, leave exactly the transferred table and the transfer's events |
| StockTransferService.GetOrCreateDestination | app/Services/StockTransferService.php:57-66 | returns the destination row, created at 0 under the next id when missing, and changes nothing else |
| StockTransferService.MoveStock | app/Services/StockTransferService.php:69-70 | the debit and then the credit leave the transferred table, dispatch the transfer's events, and keep the log and the counter |
| StockTransferService.TransferStock | app/Services/StockTransferService.php:45-83 | fails with "Insufficient quantity in the source warehouse." exactly when the source row is missing or short, and then nothing changes; otherwise leaves the transferred table and appends one record with the given item, warehouses, quantity and time |
| Scenarios.TransferScenario | app/Services/StockTransferService.php:49-79 | from 15 held, moving 20 fails and changes nothing; moving 5 leaves 10 and a new row with 5, and one record |
| Scenarios.QuantityUpdateScenario | app/Services/StockService.php:70-83 | 12 set to 8 dispatches two events; 8 set to 5 dispatches one more |
| Scenarios.AdjustScenario | app/Services/StockService.php:96-109 | adjusting 5 by -1000 gives -995 |

## Left out

- Pagination (`paginate`, `$perPage`): queries are modelled as the full filtered sequences.
- Relation loading (`with`, `load`): it does not change any stored value.
- Caching and the controllers, including their JSON envelopes and status codes.
- Concurrency and transaction isolation. `DB::transaction` is modelled as all-or-nothing on one
  sequential state: the only failure, the sufficiency check, comes before the first write.
- Database errors, other exceptions thrown inside the transaction, and the rollback they cause.
- Event delivery (the queued listener): a dispatch is an append to `Store.events`.
- `now()`: it is the `now` parameter of `StockTransferService.TransferStock`.
- `BaseRepository` is specialised to the stocks table. On the transfer log only `create` is
  used, and it is modelled as an append.
- `all`, `paginate` and the single-record `find` on transfers (`getTransfer`).
- The service delegates with nothing of their own: `getStock`, `getAllStocks`,
  `getStockByWarehouseAndItem`, `getLowStockItems`, `getAllTransfers` and
  `getItemTransferHistory`. They return the repository query they call, which is modelled.
- `StockTransferRepository.OrderByLatest`: the order among transfers with equal `transferred_at`
  is not specified. The model only states latest-first and the same multiset.
- `StockRepository.GetByWarehouseAndItem`: when several rows match, the model returns the first
  in primary-key order. The database's `first()` without `orderBy` does not promise this.
- The request validation (`exists:` rules, `different:`, `min:`) is not part of the model. The
  lemmas that need `from != to` or a non-negative quantity take it as a precondition.
- `StockService.UpdateStockQuantity` and `StockService.AdjustStock` do not restate, in their
  own contracts, that one row per pair and non-negative quantities are kept. Their contracts
  say the table they leave is `Put` of the row with its new quantity, and
  `StockTable.QuantityWriteKeeps` proves both properties for that table.
- `BaseRepository.FindWhereNoConditions`: the listing comes back in primary-key order because
  the model keeps the table in that order. `where($conditions)->get()` has no `orderBy`, so the
  source does not promise any order; only the rows and their multiplicity are the source's.
- `StockRepository.GetAllWithRelationsUnfiltered`: likewise, key order is the model's choice.
  The query has no `orderBy`, so the database may return the page in any order.
- `BaseRepository.FindWhere`: the conditions are a `StockAttributes`, so they can only test
  equality on `warehouse_id`, `inventory_item_id` and `quantity`. The source's `where($conditions)`
  also accepts any other column (such as `id` or the timestamps) and Eloquent's
  `[column, operator, value]` form; those conditions are not modelled.
- Integer widths: quantities are unbounded integers. The database column's overflow is not
  modelled.
