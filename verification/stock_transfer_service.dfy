/** The transfer service: `transferStock` moves a quantity of one item from one warehouse's
    stock row to another's, inside one transaction, and records the movement. */
module StockTransferService {
  import opened Wrappers
  import opened Sequences
  import opened StockModel
  import opened StockTransferModel
  import opened Database
  import opened BaseRepository
  import opened StockRepository
  import opened StockTable
  import StockTransferRepository

  /** The message of the exception thrown when the source cannot cover the transfer. */
  const InsufficientQuantity: string := "Insufficient quantity in the source warehouse."

  /** The sufficiency check: the source warehouse has a row for the item holding at least `quantity`. */
  predicate CanTransfer(rows: seq<Stock>, fromWarehouseId: int, itemId: int, quantity: int) {
    var source := GetByWarehouseAndItem(rows, fromWarehouseId, itemId);
    source.Some? && source.value.quantity >= quantity
  }

  /** The row the transfer debits. */
  function Source(rows: seq<Stock>, fromWarehouseId: int, itemId: int, quantity: int): Stock
    requires CanTransfer(rows, fromWarehouseId, itemId, quantity)
  {
    GetByWarehouseAndItem(rows, fromWarehouseId, itemId).value
  }

  /** The row the transfer credits: the destination's row for the item, or the empty row
      created for it under the next id. */
  function Destination(rows: seq<Stock>, nextId: nat, toWarehouseId: int, itemId: int): Stock {
    match GetByWarehouseAndItem(rows, toWarehouseId, itemId)
    case Some(d) => d
    case None => Stock(nextId, toWarehouseId, itemId, 0)
  }

  /** The table once the destination row exists. */
  function WithDestination(rows: seq<Stock>, nextId: nat, toWarehouseId: int, itemId: int): seq<Stock> {
    if GetByWarehouseAndItem(rows, toWarehouseId, itemId).Some? then rows
    else rows + [Stock(nextId, toWarehouseId, itemId, 0)]
  }

  /** The source row as the first quantity write saves it. */
  function Debited(rows: seq<Stock>, fromWarehouseId: int, itemId: int, quantity: int): Stock
    requires CanTransfer(rows, fromWarehouseId, itemId, quantity)
  {
    var source := Source(rows, fromWarehouseId, itemId, quantity);
    source.(quantity := source.quantity - quantity)
  }

  /** The destination row as the second quantity write saves it: computed from the destination
      row as it was read before the debit. */
  function Credited(rows: seq<Stock>, nextId: nat, toWarehouseId: int, itemId: int, quantity: int): Stock {
    var destination := Destination(rows, nextId, toWarehouseId, itemId);
    destination.(quantity := destination.quantity + quantity)
  }

  /** The stocks table after a successful `transferStock`. */
  function Transferred(rows: seq<Stock>, nextId: nat, fromWarehouseId: int, toWarehouseId: int, itemId: int, quantity: int): seq<Stock>
    requires CanTransfer(rows, fromWarehouseId, itemId, quantity)
  {
    Put(Put(WithDestination(rows, nextId, toWarehouseId, itemId), Debited(rows, fromWarehouseId, itemId, quantity)),
        Credited(rows, nextId, toWarehouseId, itemId, quantity))
  }

  /** The events a successful `transferStock` dispatches: the `updated` hook of each of the two
      writes, each comparing the saved row with the row as it was just before that write. */
  function TransferEvents(rows: seq<Stock>, nextId: nat, fromWarehouseId: int, toWarehouseId: int, itemId: int, quantity: int): seq<LowStockDetected>
    requires CanTransfer(rows, fromWarehouseId, itemId, quantity)
  {
    var debited := Debited(rows, fromWarehouseId, itemId, quantity);
    var destination := Destination(rows, nextId, toWarehouseId, itemId);
    UpdatedHook(Source(rows, fromWarehouseId, itemId, quantity), debited)
      + UpdatedHook(if fromWarehouseId == toWarehouseId then debited else destination,
                    Credited(rows, nextId, toWarehouseId, itemId, quantity))
  }

  /** Making sure the destination row exists keeps ids ascending, adds nothing to any total,
      and keeps every row already there; the destination row is in the result. */
  lemma DestinationExists(rows: seq<Stock>, nextId: nat, toWarehouseId: int, itemId: int, item: int)
    requires IdsAscending(rows) && IdsBelow(rows, nextId)
    ensures var withDestination := WithDestination(rows, nextId, toWarehouseId, itemId);
      && IdsAscending(withDestination)
      && Destination(rows, nextId, toWarehouseId, itemId) in withDestination
      && Total(withDestination, item) == Total(rows, item)
      && (forall s :: s in rows ==> s in withDestination)
      && (forall id :: id != Destination(rows, nextId, toWarehouseId, itemId).id ==> Find(withDestination, id) == Find(rows, id))
  {
    var created := Stock(nextId, toWarehouseId, itemId, 0);
    if GetByWarehouseAndItem(rows, toWarehouseId, itemId).None? {
      TotalAppend(rows, created, item);
      assert (rows + [created])[|rows|] == created;
      forall id | id != created.id ensures Find(rows + [created], id) == Find(rows, id) {
        FindAfterAppend(rows, created, id);
      }
      FindAfterAppend(rows, created, created.id);
    }
  }

  /** The rows of the table, and the destination row, are all in the table once the
      destination row exists. */
  lemma RowsKeptWithDestination(rows: seq<Stock>, nextId: nat, toWarehouseId: int, itemId: int, s: Stock)
    requires s in rows
    ensures s in WithDestination(rows, nextId, toWarehouseId, itemId)
    ensures Destination(rows, nextId, toWarehouseId, itemId) in WithDestination(rows, nextId, toWarehouseId, itemId)
  {
    var created := Stock(nextId, toWarehouseId, itemId, 0);
    if GetByWarehouseAndItem(rows, toWarehouseId, itemId).None? {
      assert (rows + [created])[|rows|] == created;
    }
  }

  /** When the two warehouses differ, the source and destination are distinct rows of the
      table after the destination row exists, so their ids differ. */
  lemma DistinctRows(rows: seq<Stock>, nextId: nat, fromWarehouseId: int, toWarehouseId: int, itemId: int, quantity: int)
    requires IdsAscending(rows) && IdsBelow(rows, nextId)
    requires CanTransfer(rows, fromWarehouseId, itemId, quantity) && fromWarehouseId != toWarehouseId
    ensures Source(rows, fromWarehouseId, itemId, quantity).id != Destination(rows, nextId, toWarehouseId, itemId).id
  {
    var source := Source(rows, fromWarehouseId, itemId, quantity);
    var destination := Destination(rows, nextId, toWarehouseId, itemId);
    DestinationExists(rows, nextId, toWarehouseId, itemId, itemId);
    var withDestination := WithDestination(rows, nextId, toWarehouseId, itemId);
    if source.id == destination.id {
      IdsUnique(withDestination, source, destination);
      assert false;
    }
  }

  /** Conservation: between two different warehouses a transfer changes no item's total
      over all warehouses; in particular the transferred item's total stays. */
  lemma {:induction false} TransferConserves(rows: seq<Stock>, nextId: nat, fromWarehouseId: int, toWarehouseId: int, itemId: int, quantity: int, item: int)
    requires IdsAscending(rows) && IdsBelow(rows, nextId)
    requires CanTransfer(rows, fromWarehouseId, itemId, quantity) && fromWarehouseId != toWarehouseId
    ensures Total(Transferred(rows, nextId, fromWarehouseId, toWarehouseId, itemId, quantity), item) == Total(rows, item)
  {
    var source := Source(rows, fromWarehouseId, itemId, quantity);
    var destination := Destination(rows, nextId, toWarehouseId, itemId);
    var withDestination := WithDestination(rows, nextId, toWarehouseId, itemId);
    DestinationExists(rows, nextId, toWarehouseId, itemId, item);
    DistinctRows(rows, nextId, fromWarehouseId, toWarehouseId, itemId, quantity);
    QuantityMoveTotal(withDestination, source, Debited(rows, fromWarehouseId, itemId, quantity),
                      destination, Credited(rows, nextId, toWarehouseId, itemId, quantity), quantity, item);
  }

  /** A transfer between two different warehouses debits the source row by exactly `quantity`,
      leaving it non-negative, credits the destination row by exactly `quantity`, and leaves every other id as it was;
      a destination row that did not exist is the one created under the next id. */
  lemma TransferMovesQuantity(rows: seq<Stock>, nextId: nat, fromWarehouseId: int, toWarehouseId: int, itemId: int, quantity: int)
    requires IdsAscending(rows) && IdsBelow(rows, nextId)
    requires CanTransfer(rows, fromWarehouseId, itemId, quantity) && fromWarehouseId != toWarehouseId
    ensures var source := Source(rows, fromWarehouseId, itemId, quantity);
      var destination := Destination(rows, nextId, toWarehouseId, itemId);
      var after := Transferred(rows, nextId, fromWarehouseId, toWarehouseId, itemId, quantity);
      && source.quantity - quantity >= 0
      && Find(after, source.id) == Some(source.(quantity := source.quantity - quantity))
      && Find(after, destination.id) == Some(destination.(quantity := destination.quantity + quantity))
      && (GetByWarehouseAndItem(rows, toWarehouseId, itemId).None? ==> destination == Stock(nextId, toWarehouseId, itemId, 0))
      && forall id :: id != source.id && id != destination.id ==> Find(after, id) == Find(rows, id)
  {
    var source := Source(rows, fromWarehouseId, itemId, quantity);
    var destination := Destination(rows, nextId, toWarehouseId, itemId);
    var withDestination := WithDestination(rows, nextId, toWarehouseId, itemId);
    DestinationExists(rows, nextId, toWarehouseId, itemId, itemId);
    DistinctRows(rows, nextId, fromWarehouseId, toWarehouseId, itemId, quantity);
    var debited := Debited(rows, fromWarehouseId, itemId, quantity);
    var credited := Credited(rows, nextId, toWarehouseId, itemId, quantity);
    FindIsTheRow(withDestination, source);
    FindIsTheRow(withDestination, destination);
    var afterDebit := Put(withDestination, debited);
    FindAfterPut(withDestination, debited, destination.id);
    forall id ensures Find(afterDebit, id) == if id == source.id then Some(debited) else Find(withDestination, id) {
      FindAfterPut(withDestination, debited, id);
    }
    forall id ensures Find(Put(afterDebit, credited), id) == if id == destination.id then Some(credited) else Find(afterDebit, id) {
      FindAfterPut(afterDebit, credited, id);
    }
  }

  /** A transfer keeps each (warehouse, item) pair to one row when it was so, and keeps every
      quantity non-negative when it was so and the quantity moved is not negative. */
  lemma TransferKeepsInvariants(rows: seq<Stock>, nextId: nat, fromWarehouseId: int, toWarehouseId: int, itemId: int, quantity: int)
    requires IdsAscending(rows) && IdsBelow(rows, nextId)
    requires CanTransfer(rows, fromWarehouseId, itemId, quantity)
    ensures UniqueLocations(rows) ==> UniqueLocations(Transferred(rows, nextId, fromWarehouseId, toWarehouseId, itemId, quantity))
    ensures NonNegative(rows) && quantity >= 0 ==> NonNegative(Transferred(rows, nextId, fromWarehouseId, toWarehouseId, itemId, quantity))
  {
    var source := Source(rows, fromWarehouseId, itemId, quantity);
    var destination := Destination(rows, nextId, toWarehouseId, itemId);
    var withDestination := WithDestination(rows, nextId, toWarehouseId, itemId);
    DestinationExists(rows, nextId, toWarehouseId, itemId, itemId);
    if GetByWarehouseAndItem(rows, toWarehouseId, itemId).None? {
      RowInsert(rows, destination);
    }
    if NonNegative(rows) {
      assert NonNegative(withDestination);
      var k :| 0 <= k < |withDestination| && withDestination[k] == destination;
    }
    QuantityWritesKeep(withDestination, source, Debited(rows, fromWarehouseId, itemId, quantity),
                       destination, Credited(rows, nextId, toWarehouseId, itemId, quantity));
  }

  /** What the source does when both warehouses are the same (the request validation forbids
      it): the second write starts from the row read before the debit, so the row ends up
      credited by `quantity` instead of unchanged, and the item's total grows by `quantity`. */
  lemma SameWarehouseTransferCredits(rows: seq<Stock>, nextId: nat, warehouseId: int, itemId: int, quantity: int)
    requires IdsAscending(rows)
    requires CanTransfer(rows, warehouseId, itemId, quantity)
    ensures var source := Source(rows, warehouseId, itemId, quantity);
      Credited(rows, nextId, warehouseId, itemId, quantity) == source.(quantity := source.quantity + quantity)
    ensures Transferred(rows, nextId, warehouseId, warehouseId, itemId, quantity) == Put(rows, Credited(rows, nextId, warehouseId, itemId, quantity))
    ensures Total(Transferred(rows, nextId, warehouseId, warehouseId, itemId, quantity), itemId) == Total(rows, itemId) + quantity
  {
    var source := Source(rows, warehouseId, itemId, quantity);
    var debited := Debited(rows, warehouseId, itemId, quantity);
    var credited := Credited(rows, nextId, warehouseId, itemId, quantity);
    assert Destination(rows, nextId, warehouseId, itemId) == source;
    assert WithDestination(rows, nextId, warehouseId, itemId) == rows;
    assert credited == source.(quantity := source.quantity + quantity);
    PutTwice(rows, debited, credited);
    assert Transferred(rows, nextId, warehouseId, warehouseId, itemId, quantity) == Put(rows, credited);
    assert source in rows && source.inventoryItemId == itemId;
    QuantityWriteTotal(rows, source, credited, itemId);
    assert Total(Put(rows, credited), itemId) == Total(rows, itemId) + quantity;
  }

  /** Between two different warehouses each leg notifies at most once: the debit when the
      source ends below the threshold, the credit when the destination ends below it, each
      only when the quantity moved is not zero. */
  lemma TransferAlertCount(rows: seq<Stock>, nextId: nat, fromWarehouseId: int, toWarehouseId: int, itemId: int, quantity: int)
    requires CanTransfer(rows, fromWarehouseId, itemId, quantity) && fromWarehouseId != toWarehouseId
    ensures var source := Source(rows, fromWarehouseId, itemId, quantity);
      var destination := Destination(rows, nextId, toWarehouseId, itemId);
      TransferEvents(rows, nextId, fromWarehouseId, toWarehouseId, itemId, quantity)
        == (if quantity != 0 && source.quantity - quantity < LowStockThreshold
            then [LowStockDetected(source.(quantity := source.quantity - quantity), LowStockThreshold)] else [])
         + (if quantity != 0 && destination.quantity + quantity < LowStockThreshold
            then [LowStockDetected(destination.(quantity := destination.quantity + quantity), LowStockThreshold)] else [])
  {
  }

  /** The two `updateQuantity` calls of `transferStock`, as their contracts describe them,
      leave exactly the table and the events the specification functions give. */
  lemma TransferWrites(rows: seq<Stock>, nextId: nat, fromWarehouseId: int, toWarehouseId: int, itemId: int, quantity: int,
                       source: Stock, destination: Stock, withDestination: seq<Stock>,
                       debited: Option<Stock>, afterDebit: seq<Stock>, eventsBefore: seq<LowStockDetected>, eventsAfterDebit: seq<LowStockDetected>,
                       credited: Option<Stock>, after: seq<Stock>, eventsAfter: seq<LowStockDetected>)
    requires IdsAscending(rows) && IdsBelow(rows, nextId)
    requires CanTransfer(rows, fromWarehouseId, itemId, quantity) && source == GetByWarehouseAndItem(rows, fromWarehouseId, itemId).value
    requires destination == Destination(rows, nextId, toWarehouseId, itemId) && withDestination == WithDestination(rows, nextId, toWarehouseId, itemId)
    requires debited.Some? <==> Find(withDestination, source.id).Some?
    requires debited.Some? ==> debited.value == Find(withDestination, source.id).value.(quantity := source.quantity - quantity)
    requires debited.Some? ==> afterDebit == Put(withDestination, debited.value)
    requires debited.Some? ==> eventsAfterDebit == eventsBefore + UpdatedHook(Find(withDestination, source.id).value, debited.value)
    requires credited.Some? <==> Find(afterDebit, destination.id).Some?
    requires credited.Some? ==> credited.value == Find(afterDebit, destination.id).value.(quantity := destination.quantity + quantity)
    requires credited.Some? ==> after == Put(afterDebit, credited.value)
    requires credited.Some? ==> eventsAfter == eventsAfterDebit + UpdatedHook(Find(afterDebit, destination.id).value, credited.value)
    ensures after == Transferred(rows, nextId, fromWarehouseId, toWarehouseId, itemId, quantity)
    ensures eventsAfter == eventsBefore + TransferEvents(rows, nextId, fromWarehouseId, toWarehouseId, itemId, quantity)
  {
    var debitedRow := Debited(rows, fromWarehouseId, itemId, quantity);
    var creditedRow := Credited(rows, nextId, toWarehouseId, itemId, quantity);
    RowsKeptWithDestination(rows, nextId, toWarehouseId, itemId, source);
    DestinationExists(rows, nextId, toWarehouseId, itemId, itemId);
    FindIsTheRow(withDestination, source);
    assert debitedRow == source.(quantity := source.quantity - quantity);
    assert afterDebit == Put(withDestination, debitedRow);
    assert eventsAfterDebit == eventsBefore + UpdatedHook(source, debitedRow);
    var overwritten := if fromWarehouseId == toWarehouseId then debitedRow else destination;
    FindAfterPut(withDestination, debitedRow, destination.id);
    if fromWarehouseId != toWarehouseId {
      DistinctRows(rows, nextId, fromWarehouseId, toWarehouseId, itemId, quantity);
      FindIsTheRow(withDestination, destination);
    }
    assert Find(afterDebit, destination.id) == Some(overwritten);
    assert creditedRow == overwritten.(quantity := destination.quantity + quantity);
    assert after == Put(afterDebit, creditedRow);
    assert eventsAfter == eventsAfterDebit + UpdatedHook(overwritten, creditedRow);
    AppendTwice(eventsBefore, UpdatedHook(source, debitedRow), UpdatedHook(overwritten, creditedRow));
  }

  /** The destination step of `transferStock`: the destination's row for the item, created
      empty when there is none. */
  method GetOrCreateDestination(db: Store, toWarehouseId: int, itemId: int) returns (destination: Stock)
    requires db.Valid()
    modifies db
    ensures db.Valid()
    ensures destination == Destination(old(db.stocks), old(db.nextStockId), toWarehouseId, itemId)
    ensures db.stocks == WithDestination(old(db.stocks), old(db.nextStockId), toWarehouseId, itemId)
    ensures db.nextStockId == old(db.nextStockId) + if GetByWarehouseAndItem(old(db.stocks), toWarehouseId, itemId).None? then 1 else 0
    ensures db.transfers == old(db.transfers) && db.events == old(db.events)
  {
    var destinationStock := GetByWarehouseAndItem(db.stocks, toWarehouseId, itemId);
    if destinationStock.None? {
      destination := BaseRepository.Create(db, toWarehouseId, itemId, 0);
    } else {
      destination := destinationStock.value;
    }
  }

  /** The two writes of `transferStock`: the source debited by `quantity`, then the
      destination credited by it, each through `updateQuantity` and its `updated` hook. */
  method MoveStock(db: Store, ghost rows: seq<Stock>, ghost nextId: nat, fromWarehouseId: int, toWarehouseId: int,
                   itemId: int, quantity: int, source: Stock, destination: Stock)
    requires db.Valid() && IdsAscending(rows) && IdsBelow(rows, nextId)
    requires CanTransfer(rows, fromWarehouseId, itemId, quantity) && source == GetByWarehouseAndItem(rows, fromWarehouseId, itemId).value
    requires destination == Destination(rows, nextId, toWarehouseId, itemId)
    requires db.stocks == WithDestination(rows, nextId, toWarehouseId, itemId)
    modifies db
    ensures db.Valid()
    ensures db.stocks == Transferred(rows, nextId, fromWarehouseId, toWarehouseId, itemId, quantity)
    ensures db.events == old(db.events) + TransferEvents(rows, nextId, fromWarehouseId, toWarehouseId, itemId, quantity)
    ensures db.transfers == old(db.transfers) && db.nextStockId == old(db.nextStockId)
  {
    ghost var withDestination := db.stocks;
    var debited := UpdateQuantity(db, source.id, source.quantity - quantity);
    ghost var afterDebit := db.stocks;
    ghost var eventsAfterDebit := db.events;
    var credited := UpdateQuantity(db, destination.id, destination.quantity + quantity);
    TransferWrites(rows, nextId, fromWarehouseId, toWarehouseId, itemId, quantity, source, destination, withDestination,
                   debited, afterDebit, old(db.events), eventsAfterDebit, credited, db.stocks, db.events);
  }

  /** `transferStock`: inside one transaction, checks the source covers the quantity, makes
      sure the destination row exists, writes the debited source and the credited destination,
      and appends the transfer record stamped `now`. On an insufficient source it throws, and
      nothing has changed. */
  method TransferStock(db: Store, fromWarehouseId: int, toWarehouseId: int, itemId: int, quantity: int, now: int)
    returns (r: Result<StockTransfer, string>)
    requires db.Valid()
    modifies db
    ensures db.Valid()
    ensures r.Failure? <==> !CanTransfer(old(db.stocks), fromWarehouseId, itemId, quantity)
    ensures r.Failure? ==>
      && r.error == InsufficientQuantity
      && db.stocks == old(db.stocks) && db.nextStockId == old(db.nextStockId)
      && db.transfers == old(db.transfers) && db.events == old(db.events)
    ensures r.Success? ==>
      && r.value == StockTransfer(itemId, fromWarehouseId, toWarehouseId, quantity, now)
      && db.transfers == old(db.transfers) + [r.value]
      && db.stocks == Transferred(old(db.stocks), old(db.nextStockId), fromWarehouseId, toWarehouseId, itemId, quantity)
      && db.nextStockId == old(db.nextStockId) + (if GetByWarehouseAndItem(old(db.stocks), toWarehouseId, itemId).None? then 1 else 0)
      && db.events == old(db.events) + TransferEvents(old(db.stocks), old(db.nextStockId), fromWarehouseId, toWarehouseId, itemId, quantity)
  {
    var sourceStock := GetByWarehouseAndItem(db.stocks, fromWarehouseId, itemId);
    if sourceStock.None? || sourceStock.value.quantity < quantity {
      return Failure(InsufficientQuantity);
    }
    var source := sourceStock.value;
    ghost var rows := db.stocks;
    ghost var nextId := db.nextStockId;

    var destination := GetOrCreateDestination(db, toWarehouseId, itemId);
    MoveStock(db, rows, nextId, fromWarehouseId, toWarehouseId, itemId, quantity, source, destination);

    var transfer := StockTransfer(itemId, fromWarehouseId, toWarehouseId, quantity, now);
    StockTransferRepository.Create(db, transfer);
    r := Success(transfer);
  }
}
