/** Lemmas about how the writes the repositories make (saving one row, inserting one row)
    affect the table invariants and the per-item totals. */
module StockTable {
  import opened StockModel
  import opened Database
  import opened BaseRepository
  import opened StockRepository

  /** Saving `s` over a row of the table keeps every quantity non-negative when `s`'s is. */
  lemma PutKeepsNonNegative(rows: seq<Stock>, s: Stock)
    requires NonNegative(rows) && s.quantity >= 0
    ensures NonNegative(Put(rows, s))
  {
    forall x | x in Put(rows, s) ensures x.quantity >= 0 {
      var k :| 0 <= k < |Put(rows, s)| && Put(rows, s)[k] == x;
      assert x == s || x == rows[k];
    }
  }

  /** Saving a row without moving it to another (warehouse, item) keeps the pairs unique. */
  lemma PutKeepsUniqueLocations(rows: seq<Stock>, k: nat, s: Stock)
    requires IdsAscending(rows) && UniqueLocations(rows) && k < |rows| && rows[k].id == s.id
    requires At(s, rows[k].warehouseId, rows[k].inventoryItemId)
    ensures UniqueLocations(Put(rows, s))
  {
    var after := Put(rows, s);
    forall i | 0 <= i < |after| ensures At(after[i], rows[i].warehouseId, rows[i].inventoryItemId) {
      if rows[i].id == s.id {
        assert i == k;
      }
    }
  }

  /** Inserting a row for a (warehouse, item) pair that has none keeps the pairs unique. */
  lemma AppendKeepsUniqueLocations(rows: seq<Stock>, s: Stock)
    requires UniqueLocations(rows) && GetByWarehouseAndItem(rows, s.warehouseId, s.inventoryItemId).None?
    ensures UniqueLocations(rows + [s])
  {
    var after := rows + [s];
    forall i, j | 0 <= i < j < |after|
      ensures after[i].warehouseId != after[j].warehouseId || after[i].inventoryItemId != after[j].inventoryItemId
    {
      if j == |rows| {
        assert after[i] in rows;
      }
    }
  }

  /** Saving `written`, the row `s` with a new quantity, moves the total of `s`'s item by the
      difference and leaves every other item's total alone. */
  lemma QuantityWriteTotal(rows: seq<Stock>, s: Stock, written: Stock, item: int)
    requires IdsAscending(rows) && s in rows && written == s.(quantity := written.quantity)
    ensures Total(Put(rows, written), item)
            == Total(rows, item) + (if s.inventoryItemId == item then written.quantity - s.quantity else 0)
  {
    var k :| 0 <= k < |rows| && rows[k] == s;
    TotalPut(rows, k, written, item);
  }

  /** Saving a new quantity into the row `s` keeps the table invariants that held. */
  lemma QuantityWriteKeeps(rows: seq<Stock>, s: Stock, quantity: int)
    requires IdsAscending(rows) && s in rows
    ensures UniqueLocations(rows) ==> UniqueLocations(Put(rows, s.(quantity := quantity)))
    ensures NonNegative(rows) && quantity >= 0 ==> NonNegative(Put(rows, s.(quantity := quantity)))
  {
    var k :| 0 <= k < |rows| && rows[k] == s;
    if UniqueLocations(rows) {
      PutKeepsUniqueLocations(rows, k, s.(quantity := quantity));
    }
    if NonNegative(rows) && quantity >= 0 {
      PutKeepsNonNegative(rows, s.(quantity := quantity));
    }
  }

  /** Inserting a new row for a (warehouse, item) pair that has none keeps the table invariants that held. */
  lemma RowInsert(rows: seq<Stock>, s: Stock)
    requires GetByWarehouseAndItem(rows, s.warehouseId, s.inventoryItemId).None?
    ensures UniqueLocations(rows) ==> UniqueLocations(rows + [s])
    ensures NonNegative(rows) && s.quantity >= 0 ==> NonNegative(rows + [s])
  {
    if UniqueLocations(rows) {
      AppendKeepsUniqueLocations(rows, s);
    }
  }

  /** Saving a row leaves every other row of the table in it. */
  lemma PutKeepsOthers(rows: seq<Stock>, s: Stock, other: Stock)
    requires other in rows && other.id != s.id
    ensures other in Put(rows, s)
  {
    var k :| 0 <= k < |rows| && rows[k] == other;
    assert Put(rows, s)[k] == other;
  }

  /** Taking `quantity` from one row and adding it to another row of the same item leaves
      every item's total unchanged. */
  lemma QuantityMoveTotal(rows: seq<Stock>, a: Stock, debited: Stock, b: Stock, credited: Stock, quantity: int, item: int)
    requires IdsAscending(rows) && a in rows && b in rows && a.id != b.id
    requires a.inventoryItemId == b.inventoryItemId
    requires debited == a.(quantity := a.quantity - quantity) && credited == b.(quantity := b.quantity + quantity)
    ensures Total(Put(Put(rows, debited), credited), item) == Total(rows, item)
  {
    var afterDebit := Put(rows, debited);
    assert Total(afterDebit, item) == Total(rows, item) - (if a.inventoryItemId == item then quantity else 0) by {
      QuantityWriteTotal(rows, a, debited, item);
    }
    assert IdsAscending(afterDebit) && b in afterDebit by {
      PutAscending(rows, debited);
      PutKeepsOthers(rows, debited, b);
    }
    assert Total(Put(afterDebit, credited), item) == Total(afterDebit, item) + (if b.inventoryItemId == item then quantity else 0) by {
      QuantityWriteTotal(afterDebit, b, credited, item);
    }
  }

  /** Two quantity writes, each to a row of the table, keep the invariants that held, provided
      the quantities written are not negative. */
  lemma QuantityWritesKeep(rows: seq<Stock>, a: Stock, debited: Stock, b: Stock, credited: Stock)
    requires IdsAscending(rows) && a in rows && b in rows
    requires debited == a.(quantity := debited.quantity) && credited == b.(quantity := credited.quantity)
    ensures UniqueLocations(rows) ==> UniqueLocations(Put(Put(rows, debited), credited))
    ensures NonNegative(rows) && debited.quantity >= 0 && credited.quantity >= 0
            ==> NonNegative(Put(Put(rows, debited), credited))
  {
    QuantityWriteKeeps(rows, a, debited.quantity);
    PutAscending(rows, debited);
    var k :| 0 <= k < |rows| && rows[k] == b;
    var afterDebit := Put(rows, debited);
    assert afterDebit[k].id == b.id && At(credited, afterDebit[k].warehouseId, afterDebit[k].inventoryItemId);
    if UniqueLocations(rows) {
      PutKeepsUniqueLocations(afterDebit, k, credited);
    }
    if NonNegative(rows) && debited.quantity >= 0 && credited.quantity >= 0 {
      PutKeepsNonNegative(afterDebit, credited);
    }
  }

  /** Writing the same row twice leaves what the second write saved. */
  lemma PutTwice(rows: seq<Stock>, s: Stock, t: Stock)
    requires s.id == t.id
    ensures Put(Put(rows, s), t) == Put(rows, t)
  {
    var twice := Put(Put(rows, s), t);
    forall k | 0 <= k < |rows| ensures twice[k] == Put(rows, t)[k] {
    }
  }
}
