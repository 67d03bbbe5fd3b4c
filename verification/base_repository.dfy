/** The generic repository operations, on the stocks table: `find`, `create`, `update`,
    `delete` and `findWhere`. Saving a row fires the `Stock` model's `updated` hook. */
module BaseRepository {
  import opened Wrappers
  import opened Sequences
  import opened StockModel
  import opened Database

  /** The position of the row with primary key `id`. */
  function IndexOf(rows: seq<Stock>, id: nat): (r: Option<nat>)
    ensures r.Some? ==> r.value < |rows| && rows[r.value].id == id
    ensures r.None? ==> forall k :: 0 <= k < |rows| ==> rows[k].id != id
  {
    if rows == [] then None
    else if rows[0].id == id then Some(0)
    else match IndexOf(rows[1..], id)
      case None => None
      case Some(k) => Some(k + 1)
  }

  /** `find($id)`: the row with that primary key, or null. */
  function Find(rows: seq<Stock>, id: nat): (r: Option<Stock>)
    ensures r.Some? ==> r.value in rows && r.value.id == id
    ensures r.None? ==> forall k :: 0 <= k < |rows| ==> rows[k].id != id
  {
    match IndexOf(rows, id)
    case None => None
    case Some(k) => Some(rows[k])
  }

  /** The table after `UPDATE ... WHERE id = s.id` writes `s`. */
  function Put(rows: seq<Stock>, s: Stock): (r: seq<Stock>)
    ensures |r| == |rows|
    ensures forall k :: 0 <= k < |rows| ==> r[k] == if rows[k].id == s.id then s else rows[k]
  {
    if rows == [] then [] else [if rows[0].id == s.id then s else rows[0]] + Put(rows[1..], s)
  }

  /** The table after `DELETE ... WHERE id = id`. */
  function Without(rows: seq<Stock>, id: nat): seq<Stock> {
    Filter(rows, (s: Stock) => s.id != id)
  }

  /** Whether a row meets every condition given (absent conditions are not checked). */
  predicate Matches(s: Stock, conditions: StockAttributes) {
    && (conditions.warehouseId.Some? ==> s.warehouseId == conditions.warehouseId.value)
    && (conditions.inventoryItemId.Some? ==> s.inventoryItemId == conditions.inventoryItemId.value)
    && (conditions.quantity.Some? ==> s.quantity == conditions.quantity.value)
  }

  /** `findWhere($conditions)`: exactly the rows meeting all the equality conditions, each as
      often as it occurs in the table. */
  function FindWhere(rows: seq<Stock>, conditions: StockAttributes): (r: seq<Stock>)
    ensures forall s :: s in r <==> s in rows && Matches(s, conditions)
    ensures forall s :: multiset(r)[s] == if Matches(s, conditions) then multiset(rows)[s] else 0
  {
    var r := Filter(rows, (s: Stock) => Matches(s, conditions));
    assert forall s :: multiset(r)[s] == if Matches(s, conditions) then multiset(rows)[s] else 0 by {
      forall s { FilterCounts(rows, (s: Stock) => Matches(s, conditions), s); }
    }
    r
  }

  /** With no condition, `findWhere` returns the whole table. */
  lemma FindWhereNoConditions(rows: seq<Stock>)
    ensures FindWhere(rows, StockAttributes(None, None, None)) == rows
  {
    FilterAll(rows, (s: Stock) => Matches(s, StockAttributes(None, None, None)));
  }

  /** In a table with ascending ids, two rows with the same id are the same row. */
  lemma IdsUnique(rows: seq<Stock>, a: Stock, b: Stock)
    requires IdsAscending(rows)
    requires a in rows && b in rows && a.id == b.id
    ensures a == b
  {
    var i :| 0 <= i < |rows| && rows[i] == a;
    var j :| 0 <= j < |rows| && rows[j] == b;
    if i < j || j < i {
      assert false;
    }
  }

  /** In a table with ascending ids, `find` returns the one row with that id. */
  lemma FindIsTheRow(rows: seq<Stock>, s: Stock)
    requires IdsAscending(rows) && s in rows
    ensures Find(rows, s.id) == Some(s)
  {
    IdsUnique(rows, Find(rows, s.id).value, s);
  }

  /** Saving a row never changes a primary key, so the table stays in key order. */
  lemma PutAscending(rows: seq<Stock>, s: Stock)
    requires IdsAscending(rows)
    ensures IdsAscending(Put(rows, s))
  {
    var after := Put(rows, s);
    forall i, j | 0 <= i < j < |after| ensures after[i].id < after[j].id {
      assert after[i].id == rows[i].id && after[j].id == rows[j].id;
    }
  }

  /** Saving a row changes what `find` returns for that id, to the saved row, and for no other id. */
  lemma FindAfterPut(rows: seq<Stock>, s: Stock, id: nat)
    requires IdsAscending(rows) && Find(rows, s.id).Some?
    ensures IdsAscending(Put(rows, s))
    ensures Find(Put(rows, s), id) == if id == s.id then Some(s) else Find(rows, id)
  {
    PutAscending(rows, s);
    var after := Put(rows, s);
    if id == s.id {
      var k := IndexOf(rows, s.id).value;
      assert after[k] == s;
      FindIsTheRow(after, s);
    } else if Find(rows, id).Some? {
      var j := IndexOf(rows, id).value;
      assert after[j] == rows[j];
      FindIsTheRow(after, rows[j]);
    } else {
      forall j | 0 <= j < |after| ensures after[j].id != id {
        assert after[j].id == rows[j].id;
      }
    }
  }

  /** Inserting a row with an id above every existing one leaves `find` unchanged for the old ids. */
  lemma FindAfterAppend(rows: seq<Stock>, s: Stock, id: nat)
    requires IdsAscending(rows) && forall k :: 0 <= k < |rows| ==> rows[k].id < s.id
    ensures IdsAscending(rows + [s])
    ensures Find(rows + [s], id) == if id == s.id then Some(s) else Find(rows, id)
  {
    var after := rows + [s];
    assert after[|rows|] == s;
    if id == s.id {
      FindIsTheRow(after, s);
    } else if Find(rows, id).Some? {
      FindIsTheRow(after, Find(rows, id).value);
    }
  }

  /** Saving `s` over the row with its id changes the item totals by the difference between the two. */
  lemma {:induction false} TotalPut(rows: seq<Stock>, k: nat, s: Stock, item: int)
    requires IdsAscending(rows) && k < |rows| && rows[k].id == s.id
    ensures Total(Put(rows, s), item) == Total(rows, item) - Contribution(rows[k], item) + Contribution(s, item)
  {
    var after := Put(rows, s);
    assert after[1..] == Put(rows[1..], s);
    if k == 0 {
      assert after[1..] == rows[1..];
    } else {
      TotalPut(rows[1..], k - 1, s, item);
    }
  }

  /** Deleting rows keeps the remaining ones in key order. */
  lemma {:induction false} WithoutAscending(rows: seq<Stock>, id: nat)
    requires IdsAscending(rows)
    ensures IdsAscending(Without(rows, id))
  {
    if rows != [] {
      var keep := (s: Stock) => s.id != id;
      var tail := Filter(rows[1..], keep);
      WithoutAscending(rows[1..], id);
      assert IdsAscending(tail);
      if keep(rows[0]) {
        var after := [rows[0]] + tail;
        assert Without(rows, id) == after;
        forall j | 0 <= j < |tail| ensures rows[0].id < tail[j].id {
          assert tail[j] in rows[1..];
        }
        forall i, j | 0 <= i < j < |after| ensures after[i].id < after[j].id {
          if i > 0 {
            assert after[i] == tail[i - 1] && after[j] == tail[j - 1];
          } else {
            assert after[j] == tail[j - 1];
          }
        }
      } else {
        assert Without(rows, id) == tail;
      }
    }
  }

  /** Deleting a row removes exactly that id from what `find` sees. */
  lemma FindAfterWithout(rows: seq<Stock>, id: nat, other: nat)
    requires IdsAscending(rows)
    ensures IdsAscending(Without(rows, id))
    ensures Find(Without(rows, id), other) == if other == id then None else Find(rows, other)
  {
    WithoutAscending(rows, id);
    var after := Without(rows, id);
    if other != id && Find(rows, other).Some? {
      var x := Find(rows, other).value;
      assert x in after;
      FindIsTheRow(after, x);
    }
  }

  /** `create($data)`: inserts one row with the next id. Creating fires no `updated` hook. */
  method Create(db: Store, warehouseId: int, inventoryItemId: int, quantity: int) returns (s: Stock)
    requires db.Valid()
    modifies db
    ensures db.Valid()
    ensures s == Stock(old(db.nextStockId), warehouseId, inventoryItemId, quantity)
    ensures Find(old(db.stocks), s.id).None?
    ensures db.stocks == old(db.stocks) + [s] && db.nextStockId == old(db.nextStockId) + 1
    ensures db.transfers == old(db.transfers) && db.events == old(db.events)
  {
    s := Stock(db.nextStockId, warehouseId, inventoryItemId, quantity);
    FindAfterAppend(db.stocks, s, s.id);
    db.stocks := db.stocks + [s];
    db.nextStockId := db.nextStockId + 1;
  }

  /** `update($id, $data)`: fills and saves the row with that id and returns it, or returns null
      and changes nothing when there is none. */
  method Update(db: Store, id: nat, attrs: StockAttributes) returns (r: Option<Stock>)
    requires db.Valid()
    modifies db
    ensures db.Valid()
    ensures db.transfers == old(db.transfers) && db.nextStockId == old(db.nextStockId)
    ensures r.Some? <==> Find(old(db.stocks), id).Some?
    ensures r.None? ==> db.stocks == old(db.stocks) && db.events == old(db.events)
    ensures r.Some? ==> r.value == Fill(Find(old(db.stocks), id).value, attrs)
    ensures r.Some? ==> db.stocks == Put(old(db.stocks), r.value)
    ensures r.Some? ==> db.events == old(db.events) + UpdatedHook(Find(old(db.stocks), id).value, r.value)
  {
    var found := Find(db.stocks, id);
    if found.None? {
      return None;
    }
    var s := found.value;
    var saved := Fill(s, attrs);
    assert IdsAscending(Put(db.stocks, saved)) by {
      FindAfterPut(db.stocks, saved, id);
    }
    assert forall k :: 0 <= k < |db.stocks| ==> Put(db.stocks, saved)[k].id == db.stocks[k].id;
    db.stocks := Put(db.stocks, saved);
    db.events := db.events + UpdatedHook(s, saved);
    r := Some(saved);
  }

  /** `delete($id)`: removes the row with that id and reports true, or reports false and changes nothing. */
  method Delete(db: Store, id: nat) returns (deleted: bool)
    requires db.Valid()
    modifies db
    ensures db.Valid()
    ensures deleted <==> Find(old(db.stocks), id).Some?
    ensures db.stocks == Without(old(db.stocks), id)
    ensures db.nextStockId == old(db.nextStockId)
    ensures db.transfers == old(db.transfers) && db.events == old(db.events)
  {
    var found := Find(db.stocks, id);
    FindAfterWithout(db.stocks, id, id);
    if found.None? {
      FilterAll(db.stocks, (s: Stock) => s.id != id);
      return false;
    }
    ghost var before := db.stocks;
    db.stocks := Without(db.stocks, id);
    forall k | 0 <= k < |db.stocks| ensures db.stocks[k].id < db.nextStockId {
      assert db.stocks[k] in before;
    }
    deleted := true;
  }
}
