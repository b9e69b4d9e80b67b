/**
  The two tables of pos_lite.db as values: `inventory` and `sales`, each with
  an INTEGER PRIMARY KEY AUTOINCREMENT id, and the writes the program issues
  against them (INSERT INTO inventory, INSERT INTO sales,
  UPDATE inventory ... WHERE id = ?).
 */
module Ledger {
  import opened Wrappers
  import opened SaleDates

  /** A row of `inventory`: (id, product_name, quantity, price). */
  datatype Item = Item(id: int, name: string, quantity: int, price: real)

  /** A row of `sales`: (id, product_id, quantity, total, sale_date). */
  datatype Sale = Sale(id: int, productId: int, quantity: int, total: real, saleDate: ClockReading)

  /** Both tables, in rowid order, with the AUTOINCREMENT counter of each
      (the largest id that table has ever issued). */
  datatype Tables = Tables(inventory: seq<Item>, sales: seq<Sale>, inventorySeq: nat, salesSeq: nat)

  /** A freshly created database. */
  const Empty := Tables([], [], 0, 0)

  predicate ItemIdsIncreasing(inventory: seq<Item>) {
    forall i, j :: 0 <= i < j < |inventory| ==> inventory[i].id < inventory[j].id
  }

  predicate SaleIdsIncreasing(sales: seq<Sale>) {
    forall i, j :: 0 <= i < j < |sales| ==> sales[i].id < sales[j].id
  }

  /** What AUTOINCREMENT guarantees of each table: ids are issued in
      increasing order, start at 1 and never exceed the counter. */
  predicate WellFormed(t: Tables) {
    && ItemIdsIncreasing(t.inventory)
    && (forall i :: 0 <= i < |t.inventory| ==> 1 <= t.inventory[i].id <= t.inventorySeq)
    && SaleIdsIncreasing(t.sales)
    && (forall i :: 0 <= i < |t.sales| ==> 1 <= t.sales[i].id <= t.salesSeq)
  }

  /** save_product's insert: a new inventory row under the next id. */
  function AddProduct(t: Tables, name: string, quantity: int, price: real): Tables {
    var id := t.inventorySeq + 1;
    t.(inventory := t.inventory + [Item(id, name, quantity, price)], inventorySeq := id)
  }

  /** save_sale's insert: a new sale row under the next id, stamped `now`. */
  function RecordSale(t: Tables, productId: int, quantity: int, total: real, now: ClockReading): Tables {
    var id := t.salesSeq + 1;
    t.(sales := t.sales + [Sale(id, productId, quantity, total, now)], salesSeq := id)
  }

  /** The rows after UPDATE inventory SET product_name, quantity, price WHERE id = ? */
  function UpdateRows(inventory: seq<Item>, id: int, name: string, quantity: int, price: real): (rows: seq<Item>)
    ensures |rows| == |inventory|
  {
    if inventory == [] then []
    else
      var first := if inventory[0].id == id then Item(id, name, quantity, price) else inventory[0];
      [first] + UpdateRows(inventory[1..], id, name, quantity, price)
  }

  function UpdateProduct(t: Tables, id: int, name: string, quantity: int, price: real): Tables {
    t.(inventory := UpdateRows(t.inventory, id, name, quantity, price))
  }

  /** The first inventory row carrying `id`, as a scan of the table finds it. */
  function Lookup(inventory: seq<Item>, id: int): Option<Item> {
    if inventory == [] then None
    else if inventory[0].id == id then Some(inventory[0])
    else Lookup(inventory[1..], id)
  }

  /** The stock recorded for `id`: the quantity of each inventory row with that id, summed. */
  function StockOf(inventory: seq<Item>, id: int): int {
    if inventory == [] then 0
    else (if inventory[0].id == id then inventory[0].quantity else 0) + StockOf(inventory[1..], id)
  }

  /** The units of `productId` that the sales table says were sold. */
  function SoldOf(sales: seq<Sale>, productId: int): int {
    if sales == [] then 0
    else
      var last := sales[|sales| - 1];
      SoldOf(sales[..|sales| - 1], productId) + (if last.productId == productId then last.quantity else 0)
  }

  // ----- save_product and save_sale

  lemma AddProductKeepsWellFormed(t: Tables, name: string, quantity: int, price: real)
    requires WellFormed(t)
    ensures WellFormed(AddProduct(t, name, quantity, price))
  {
  }

  lemma RecordSaleKeepsWellFormed(t: Tables, productId: int, quantity: int, total: real, now: ClockReading)
    requires WellFormed(t)
    ensures WellFormed(RecordSale(t, productId, quantity, total, now))
  {
  }

  /** save_product appends one row with the given fields under an id larger
      than every id issued so far; the rows already there, and the sales,
      stay as they were, and ids stay unique and increasing. */
  lemma AddProductAppends(t: Tables, name: string, quantity: int, price: real)
    requires WellFormed(t)
    ensures var t' := AddProduct(t, name, quantity, price);
      && WellFormed(t')
      && |t'.inventory| == |t.inventory| + 1
      && t'.inventory[..|t.inventory|] == t.inventory
      && var row := t'.inventory[|t.inventory|];
      && row.name == name && row.quantity == quantity && row.price == price
      && (forall k :: 0 <= k < |t.inventory| ==> t.inventory[k].id < row.id)
      && t'.sales == t.sales && t'.salesSeq == t.salesSeq
  {
    AddProductKeepsWellFormed(t, name, quantity, price);
    var t' := AddProduct(t, name, quantity, price);
    assert t'.inventory[..|t.inventory|] == t.inventory;
  }

  /** save_sale appends one row with the given fields under a fresh id;
      the inventory is untouched. */
  lemma RecordSaleAppends(t: Tables, productId: int, quantity: int, total: real, now: ClockReading)
    requires WellFormed(t)
    ensures var t' := RecordSale(t, productId, quantity, total, now);
      && WellFormed(t')
      && |t'.sales| == |t.sales| + 1
      && t'.sales[..|t.sales|] == t.sales
      && var row := t'.sales[|t.sales|];
      && row.productId == productId && row.quantity == quantity && row.total == total && row.saleDate == now
      && (forall k :: 0 <= k < |t.sales| ==> t.sales[k].id < row.id)
      && t'.inventory == t.inventory && t'.inventorySeq == t.inventorySeq
  {
    RecordSaleKeepsWellFormed(t, productId, quantity, total, now);
    var t' := RecordSale(t, productId, quantity, total, now);
    assert t'.sales[..|t.sales|] == t.sales;
  }

  // ----- update_inventory_product

  /** The row at index k after the update: overwritten when it carries the
      id, as it was otherwise. */
  lemma {:induction false} UpdateRowsAt(inventory: seq<Item>, id: int, name: string, quantity: int, price: real, k: int)
    requires 0 <= k < |inventory|
    ensures UpdateRows(inventory, id, name, quantity, price)[k]
      == if inventory[k].id == id then Item(id, name, quantity, price) else inventory[k]
  {
    if k > 0 {
      UpdateRowsAt(inventory[1..], id, name, quantity, price, k - 1);
    }
  }

  /** update_inventory_product overwrites name, quantity and price of exactly
      the rows whose id matches and leaves every other row untouched. */
  lemma UpdateRowsOverwrites(inventory: seq<Item>, id: int, name: string, quantity: int, price: real)
    ensures var rows := UpdateRows(inventory, id, name, quantity, price);
      && |rows| == |inventory|
      && forall k :: 0 <= k < |rows| ==>
        rows[k] == if inventory[k].id == id then Item(id, name, quantity, price) else inventory[k]
  {
    forall k | 0 <= k < |inventory| {
      UpdateRowsAt(inventory, id, name, quantity, price, k);
    }
  }

  /** The update never changes an id, so the table stays well formed. */
  lemma UpdateProductKeepsWellFormed(t: Tables, id: int, name: string, quantity: int, price: real)
    requires WellFormed(t)
    ensures WellFormed(UpdateProduct(t, id, name, quantity, price))
  {
    UpdateRowsOverwrites(t.inventory, id, name, quantity, price);
  }

  /** An id no row carries makes the update a no-op. */
  lemma UpdateUnknownIdIsNoOp(inventory: seq<Item>, id: int, name: string, quantity: int, price: real)
    requires forall k :: 0 <= k < |inventory| ==> inventory[k].id != id
    ensures UpdateRows(inventory, id, name, quantity, price) == inventory
  {
    UpdateRowsOverwrites(inventory, id, name, quantity, price);
  }

  // ----- lookup and stock with unique ids

  /** The scan finds nothing exactly when no row carries the id. */
  lemma {:induction false} LookupNone(inventory: seq<Item>, id: int)
    ensures Lookup(inventory, id).None? <==> forall k :: 0 <= k < |inventory| ==> inventory[k].id != id
  {
    if inventory != [] {
      LookupNone(inventory[1..], id);
      assert forall k :: 1 <= k < |inventory| ==> inventory[1..][k - 1] == inventory[k];
    }
  }

  /** What the scan finds is a row of the table carrying the id. */
  lemma {:induction false} LookupSome(inventory: seq<Item>, id: int)
    requires Lookup(inventory, id).Some?
    ensures exists k :: 0 <= k < |inventory| && inventory[k] == Lookup(inventory, id).value && inventory[k].id == id
  {
    if inventory[0].id != id {
      LookupSome(inventory[1..], id);
      var k :| 0 <= k < |inventory[1..]| && inventory[1..][k] == Lookup(inventory[1..], id).value;
      assert inventory[k + 1] == inventory[1..][k];
    }
  }

  /** The scan stops at the first row carrying the id. */
  lemma {:induction false} LookupFirstMatch(inventory: seq<Item>, id: int, i: int)
    requires 0 <= i < |inventory| && inventory[i].id == id
    requires forall k :: 0 <= k < i ==> inventory[k].id != id
    ensures Lookup(inventory, id) == Some(inventory[i])
  {
    if i > 0 {
      assert inventory[1..][i - 1] == inventory[i];
      LookupFirstMatch(inventory[1..], id, i - 1);
    }
  }

  /** With unique ids the scan finds exactly the row with that id. */
  lemma {:induction false} LookupFindsRow(inventory: seq<Item>, k: int)
    requires ItemIdsIncreasing(inventory) && 0 <= k < |inventory|
    ensures Lookup(inventory, inventory[k].id) == Some(inventory[k])
  {
    if k > 0 {
      assert inventory[0].id < inventory[k].id;
      assert inventory[1..][k - 1] == inventory[k];
      LookupFindsRow(inventory[1..], k - 1);
    }
  }

  lemma {:induction false} StockOfAbsent(inventory: seq<Item>, id: int)
    requires forall k :: 0 <= k < |inventory| ==> inventory[k].id != id
    ensures StockOf(inventory, id) == 0
  {
    if inventory != [] {
      StockOfAbsent(inventory[1..], id);
    }
  }

  /** With unique ids the stock of an id is the quantity of its one row. */
  lemma {:induction false} StockOfRow(inventory: seq<Item>, k: int)
    requires ItemIdsIncreasing(inventory) && 0 <= k < |inventory|
    ensures StockOf(inventory, inventory[k].id) == inventory[k].quantity
  {
    if k == 0 {
      assert forall j :: 0 <= j < |inventory[1..]| ==> inventory[1..][j].id > inventory[0].id by {
        forall j | 0 <= j < |inventory[1..]| ensures inventory[1..][j].id > inventory[0].id {
          assert inventory[1..][j] == inventory[j + 1];
        }
      }
      StockOfAbsent(inventory[1..], inventory[0].id);
    } else {
      assert inventory[0].id < inventory[k].id;
      assert inventory[1..][k - 1] == inventory[k];
      StockOfRow(inventory[1..], k - 1);
    }
  }

  /** Updating one id leaves the stock of every other id alone. */
  lemma {:induction false} StockOfUpdateOther(inventory: seq<Item>, id: int, name: string, quantity: int, price: real, other: int)
    requires other != id
    ensures StockOf(UpdateRows(inventory, id, name, quantity, price), other) == StockOf(inventory, other)
  {
    if inventory != [] {
      StockOfUpdateOther(inventory[1..], id, name, quantity, price, other);
    }
  }

  /** Overwriting the row at index k sets the stock of its id to the new
      quantity and leaves the stock of every other id alone. */
  lemma StockOfUpdate(inventory: seq<Item>, k: int, name: string, quantity: int, price: real, p: int)
    requires ItemIdsIncreasing(inventory) && 0 <= k < |inventory|
    ensures StockOf(UpdateRows(inventory, inventory[k].id, name, quantity, price), p)
      == if p == inventory[k].id then quantity else StockOf(inventory, p)
  {
    var id := inventory[k].id;
    var rows := UpdateRows(inventory, id, name, quantity, price);
    if p == id {
      UpdateRowsOverwrites(inventory, id, name, quantity, price);
      StockOfRow(rows, k);
    } else {
      StockOfUpdateOther(inventory, id, name, quantity, price, p);
    }
  }

  /** One more sale row adds its quantity to the units sold of its product only. */
  lemma SoldOfAppend(sales: seq<Sale>, s: Sale, productId: int)
    ensures SoldOf(sales + [s], productId) == SoldOf(sales, productId) + (if s.productId == productId then s.quantity else 0)
  {
    assert (sales + [s])[..|sales|] == sales;
  }
}
