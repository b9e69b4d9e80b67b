/**
  The database file pos_lite.db: its two tables and their AUTOINCREMENT
  counters, held as fields that the module-level helpers of main.py update
  in place (each of them opens a connection, runs one statement, commits).
 */
module Storage {
  import opened Wrappers
  import opened SaleDates
  import opened Ledger
  import opened Reports

  class Database {
    var inventory: seq<Item>
    var sales: seq<Sale>
    var inventorySeq: nat
    var salesSeq: nat

    function Snapshot(): Tables
      reads this
    {
      Tables(inventory, sales, inventorySeq, salesSeq)
    }

    ghost predicate Valid()
      reads this
    {
      WellFormed(Snapshot())
    }

    /** initialize_db on a file that does not exist yet: both tables empty. */
    constructor ()
      ensures Valid() && Snapshot() == Empty
    {
      inventory, sales := [], [];
      inventorySeq, salesSeq := 0, 0;
    }

    /** save_product(name, quantity, price) */
    method SaveProduct(name: string, quantity: int, price: real)
      requires Valid()
      modifies this
      ensures Valid()
      ensures Snapshot() == AddProduct(old(Snapshot()), name, quantity, price)
    {
      AddProductKeepsWellFormed(Snapshot(), name, quantity, price);
      inventorySeq := inventorySeq + 1;
      inventory := inventory + [Item(inventorySeq, name, quantity, price)];
    }

    /** fetch_inventory(): SELECT * FROM inventory, in rowid order, so each
        id appears once and ids ascend. */
    function FetchInventory(): (rows: seq<Item>)
      reads this
      requires Valid()
      ensures forall i, j :: 0 <= i < j < |rows| ==> rows[i].id < rows[j].id
    {
      inventory
    }

    /** save_sale(product_id, quantity, total), stamped with the clock reading `now`. */
    method SaveSale(productId: int, quantity: int, total: real, now: ClockReading)
      requires Valid()
      modifies this
      ensures Valid()
      ensures Snapshot() == RecordSale(old(Snapshot()), productId, quantity, total, now)
    {
      RecordSaleKeepsWellFormed(Snapshot(), productId, quantity, total, now);
      salesSeq := salesSeq + 1;
      sales := sales + [Sale(salesSeq, productId, quantity, total, now)];
    }

    /** fetch_sales_report(start_date, end_date): the sales of the days in
        range whose product still has a row, under its current name. */
    function FetchSalesReport(startDate: string, endDate: string): (rows: seq<ReportRow>)
      reads this
      requires Valid()
      ensures forall r :: r in rows <==>
        exists s, item :: s in sales && item in inventory && s.productId == item.id
          && InRange(SaleDay(s), startDate, endDate) && r == RowOf(s, item)
      ensures forall i, j :: 0 <= i < j < |rows| ==> rows[i].saleId < rows[j].saleId
      ensures |rows| <= |sales|
      ensures !LexLe(startDate, endDate) ==> rows == []
    {
      ReportMembers(sales, inventory, startDate, endDate);
      ReportAtMostOnePerSale(sales, inventory, startDate, endDate);
      ReportOncePerSale(sales, inventory, startDate, endDate);
      var rows := SalesReport(sales, inventory, startDate, endDate);
      assert !LexLe(startDate, endDate) ==> rows == [] by {
        if !LexLe(startDate, endDate) {
          ReportReversedRangeEmpty(sales, inventory, startDate, endDate);
        }
      }
      rows
    }

    /** update_inventory_product(item_id, name, quantity, price) */
    method UpdateInventoryProduct(id: int, name: string, quantity: int, price: real)
      requires Valid()
      modifies this
      ensures Valid()
      ensures Snapshot() == UpdateProduct(old(Snapshot()), id, name, quantity, price)
    {
      UpdateProductKeepsWellFormed(Snapshot(), id, name, quantity, price);
      inventory := UpdateRows(inventory, id, name, quantity, price);
    }
  }
}
