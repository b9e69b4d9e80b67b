/**
  POSApp.sell_product: scan the inventory for the product id; refuse when no
  row has it or when its stock is smaller than the quantity asked for;
  otherwise record the sale at quantity * price and write the reduced stock
  back with the row's name and price. The widgets and message boxes around
  it are not modelled; the message shown becomes the outcome returned.
 */
module App {
  import opened Wrappers
  import opened SaleDates
  import opened Ledger
  import opened Reports
  import opened Storage

  /** Which message sell_product shows. */
  datatype SellOutcome =
    | Sold(total: real)       // "Sale completed! Total: ..."
    | NotEnoughInventory      // "Not enough inventory!"
    | ProductNotFound         // "Product not found!"

  /** The outcome of sell_product and the tables it leaves behind: the sale
      row is written first, then the matched row with its reduced stock. */
  function Sell(t: Tables, productId: int, quantity: int, now: ClockReading): (SellOutcome, Tables) {
    var found := Lookup(t.inventory, productId);
    if found.None? then (ProductNotFound, t)
    else if found.value.quantity >= quantity then
      var item := found.value;
      var total := quantity as real * item.price;
      var recorded := RecordSale(t, productId, quantity, total, now);
      (Sold(total), UpdateProduct(recorded, productId, item.name, item.quantity - quantity, item.price))
    else
      (NotEnoughInventory, t)
  }

  /** Sell once the scan has found the row. */
  lemma SellFound(t: Tables, productId: int, quantity: int, now: ClockReading, item: Item)
    requires Lookup(t.inventory, productId) == Some(item)
    ensures Sell(t, productId, quantity, now).0 ==
      if item.quantity >= quantity then Sold(quantity as real * item.price) else NotEnoughInventory
    ensures Sell(t, productId, quantity, now).1 ==
      if item.quantity >= quantity then
        UpdateProduct(RecordSale(t, productId, quantity, quantity as real * item.price, now),
                      productId, item.name, item.quantity - quantity, item.price)
      else t
  {
  }

  /** A sale goes through exactly when some row has the id and enough stock. */
  lemma SellSucceedsIff(t: Tables, productId: int, quantity: int, now: ClockReading)
    requires WellFormed(t)
    ensures Sell(t, productId, quantity, now).0.Sold? <==>
      exists k :: 0 <= k < |t.inventory| && t.inventory[k].id == productId && t.inventory[k].quantity >= quantity
  {
    if exists k :: 0 <= k < |t.inventory| && t.inventory[k].id == productId {
      var k :| 0 <= k < |t.inventory| && t.inventory[k].id == productId;
      LookupFindsRow(t.inventory, k);
      SellFound(t, productId, quantity, now, t.inventory[k]);
      assert forall j :: 0 <= j < |t.inventory| && t.inventory[j].id == productId ==> j == k;
    } else {
      LookupNone(t.inventory, productId);
    }
  }

  /** A successful sale of the row at index k appends one sale row (the next
      sale id, that product, that quantity, total = quantity * price, stamped
      now), rewrites that row with its stock reduced by the quantity and its
      name and price as they were, leaves every other row as it was, and
      leaves the stock non-negative. */
  lemma SellEffect(t: Tables, productId: int, quantity: int, now: ClockReading, k: int)
    requires WellFormed(t)
    requires 0 <= k < |t.inventory| && t.inventory[k].id == productId && t.inventory[k].quantity >= quantity
    ensures var (outcome, t') := Sell(t, productId, quantity, now); var item := t.inventory[k];
      && outcome == Sold(quantity as real * item.price)
      && t'.sales == t.sales + [Sale(t.salesSeq + 1, productId, quantity, quantity as real * item.price, now)]
      && |t'.inventory| == |t.inventory|
      && t'.inventory[k] == Item(item.id, item.name, item.quantity - quantity, item.price)
      && t'.inventory[k].quantity >= 0
      && (forall j :: 0 <= j < |t.inventory| && j != k ==> t'.inventory[j] == t.inventory[j])
      && t'.inventorySeq == t.inventorySeq
      && t'.salesSeq == t.salesSeq + 1
  {
    var item := t.inventory[k];
    LookupFindsRow(t.inventory, k);
    SellFound(t, productId, quantity, now, item);
    UpdateRowsOverwrites(t.inventory, productId, item.name, item.quantity - quantity, item.price);
    forall j | 0 <= j < |t.inventory| && j != k ensures t.inventory[j].id != productId {
      if j < k {
        assert t.inventory[j].id < t.inventory[k].id;
      } else {
        assert t.inventory[k].id < t.inventory[j].id;
      }
    }
  }

  /** A refused sale, for either reason, changes neither table; it is refused
      as ProductNotFound exactly when no row carries the id. */
  lemma SellRefusedChangesNothing(t: Tables, productId: int, quantity: int, now: ClockReading)
    ensures var (outcome, t') := Sell(t, productId, quantity, now);
      && (outcome == ProductNotFound <==> forall k :: 0 <= k < |t.inventory| ==> t.inventory[k].id != productId)
      && (!outcome.Sold? ==> t' == t)
  {
    LookupNone(t.inventory, productId);
  }

  /** Too large a quantity is refused as NotEnoughInventory. */
  lemma SellTooManyRefused(t: Tables, productId: int, quantity: int, now: ClockReading, k: int)
    requires WellFormed(t)
    requires 0 <= k < |t.inventory| && t.inventory[k].id == productId && quantity > t.inventory[k].quantity
    ensures Sell(t, productId, quantity, now) == (NotEnoughInventory, t)
  {
    LookupFindsRow(t.inventory, k);
    SellFound(t, productId, quantity, now, t.inventory[k]);
  }

  /** Stock is conserved: for every product, the stock on hand plus the units
      recorded as sold is the same before and after any sale attempt. */
  lemma SellConservesStock(t: Tables, productId: int, quantity: int, now: ClockReading, p: int)
    requires WellFormed(t)
    ensures var t' := Sell(t, productId, quantity, now).1;
      StockOf(t'.inventory, p) + SoldOf(t'.sales, p) == StockOf(t.inventory, p) + SoldOf(t.sales, p)
  {
    if exists k :: 0 <= k < |t.inventory| && t.inventory[k].id == productId {
      var k :| 0 <= k < |t.inventory| && t.inventory[k].id == productId;
      var item := t.inventory[k];
      LookupFindsRow(t.inventory, k);
      SellFound(t, productId, quantity, now, item);
      if item.quantity >= quantity {
        StockOfRow(t.inventory, k);
        StockOfUpdate(t.inventory, k, item.name, item.quantity - quantity, item.price, p);
        SoldOfAppend(t.sales, Sale(t.salesSeq + 1, productId, quantity, quantity as real * item.price, now), p);
      }
    } else {
      LookupNone(t.inventory, productId);
    }
  }

  /** Every sale attempt keeps the tables well formed. */
  lemma SellKeepsWellFormed(t: Tables, productId: int, quantity: int, now: ClockReading)
    requires WellFormed(t)
    ensures WellFormed(Sell(t, productId, quantity, now).1)
  {
    var found := Lookup(t.inventory, productId);
    if found.Some? {
      var item := found.value;
      SellFound(t, productId, quantity, now, item);
      var total := quantity as real * item.price;
      RecordSaleKeepsWellFormed(t, productId, quantity, total, now);
      var recorded := RecordSale(t, productId, quantity, total, now);
      UpdateProductKeepsWellFormed(recorded, productId, item.name, item.quantity - quantity, item.price);
    }
  }

  /** The quantity is not checked for sign: a non-positive quantity of a
      product with non-negative stock is sold, and the stock does not go down. */
  lemma SellNonPositiveQuantity(t: Tables, productId: int, quantity: int, now: ClockReading, k: int)
    requires WellFormed(t)
    requires 0 <= k < |t.inventory| && t.inventory[k].id == productId && t.inventory[k].quantity >= 0
    requires quantity <= 0
    ensures var (outcome, t') := Sell(t, productId, quantity, now);
      outcome.Sold? && outcome.total == quantity as real * t.inventory[k].price
      && t'.inventory[k].quantity >= t.inventory[k].quantity
  {
    SellEffect(t, productId, quantity, now, k);
  }

  /** A sale just made appears in the report for the day it was made, under
      the product's name. */
  lemma SaleShowsInReportOfItsDay(t: Tables, productId: int, quantity: int, now: ClockReading, k: int)
    requires WellFormed(t)
    requires 0 <= k < |t.inventory| && t.inventory[k].id == productId && t.inventory[k].quantity >= quantity
    ensures var t' := Sell(t, productId, quantity, now).1; var item := t.inventory[k];
      ReportRow(t.salesSeq + 1, item.name, quantity, quantity as real * item.price, FormatStamp(now))
        in SalesReport(t'.sales, t'.inventory, FormatDay(now), FormatDay(now))
  {
    SellEffect(t, productId, quantity, now, k);
    var t' := Sell(t, productId, quantity, now).1;
    LexLeRefl(FormatDay(now));
    ReportIncludes(t'.sales, t'.inventory, FormatDay(now), FormatDay(now), |t.sales|, k);
  }

  /** POSApp.sell_product, with the clock reading passed in as `now`. */
  method SellProduct(db: Database, productId: int, quantity: int, now: ClockReading) returns (outcome: SellOutcome)
    requires db.Valid()
    modifies db
    ensures db.Valid()
    ensures outcome == Sell(old(db.Snapshot()), productId, quantity, now).0
    ensures db.Snapshot() == Sell(old(db.Snapshot()), productId, quantity, now).1
  {
    var inventory := db.FetchInventory();
    var i := 0;
    while i < |inventory|
      invariant 0 <= i <= |inventory|
      invariant forall k :: 0 <= k < i ==> inventory[k].id != productId
      invariant db.Snapshot() == old(db.Snapshot()) && inventory == db.inventory
    {
      var item := inventory[i];
      if item.id == productId {
        LookupFirstMatch(inventory, productId, i);
        SellFound(db.Snapshot(), productId, quantity, now, item);
        if item.quantity >= quantity {
          var total := quantity as real * item.price;
          db.SaveSale(productId, quantity, total, now);
          var newQuantity := item.quantity - quantity;
          db.UpdateInventoryProduct(productId, item.name, newQuantity, item.price);
          return Sold(total);
        } else {
          return NotEnoughInventory;
        }
      }
      i := i + 1;
    }
    LookupNone(inventory, productId);
    return ProductNotFound;
  }
}
