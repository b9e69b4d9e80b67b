# POS Lite: a verified model of its storage core

POS Lite is a small point-of-sale desktop program written in Python. Its data
lives in the SQLite file `pos_lite.db`, which holds two tables:

- `inventory(id, product_name, quantity, price)`
- `sales(id, product_id, quantity, total, sale_date)`

Each table has an `INTEGER PRIMARY KEY AUTOINCREMENT` id.

The program writes to these tables in three ways:

- `save_product` inserts a product.
- `save_sale` inserts a sale stamped with the local clock.
- `update_inventory_product` rewrites the row with a given id.

It reads them in two ways:

- `fetch_inventory` lists the inventory.
- `fetch_sales_report` joins the sales of a date range to the inventory.

The one piece of business logic is `POSApp.sell_product`. It scans the
inventory for the product id. If no row has that id, or the row's stock is too
small, it refuses. Otherwise it records a sale at `quantity * price` and writes
the reduced stock back.

The Dafny modules follow that structure:

- `SaleDates` (sale_dates.dfy) covers the clock reading and its
  `"%Y-%m-%d %H:%M:%S"` rendering. It also defines the text order SQLite uses
  to compare dates (BINARY collation) and proves that this text order agrees
  with calendar order.
- `Ledger` (ledger.dfy) holds the tables as values, with one AUTOINCREMENT
  counter per table. It models the three writes as pure transitions, and it
  proves what each write keeps and changes.
- `Reports` (reports.dfy) models the sales report: a day filter plus an inner
  join.
- `Storage` (storage.dfy) defines the class `Database`. Its fields are the two
  tables and their counters. The writes are methods that update those fields
  in place, and each method is proved against the matching `Ledger`
  transition. The reads are functions.
- `App` (app.dfy) defines `Sell`, a specification of what `sell_product`
  does. `SellProduct` is the method with the source's loop and early returns,
  proved equal to `Sell`. The remaining `App` lemmas prove what a sale
  promises.

The code checks less than a reader might expect, and the model follows the
code:

- `sell_product` does not reject a zero or negative quantity. Against a row
  whose stock is at least that quantity, for example any non-negative stock,
  such a sale goes through and the stock does not go down
  (`App.SellNonPositiveQuantity`). `save_product` does not reject a negative
  stock either. A row with negative stock refuses a zero quantity as "Not
  enough inventory!", since the guard compares stock with the quantity.
- `update_inventory_product` raises no error for an unknown id. The UPDATE
  matches no row and nothing changes (`Ledger.UpdateUnknownIdIsNoOp`).
- `fetch_sales_report` checks nothing when the start date is after the end
  date. Its result is simply empty (`Reports.ReportReversedRangeEmpty`).

## Model

| member | source | states |
|---|---|---|
| Ledger.WellFormed | main.py:10-27 | defines what AUTOINCREMENT guarantees with no deletions: each table's ids strictly increase in rowid order and lie between 1 and that table's counter |
| Storage.Database.constructor | main.py:7-29 | initialize_db on a new file: both tables empty, both AUTOINCREMENT counters at 0, so the tables are well formed |
| Storage.Database.SaveProduct | main.py:32-37 | save_product: the new state is the insert of one inventory row under the next AUTOINCREMENT id; the invariant (ids increasing, within 1..counter) is kept |
| Ledger.AddProduct | main.py:35 | defines save_product's insert: one row (next AUTOINCREMENT id, name, quantity, price) appended and the inventory counter advanced (its properties are in AddProductAppends) |
| Ledger.AddProductAppends | main.py:35 | the inserted row has the given name, quantity and price and an id larger than every existing id; the existing rows, the sales and the sales counter are unchanged; ids stay unique and increasing |
| Storage.Database.FetchInventory | main.py:40-46 | fetch_inventory returns the rows in rowid order: each id once, ids ascending |
| Storage.Database.SaveSale | main.py:49-55 | save_sale: the new state is the insert of one sale row under the next sales id, stamped with the clock reading; the invariant is kept |
| Ledger.RecordSale | main.py:52-53 | defines save_sale's insert: one row (next sales id, product id, quantity, total, stamp) appended and the sales counter advanced (its properties are in RecordSaleAppends) |
| Ledger.RecordSaleAppends | main.py:52-53 | the inserted sale row has the given product id, quantity, total and timestamp and an id larger than every existing sale id; the existing sales and the inventory are unchanged |
| SaleDates.FormatStamp | main.py:53 | the stored `"%Y-%m-%d %H:%M:%S"` text is 19 characters long, has a space at index 10, and its first ten characters are the `"%Y-%m-%d"` day |
| SaleDates.ValidDateTime | main.py:53 | defines the readings `datetime.now()` can yield (the subset type `SaleDates.ClockReading` of every stored stamp): a Gregorian date with a four-digit year and a time of day in range |
| SaleDates.DaysInMonth | main.py:53 | a month of a clock reading has 28 to 31 days, and 29 exactly for February of a leap year |
| Storage.Database.FetchSalesReport | main.py:58-79 | a row is in the report exactly when some sale whose DATE(sale_date) lies BETWEEN the bounds joins an inventory row on product id; it is reported with that row's current name; each sale at most once (sale ids strictly increase); no more rows than sales; a start after the end gives nothing |
| Reports.SaleDay | main.py:75 | DATE(s.sale_date) of a stored stamp is the `"%Y-%m-%d"` text of the sale's clock reading |
| Reports.ReportMembers | main.py:61-76 | report membership both ways: exactly the in-range sales that still have an inventory row, each under that row's name; sales without a row are dropped |
| Reports.ReportIncludes | main.py:61-76 | an in-range sale at a given index whose product has a row at a given index is in the report, paired with that row |
| Reports.ReportReversedRangeEmpty | main.py:75 | BETWEEN with a start that sorts after the end selects no sale |
| Reports.SalesReport | main.py:61-76 | defines the query: for each sale in turn, when DATE(sale_date) lies BETWEEN the bounds, one row per inventory row whose id is the sale's product id (its properties are the Reports lemmas) |
| Reports.ReportAtMostOnePerSale | main.py:70-73 | with unique inventory ids the join yields no more rows than there are sales |
| Reports.ReportOncePerSale | main.py:70-73 | with unique ids in both tables the reported sale ids strictly increase, so each sale is reported at most once |
| Reports.InRangeIsCalendarRange | main.py:75 | for bounds written as `"%Y-%m-%d"` from real days, the text comparison keeps a sale exactly when its calendar day lies between them |
| SaleDates.DayTextOrder | main.py:53 | for valid clock readings, comparing the `"%Y-%m-%d"` texts under BINARY collation is comparing the calendar days |
| SaleDates.DigitsOrder | main.py:53 | zero-padded decimal texts of equal width sort as text exactly as their numbers sort |
| SaleDates.LexLe | main.py:75 | defines TEXT comparison under SQLite's BINARY collation, which BETWEEN uses here: code point by code point, with a proper prefix sorting first |
| Reports.InRange | main.py:75 | defines `DATE(s.sale_date) BETWEEN ? AND ?`: start <= day and day <= end, both under BINARY text order |
| Reports.JoinRows | main.py:70-73 | defines the inner join of one sale: one row per inventory row whose id equals the sale's product id, in inventory order |
| Reports.RowOf | main.py:62-67 | defines the selected columns: sale id, the inventory row's current product_name, the sale's quantity, total and stored sale_date text |
| SaleDates.LexLeTrans | main.py:75 | the BINARY text order is transitive |
| Storage.Database.UpdateInventoryProduct | main.py:82-91 | update_inventory_product: the new state is the UPDATE ... WHERE id = ? applied to the inventory; sales and counters unchanged; the invariant is kept |
| Ledger.UpdateRows | main.py:85-89 | the UPDATE ... WHERE id = ? applied row by row; the row count is unchanged |
| Ledger.UpdateProduct | main.py:85-89 | defines update_inventory_product's effect on the tables: only the inventory rows change, as UpdateRows gives them |
| Ledger.UpdateRowsOverwrites | main.py:85-89 | the UPDATE overwrites name, quantity and price of exactly the rows whose id matches and leaves every other row as it was |
| Ledger.UpdateUnknownIdIsNoOp | main.py:85-89 | an id no row carries leaves the inventory unchanged |
| Ledger.UpdateProductKeepsWellFormed | main.py:85-89 | the UPDATE changes no id, so the tables stay well formed |
| Ledger.Lookup | main.py:224-225 | defines the scan: the first inventory row whose id matches, or none (its properties are in the Lookup lemmas) |
| Ledger.LookupNone | main.py:224-225 | the scan over the inventory finds nothing exactly when no row carries the id |
| Ledger.LookupSome | main.py:224-225 | what the scan finds is a row of the inventory carrying the id |
| Ledger.LookupFirstMatch | main.py:224-225 | the scan stops at the first row carrying the id |
| Ledger.LookupFindsRow | main.py:224-225 | with unique ids the scan finds the one row with that id |
| Ledger.StockOfUpdate | main.py:229-230 | writing back the matched row sets the stock of its id to the new quantity and leaves every other product's stock alone |
| App.Sell | main.py:219-237 | defines sell_product's outcome and resulting tables: not found, not enough stock, or the sale row at quantity * price followed by the write-back of the reduced stock (its properties are in the Sell lemmas) |
| App.SellProduct | main.py:219-237 | sell_product's loop with early returns: its outcome (which message is shown) and the new tables are those of the specification Sell, and the tables stay well formed |
| App.SellSucceedsIff | main.py:224-230 | a sale goes through exactly when some inventory row has the id and at least the quantity asked for |
| App.SellEffect | main.py:226-230 | on success: Sold(quantity * price); exactly one sale row is appended (next id, that product, quantity and total, stamped now) and the sales counter advances by one; the matched row becomes (id, name, stock - quantity, price) with stock still >= 0; every other row and the inventory counter are unchanged |
| App.SellRefusedChangesNothing | main.py:234-237 | "Product not found!" exactly when no row has the id; a refused sale, for either reason, changes neither table |
| App.SellTooManyRefused | main.py:226-236 | asking for more than the stock gives "Not enough inventory!" and changes nothing |
| App.SellConservesStock | main.py:226-230 | for every product, stock on hand plus units recorded as sold is the same before and after any sale attempt |
| App.SellKeepsWellFormed | main.py:224-230 | every sale attempt keeps the tables well formed |
| App.SellNonPositiveQuantity | main.py:222-230 | on a row with non-negative stock, a zero or negative quantity is not rejected: it is sold at quantity * price and the stock does not go down |
| App.SaleShowsInReportOfItsDay | main.py:219-233 | a sale just made appears, under the product's name, in the report whose start and end are the day it was made |

## Left out

- The tkinter window, its widgets, message boxes and tree views are left out.
  The message `sell_product` shows becomes the `SellOutcome` it returns.
  The POSApp methods `__init__`, the `setup_*_tab` methods, `load_inventory` and
  `generate_report` are UI. So are the form handlers `POSApp.save_product` and
  `POSApp.update_product`, which read entry fields and call the module-level
  writes. None of these is modelled.
- Opening and closing connections, `commit` and the `CREATE TABLE IF NOT
  EXISTS` statements are not modelled as steps. `initialize_db` is modelled
  only on a file that does not exist yet, as the empty tables.
- `datetime.now()` is a parameter `now` of `SaveSale` and `SellProduct`.
  Its type `SaleDates.ClockReading` admits only real calendar readings, so
  every stored stamp is one the clock can produce. `SaleDates.ValidDateTime`
  further limits years to 1000 to 9999, the years whose `%Y` has four digits.
- Parsing the entry fields with `int(...)` and the catch-all `except` that
  shows "An error occurred" are left out. The model starts from the parsed
  integers.
- Prices and totals are exact `real` numbers, not IEEE doubles. Rounding in
  `quantity * price` and in SQLite REAL storage is not modelled.
- SQLite `INTEGER` is 64 bits wide, and the AUTOINCREMENT counter hitting its
  maximum (SQLITE_FULL) is not modelled. Ids, quantities and stock are
  unbounded integers.
- App.SellProduct: the sale row and the reduced stock are written by two
  separate statements with two commits, as the source does. The model
  claims nothing about a crash between them.
- The foreign key on `sales.product_id` is not enforced, since SQLite leaves
  foreign keys off by default.
- `DATE()` is modelled only on the stamps `save_sale` writes, which are the
  only text the sales table can hold here. Its behaviour on other text
  (NULL for an impossible date) is left out.
- The report's bounds are compared as TEXT, so bounds not written as
  `YYYY-MM-DD` are compared as text too. They are not validated.
- SQL leaves the order of the JOIN's rows unspecified. The model lists them
  in sales order. Its promises are membership, at most one row per sale and
  the count. The ascending sale ids proved by `Reports.ReportOncePerSale`
  hold of that order, not of every order SQLite may choose.
- `update_product` passes the id as the entry's string, and SQLite's type
  affinity turns it into an integer. The model takes the id as an integer.
- Concurrent access to the database file by several processes is not
  modelled.
