/**
  fetch_sales_report: the sales whose DATE(sale_date) lies BETWEEN the two
  bounds, inner-joined to `inventory` on product_id = id, giving
  (sale id, current product name, quantity, total, sale_date).
 */
module Reports {
  import opened SaleDates
  import opened Ledger

  datatype ReportRow = ReportRow(saleId: int, productName: string, quantity: int, total: real, saleDate: string)

  /** DATE(s.sale_date): the first ten characters of the stored text. */
  function SaleDay(s: Sale): (day: string)
    ensures day == FormatDay(s.saleDate)
  {
    FormatStamp(s.saleDate)[..10]
  }

  /** day BETWEEN startDate AND endDate, compared as TEXT. */
  predicate InRange(day: string, startDate: string, endDate: string) {
    LexLe(startDate, day) && LexLe(day, endDate)
  }

  function RowOf(s: Sale, item: Item): ReportRow {
    ReportRow(s.id, item.name, s.quantity, s.total, FormatStamp(s.saleDate))
  }

  /** The joined rows of one sale: one per inventory row with its product id. */
  function JoinRows(s: Sale, inventory: seq<Item>): seq<ReportRow> {
    if inventory == [] then []
    else (if inventory[0].id == s.productId then [RowOf(s, inventory[0])] else []) + JoinRows(s, inventory[1..])
  }

  function SalesReport(sales: seq<Sale>, inventory: seq<Item>, startDate: string, endDate: string): seq<ReportRow> {
    if sales == [] then []
    else
      (if InRange(SaleDay(sales[0]), startDate, endDate) then JoinRows(sales[0], inventory) else [])
      + SalesReport(sales[1..], inventory, startDate, endDate)
  }

  lemma {:induction false} JoinRowsMembers(s: Sale, inventory: seq<Item>)
    ensures forall r :: r in JoinRows(s, inventory) <==>
      exists item :: item in inventory && item.id == s.productId && r == RowOf(s, item)
  {
    if inventory != [] {
      JoinRowsMembers(s, inventory[1..]);
      assert forall item :: item in inventory <==> item == inventory[0] || item in inventory[1..];
    }
  }

  lemma {:induction false} JoinRowsAbsent(s: Sale, inventory: seq<Item>)
    requires forall k :: 0 <= k < |inventory| ==> inventory[k].id != s.productId
    ensures JoinRows(s, inventory) == []
  {
    if inventory != [] {
      JoinRowsAbsent(s, inventory[1..]);
    }
  }

  /** With unique inventory ids a sale joins with at most one row. */
  lemma {:induction false} JoinRowsAtMostOne(s: Sale, inventory: seq<Item>)
    requires ItemIdsIncreasing(inventory)
    ensures |JoinRows(s, inventory)| <= 1
  {
    if inventory != [] {
      if inventory[0].id == s.productId {
        forall k | 0 <= k < |inventory[1..]| ensures inventory[1..][k].id != s.productId {
          assert inventory[1..][k] == inventory[k + 1];
        }
        JoinRowsAbsent(s, inventory[1..]);
      } else {
        JoinRowsAtMostOne(s, inventory[1..]);
      }
    }
  }

  /** The report holds exactly the sales in range whose product still has an
      inventory row, each reported under that row's current name. Sales of
      products without a row are dropped. */
  lemma {:induction false} ReportMembers(sales: seq<Sale>, inventory: seq<Item>, startDate: string, endDate: string)
    ensures forall r :: r in SalesReport(sales, inventory, startDate, endDate) <==>
      exists s, item :: s in sales && item in inventory && s.productId == item.id
        && InRange(SaleDay(s), startDate, endDate) && r == RowOf(s, item)
  {
    if sales != [] {
      ReportMembers(sales[1..], inventory, startDate, endDate);
      JoinRowsMembers(sales[0], inventory);
      assert forall s :: s in sales <==> s == sales[0] || s in sales[1..];
    }
  }

  lemma {:induction false} JoinRowsIncludes(s: Sale, inventory: seq<Item>, k: int)
    requires 0 <= k < |inventory| && inventory[k].id == s.productId
    ensures RowOf(s, inventory[k]) in JoinRows(s, inventory)
  {
    if k > 0 {
      assert inventory[1..][k - 1] == inventory[k];
      JoinRowsIncludes(s, inventory[1..], k - 1);
    }
  }

  /** The sale at index i whose day is in range is reported, joined with the
      inventory row at index k that carries its product id. */
  lemma {:induction false} ReportIncludes(sales: seq<Sale>, inventory: seq<Item>, startDate: string, endDate: string, i: int, k: int)
    requires 0 <= i < |sales| && 0 <= k < |inventory| && sales[i].productId == inventory[k].id
    requires InRange(SaleDay(sales[i]), startDate, endDate)
    ensures RowOf(sales[i], inventory[k]) in SalesReport(sales, inventory, startDate, endDate)
  {
    if i == 0 {
      JoinRowsIncludes(sales[0], inventory, k);
    } else {
      assert sales[1..][i - 1] == sales[i];
      ReportIncludes(sales[1..], inventory, startDate, endDate, i - 1, k);
    }
  }

  /** A range whose start sorts after its end selects nothing. */
  lemma {:induction false} ReportReversedRangeEmpty(sales: seq<Sale>, inventory: seq<Item>, startDate: string, endDate: string)
    requires !LexLe(startDate, endDate)
    ensures SalesReport(sales, inventory, startDate, endDate) == []
  {
    if sales != [] {
      if InRange(SaleDay(sales[0]), startDate, endDate) {
        LexLeTrans(startDate, SaleDay(sales[0]), endDate);
      }
      ReportReversedRangeEmpty(sales[1..], inventory, startDate, endDate);
    }
  }

  /** With unique inventory ids the report has no more rows than there are
      sales (ReportOncePerSale shows no sale is reported twice). */
  lemma {:induction false} ReportAtMostOnePerSale(sales: seq<Sale>, inventory: seq<Item>, startDate: string, endDate: string)
    requires ItemIdsIncreasing(inventory)
    ensures |SalesReport(sales, inventory, startDate, endDate)| <= |sales|
  {
    if sales != [] {
      JoinRowsAtMostOne(sales[0], inventory);
      ReportAtMostOnePerSale(sales[1..], inventory, startDate, endDate);
    }
  }

  /** Every row a sale joins to carries that sale's id. */
  lemma {:induction false} JoinRowsSaleId(s: Sale, inventory: seq<Item>)
    ensures forall k :: 0 <= k < |JoinRows(s, inventory)| ==> JoinRows(s, inventory)[k].saleId == s.id
  {
    if inventory != [] {
      JoinRowsSaleId(s, inventory[1..]);
    }
  }

  /** The report of a non-empty sales table: the rows of its first sale,
      then the report of the rest. */
  lemma ReportSplit(sales: seq<Sale>, inventory: seq<Item>, startDate: string, endDate: string)
    requires sales != []
    ensures exists head ::
      && (head == [] || head == JoinRows(sales[0], inventory))
      && SalesReport(sales, inventory, startDate, endDate) == head + SalesReport(sales[1..], inventory, startDate, endDate)
  {
    if InRange(SaleDay(sales[0]), startDate, endDate) {
      assert SalesReport(sales, inventory, startDate, endDate) == JoinRows(sales[0], inventory) + SalesReport(sales[1..], inventory, startDate, endDate);
    } else {
      assert SalesReport(sales, inventory, startDate, endDate) == [] + SalesReport(sales[1..], inventory, startDate, endDate);
    }
  }

  /** Report rows whose sale ids strictly increase. */
  predicate SaleIdsAscending(rows: seq<ReportRow>) {
    forall i, j :: 0 <= i < j < |rows| ==> rows[i].saleId < rows[j].saleId
  }

  predicate SaleIdsAbove(rows: seq<ReportRow>, bound: int) {
    forall k :: 0 <= k < |rows| ==> bound < rows[k].saleId
  }

  lemma AboveConcat(head: seq<ReportRow>, tail: seq<ReportRow>, bound: int)
    requires SaleIdsAbove(head, bound) && SaleIdsAbove(tail, bound)
    ensures SaleIdsAbove(head + tail, bound)
  {
    forall k | 0 <= k < |head + tail| ensures bound < (head + tail)[k].saleId {
      if k < |head| {
        assert (head + tail)[k] == head[k];
      } else {
        assert (head + tail)[k] == tail[k - |head|];
      }
    }
  }

  lemma AscendingConcat(head: seq<ReportRow>, tail: seq<ReportRow>, id: int)
    requires |head| <= 1 && (forall k :: 0 <= k < |head| ==> head[k].saleId == id)
    requires SaleIdsAbove(tail, id) && SaleIdsAscending(tail)
    ensures SaleIdsAscending(head + tail)
  {
    if head != [] {
      forall i, j | 0 <= i < j < |head + tail| ensures (head + tail)[i].saleId < (head + tail)[j].saleId {
        if i == 0 {
          assert (head + tail)[i] == head[0] && (head + tail)[j] == tail[j - 1];
        } else {
          assert (head + tail)[i] == tail[i - 1] && (head + tail)[j] == tail[j - 1];
        }
      }
    } else {
      assert head + tail == tail;
    }
  }

  predicate SaleIdsExceed(sales: seq<Sale>, bound: int) {
    forall i :: 0 <= i < |sales| ==> bound < sales[i].id
  }

  lemma ExceedTail(sales: seq<Sale>, bound: int)
    requires sales != [] && SaleIdsExceed(sales, bound)
    ensures SaleIdsExceed(sales[1..], bound)
  {
    forall i | 0 <= i < |sales[1..]| ensures bound < sales[1..][i].id {
      assert sales[1..][i] == sales[i + 1];
    }
  }

  lemma IncreasingTail(sales: seq<Sale>)
    requires sales != [] && SaleIdsIncreasing(sales)
    ensures SaleIdsIncreasing(sales[1..]) && SaleIdsExceed(sales[1..], sales[0].id)
  {
    forall i | 0 <= i < |sales[1..]| ensures sales[0].id < sales[1..][i].id {
      assert sales[1..][i] == sales[i + 1];
    }
    forall i, j | 0 <= i < j < |sales[1..]| ensures sales[1..][i].id < sales[1..][j].id {
      assert sales[1..][i] == sales[i + 1] && sales[1..][j] == sales[j + 1];
    }
  }

  /** A bound below every sale id is below every reported sale id. */
  lemma {:induction false} ReportSaleIdsAbove(sales: seq<Sale>, inventory: seq<Item>, startDate: string, endDate: string, bound: int)
    requires SaleIdsExceed(sales, bound)
    ensures SaleIdsAbove(SalesReport(sales, inventory, startDate, endDate), bound)
  {
    if sales != [] {
      ReportSplit(sales, inventory, startDate, endDate);
      var head :|
        && (head == [] || head == JoinRows(sales[0], inventory))
        && SalesReport(sales, inventory, startDate, endDate) == head + SalesReport(sales[1..], inventory, startDate, endDate);
      JoinRowsSaleId(sales[0], inventory);
      ExceedTail(sales, bound);
      ReportSaleIdsAbove(sales[1..], inventory, startDate, endDate, bound);
      AboveConcat(head, SalesReport(sales[1..], inventory, startDate, endDate), bound);
    }
  }

  /** With unique ids in both tables the inner join reports each sale at most
      once, in sales order: the reported sale ids strictly increase. */
  lemma {:induction false} ReportOncePerSale(sales: seq<Sale>, inventory: seq<Item>, startDate: string, endDate: string)
    requires SaleIdsIncreasing(sales) && ItemIdsIncreasing(inventory)
    ensures SaleIdsAscending(SalesReport(sales, inventory, startDate, endDate))
  {
    if sales != [] {
      ReportSplit(sales, inventory, startDate, endDate);
      var head :|
        && (head == [] || head == JoinRows(sales[0], inventory))
        && SalesReport(sales, inventory, startDate, endDate) == head + SalesReport(sales[1..], inventory, startDate, endDate);
      JoinRowsAtMostOne(sales[0], inventory);
      JoinRowsSaleId(sales[0], inventory);
      IncreasingTail(sales);
      ReportSaleIdsAbove(sales[1..], inventory, startDate, endDate, sales[0].id);
      ReportOncePerSale(sales[1..], inventory, startDate, endDate);
      AscendingConcat(head, SalesReport(sales[1..], inventory, startDate, endDate), sales[0].id);
    }
  }

  /** When both bounds are "%Y-%m-%d" renderings of real days, the text
      filter keeps a sale exactly when its calendar day lies between them. */
  lemma InRangeIsCalendarRange(s: Sale, first: DateTime, last: DateTime)
    requires ValidDateTime(first) && ValidDateTime(last)
    ensures InRange(SaleDay(s), FormatDay(first), FormatDay(last)) <==>
      DayLe(first, s.saleDate) && DayLe(s.saleDate, last)
  {
    DayTextOrder(first, s.saleDate);
    DayTextOrder(s.saleDate, last);
  }
}
