/**
 * One cycle of the low-stock monitor (`check_low_stock` with
 * `send_email_notification`): the selection `stock_level < reorder_threshold`
 * and the text of the alert e-mail. The loop, the sleep, the SQL connection
 * and the SMTP session are not part of this model.
 */
module Monitor {
  import opened Wrappers
  import opened Records
  import opened Text

  /** A row of the low-stock query: `(name, stock_level, reorder_threshold)`. */
  datatype LowStockItem = LowStockItem(name: string, stock: int, threshold: int)

  datatype Email = Email(subject: string, body: string)

  const Subject := "Low Stock Alert \U{1F6A8}"
  const Header := "The following products are low in stock:\n\n"

  /** SQL's `<` over nullable integers: NULL (None) when either side is NULL. */
  function SqlLess(a: Option<int>, b: Option<int>): Option<bool> {
    if a.None? || b.None? then None else Some(a.value < b.value)
  }

  /**
   * The query's WHERE clause, which keeps a row only when the comparison is
   * TRUE: a product is low exactly when it has a threshold and its stock is
   * below it, so a NULL threshold is never reported.
   */
  predicate IsLow(p: Product)
    ensures IsLow(p) <==> p.reorderThreshold.Some? && p.stockLevel < p.reorderThreshold.value
  {
    SqlLess(Some(p.stockLevel), p.reorderThreshold) == Some(true)
  }

  function ItemOf(p: Product): LowStockItem
    requires p.reorderThreshold.Some?
  {
    LowStockItem(p.name, p.stockLevel, p.reorderThreshold.value)
  }

  /** The low-stock query: the products below their threshold, in table order. */
  function LowStockItems(products: seq<Product>): (r: seq<LowStockItem>)
    ensures |r| <= |products|
    ensures forall k :: 0 <= k < |r| ==> r[k].stock < r[k].threshold
    ensures forall i :: 0 <= i < |products| && IsLow(products[i]) ==> ItemOf(products[i]) in r
  {
    if products == [] then []
    else
      var rest := LowStockItems(products[1..]);
      assert forall i :: 1 <= i < |products| ==> products[i] == products[1..][i - 1];
      (if IsLow(products[0]) then [ItemOf(products[0])] else []) + rest
  }

  /** Nothing else is selected: the k-th selected row comes from a product below its threshold. */
  lemma {:induction false} LowStockItemSource(products: seq<Product>, k: nat)
    requires k < |LowStockItems(products)|
    ensures exists i :: 0 <= i < |products| && IsLow(products[i]) && ItemOf(products[i]) == LowStockItems(products)[k]
  {
    var tail := products[1..];
    var head := if IsLow(products[0]) then [ItemOf(products[0])] else [];
    assert LowStockItems(products) == head + LowStockItems(tail);
    if k < |head| {
      assert LowStockItems(products)[k] == ItemOf(products[0]);
    } else {
      LowStockItemSource(tail, k - |head|);
      var j :| 0 <= j < |tail| && IsLow(tail[j]) && ItemOf(tail[j]) == LowStockItems(tail)[k - |head|];
      assert products[j + 1] == tail[j];
    }
  }

  /** The selection keeps table order: a table grown by appending selects its old rows first. */
  lemma {:induction false} LowStockItemsAppend(a: seq<Product>, b: seq<Product>)
    ensures LowStockItems(a + b) == LowStockItems(a) + LowStockItems(b)
  {
    if a == [] {
      assert a + b == b;
    } else {
      assert (a + b)[1..] == a[1..] + b;
      LowStockItemsAppend(a[1..], b);
    }
  }

  /** One line of the body: `- name: stock (Threshold: threshold)`. */
  function Line(item: LowStockItem): string {
    Joined(["- ", item.name, ": ", FormatInt(item.stock), " (Threshold: ", FormatInt(item.threshold), ")\n"], Verbatim)
  }

  /**
   * A line is the product's name verbatim and the canonical renderings of its
   * stock level and threshold, in the fixed layout of the e-mail; both
   * renderings read back as the numbers.
   */
  lemma LineShowsItem(item: LowStockItem)
    ensures Line(item) == "- " + item.name + ": " + FormatInt(item.stock) + " (Threshold: " + FormatInt(item.threshold) + ")\n"
    ensures ParseInt(FormatInt(item.stock)) == Some(item.stock)
    ensures ParseInt(FormatInt(item.threshold)) == Some(item.threshold)
  {
    var stock, threshold := FormatInt(item.stock), FormatInt(item.threshold);
    var parts := ["- ", item.name, ": ", stock, " (Threshold: ", threshold, ")\n"];
    assert Joined(parts[..1], Verbatim) == "- " by {
      assert parts[..1][..0] == [];
    }
    assert Joined(parts[..2], Verbatim) == "- " + item.name by {
      assert parts[..2][..1] == parts[..1];
    }
    assert Joined(parts[..3], Verbatim) == "- " + item.name + ": " by {
      assert parts[..3][..2] == parts[..2];
    }
    assert Joined(parts[..4], Verbatim) == "- " + item.name + ": " + stock by {
      assert parts[..4][..3] == parts[..3];
    }
    assert Joined(parts[..5], Verbatim) == "- " + item.name + ": " + stock + " (Threshold: " by {
      assert parts[..5][..4] == parts[..4];
    }
    assert Joined(parts[..6], Verbatim) == "- " + item.name + ": " + stock + " (Threshold: " + threshold by {
      assert parts[..6][..5] == parts[..5];
    }
    assert parts[..7][..6] == parts[..6] && parts[..7] == parts;
    FormatIntRoundTrip(item.stock);
    FormatIntRoundTrip(item.threshold);
  }

  /** The lines of `items`, one after the other. */
  function Lines(items: seq<LowStockItem>): string {
    Joined(items, Line)
  }

  function Body(items: seq<LowStockItem>): string {
    Header + Lines(items)
  }

  /**
   * The body is the header followed by each item's line in order: item k's
   * line starts right after the header and the lines of items 0..k-1.
   */
  lemma BodyHasLineOf(items: seq<LowStockItem>, k: nat)
    requires k < |items|
    ensures var at := |Header| + |Lines(items[..k])|;
      && Body(items)[..|Header|] == Header
      && at + |Line(items[k])| <= |Body(items)|
      && Body(items)[at..at + |Line(items[k])|] == Line(items[k])
  {
    JoinedHas(items, k, Line);
    var at := |Lines(items[..k])|;
    AfterPrefix(Header, Lines(items), at, at + |Line(items[k])|);
  }

  /** `send_email_notification`'s loop: the body grows by one line per item, in order. */
  method ComposeBody(items: seq<LowStockItem>) returns (body: string)
    ensures body == Body(items)
  {
    body := Header;
    for i := 0 to |items|
      invariant body == Header + Lines(items[..i])
    {
      assert items[..i + 1][..i] == items[..i];
      assert Lines(items[..i + 1]) == Lines(items[..i]) + Line(items[i]);
      body := body + Line(items[i]);
    }
    assert items[..|items|] == items;
  }

  /** One cycle of the monitor: no e-mail when no product is low, otherwise the alert for the selection. */
  function LowStockAlert(products: seq<Product>): (r: Option<Email>)
    ensures r.None? <==> forall i :: 0 <= i < |products| ==> !IsLow(products[i])
    ensures r.Some? ==> r.value.subject == Subject && |Header| <= |r.value.body| && r.value.body[..|Header|] == Header
  {
    var items := LowStockItems(products);
    if items == [] then None
    else
      LowStockItemSource(products, 0);
      Some(Email(Subject, Body(items)))
  }

  /**
   * Every product below its threshold is reported: the alert exists and its
   * body contains that product's line, with its name, stock and threshold.
   */
  lemma AlertReportsLowProduct(products: seq<Product>, i: nat) returns (at: nat)
    requires i < |products| && IsLow(products[i])
    ensures LowStockAlert(products).Some?
    ensures var body := LowStockAlert(products).value.body;
      at + |Line(ItemOf(products[i]))| <= |body| && body[at..at + |Line(ItemOf(products[i]))|] == Line(ItemOf(products[i]))
  {
    var items := LowStockItems(products);
    var k :| 0 <= k < |items| && items[k] == ItemOf(products[i]);
    BodyHasLineOf(items, k);
    at := |Header| + |Lines(items[..k])|;
  }
}
