/**
 * The catalog handlers `get_product`, `add_or_update_product` and
 * `purchase_items`, as functions from the products table to a reply and the
 * new table.
 */
module Catalog {
  import opened Wrappers
  import opened Records
  import opened Query

  const ProductUpdated := "Product quantity updated successfully"
  const ProductAdded := "Product added successfully"
  const PurchaseSuccessful := "Purchase successful"

  /** The body `add_or_update_product` returns: `{message, product}`. */
  datatype UpsertReply = UpsertReply(message: string, product: Product)

  /**
   * One entry of a purchase request. The handler matches `productId` against
   * the product NAME column, so here it holds a name.
   */
  datatype PurchaseItem = PurchaseItem(productId: string, quantity: int)

  predicate Stocked(products: seq<Product>, name: string) {
    exists i :: 0 <= i < |products| && products[i].name == name
  }

  /** No item of the request names `name`. */
  predicate Untouched(items: seq<PurchaseItem>, name: string) {
    forall t :: 0 <= t < |items| ==> items[t].productId != name
  }

  /** `after` is `before` with at most the stock level of row `k` changed. */
  predicate StockChangedOnlyAt(before: seq<Product>, after: seq<Product>, k: nat) {
    && |after| == |before|
    && k < |before|
    && after[k] == before[k].(stockLevel := after[k].stockLevel)
    && forall j :: 0 <= j < |before| && j != k ==> after[j] == before[j]
  }

  /** `after` has the rows of `before`, with at most their stock levels changed. */
  predicate SameCatalog(before: seq<Product>, after: seq<Product>) {
    && |after| == |before|
    && forall j :: 0 <= j < |before| ==> after[j] == before[j].(stockLevel := after[j].stockLevel)
  }

  /** Changing stock levels only keeps product names unique and ids numbered. */
  lemma SameCatalogKeepsKeys(before: seq<Product>, after: seq<Product>)
    requires SameCatalog(before, after)
    ensures NamesUnique(before) ==> NamesUnique(after)
    ensures ProductsNumbered(before) ==> ProductsNumbered(after)
  {
    forall j | 0 <= j < |before| ensures after[j].name == before[j].name && after[j].id == before[j].id {
      assert after[j] == before[j].(stockLevel := after[j].stockLevel);
    }
  }

  /** `get_product`: the product with that name, or 404. */
  function GetProduct(products: seq<Product>, name: string): (r: Result<Product, Error>)
    ensures r.Err? <==> !Stocked(products, name)
    ensures r.Err? ==> r.error == ProductNotFound
    ensures r.Ok? ==> r.value in products && r.value.name == name
  {
    match First(products, NameIs(name))
    case None => Err(ProductNotFound)
    case Some(i) => Ok(products[i])
  }

  /**
   * `add_or_update_product`: a known name gets `stockLevel` ADDED to its stock
   * (its supplier is left as it was); an unknown name is inserted with that
   * stock, that supplier and the table's default reorder threshold.
   */
  function AddOrUpdate(products: seq<Product>, name: string, stockLevel: int, supplierId: Option<int>, defaultThreshold: Option<int>)
    : (out: (UpsertReply, seq<Product>))
    ensures Stocked(products, name) ==>
      exists k :: 0 <= k < |products| && products[k].name == name
        && (forall j :: 0 <= j < k ==> products[j].name != name)
        && StockChangedOnlyAt(products, out.1, k)
        && out.1[k].stockLevel == products[k].stockLevel + stockLevel
        && out.0 == UpsertReply(ProductUpdated, out.1[k])
    ensures !Stocked(products, name) ==>
      && out.1 == products + [Product(|products| + 1, name, stockLevel, defaultThreshold, supplierId)]
      && out.0 == UpsertReply(ProductAdded, out.1[|products|])
    ensures NamesUnique(products) ==> NamesUnique(out.1)
  {
    match First(products, NameIs(name))
    case Some(k) =>
      var updated := products[k].(stockLevel := products[k].stockLevel + stockLevel);
      (UpsertReply(ProductUpdated, updated), products[k := updated])
    case None =>
      var created := Product(|products| + 1, name, stockLevel, defaultThreshold, supplierId);
      (UpsertReply(ProductAdded, created), products + [created])
  }

  /** Restocking is additive: after an upsert the product reads back with old stock plus the delta (or just the given stock, if new). */
  lemma UpsertThenGet(products: seq<Product>, name: string, stockLevel: int, supplierId: Option<int>, defaultThreshold: Option<int>)
    ensures var after := AddOrUpdate(products, name, stockLevel, supplierId, defaultThreshold).1;
      && GetProduct(after, name).Ok?
      && GetProduct(after, name).value.stockLevel ==
           (if Stocked(products, name) then GetProduct(products, name).value.stockLevel + stockLevel else stockLevel)
  {
    var after := AddOrUpdate(products, name, stockLevel, supplierId, defaultThreshold).1;
    match First(products, NameIs(name))
    case Some(k) =>
      assert after[k] == products[k].(stockLevel := products[k].stockLevel + stockLevel);
      forall j | 0 <= j < k ensures !NameIs(name)(after[j]) {
        assert !NameIs(name)(products[j]);
        assert after[j] == products[j];
      }
      assert First(after, NameIs(name)) == Some(k);
    case None =>
      assert after[|products|] == Product(|products| + 1, name, stockLevel, defaultThreshold, supplierId);
      forall j | 0 <= j < |products| ensures !NameIs(name)(after[j]) {
        assert !NameIs(name)(products[j]);
        assert after[j] == products[j];
      }
      assert First(after, NameIs(name)) == Some(|products|);
  }

  /**
   * One iteration of `purchase_items`: the first product with the item's name
   * must exist (else 404) and hold at least the quantity (else 400); then its
   * stock drops by the quantity and nothing else changes.
   */
  function PurchaseStep(products: seq<Product>, item: PurchaseItem): (r: Result<seq<Product>, Error>)
    ensures !Stocked(products, item.productId) ==> r == Err(UnknownPurchaseItem(item.productId))
    ensures Stocked(products, item.productId) ==>
      exists k :: 0 <= k < |products| && products[k].name == item.productId
        && (forall j :: 0 <= j < k ==> products[j].name != item.productId)
        && (products[k].stockLevel < item.quantity ==> r == Err(NotEnoughStock(item.productId)))
        && (products[k].stockLevel >= item.quantity ==>
              && r.Ok?
              && StockChangedOnlyAt(products, r.value, k)
              && r.value[k].stockLevel == products[k].stockLevel - item.quantity
              && r.value[k].stockLevel >= 0)
    ensures r.Ok? ==> SameCatalog(products, r.value)
    ensures r.Ok? ==> forall j :: 0 <= j < |products| && products[j].name != item.productId ==> r.value[j] == products[j]
  {
    match First(products, NameIs(item.productId))
    case None => Err(UnknownPurchaseItem(item.productId))
    case Some(k) =>
      if products[k].stockLevel < item.quantity then Err(NotEnoughStock(products[k].name))
      else Ok(products[k := products[k].(stockLevel := products[k].stockLevel - item.quantity)])
  }

  /**
   * `purchase_items`: the items are taken in order and each successful step is
   * committed at once, so the first failing item ends the request with its
   * error while every earlier decrement stays applied.
   */
  function Purchase(products: seq<Product>, items: seq<PurchaseItem>): (out: (Result<string, Error>, seq<Product>))
    ensures SameCatalog(products, out.1)
    ensures out.0.Ok? ==> out.0.value == PurchaseSuccessful
    ensures forall j :: 0 <= j < |products| && Untouched(items, products[j].name) ==> out.1[j] == products[j]
    decreases |items|
  {
    if items == [] then (Ok(PurchaseSuccessful), products)
    else match PurchaseStep(products, items[0])
      case Err(e) => (Err(e), products)
      case Ok(next) => Purchase(next, items[1..])
  }

  /** The total quantity a request asks of the product called `name`. */
  function QuantityFor(items: seq<PurchaseItem>, name: string): int {
    if items == [] then 0
    else (if items[0].productId == name then items[0].quantity else 0) + QuantityFor(items[1..], name)
  }

  /** A request that succeeds takes from each product exactly the sum of the quantities asked of it. */
  lemma {:induction false} PurchaseTotals(products: seq<Product>, items: seq<PurchaseItem>)
    requires NamesUnique(products)
    requires Purchase(products, items).0.Ok?
    ensures forall j :: 0 <= j < |products| ==>
      Purchase(products, items).1[j].stockLevel == products[j].stockLevel - QuantityFor(items, products[j].name)
    decreases |items|
  {
    if items != [] {
      var next := PurchaseStep(products, items[0]).value;
      assert NamesUnique(next);
      PurchaseTotals(next, items[1..]);
    }
  }

  /** After a successful request, every product it named has non-negative stock. */
  lemma {:induction false} PurchaseLeavesNamedStockNonNegative(products: seq<Product>, items: seq<PurchaseItem>)
    requires NamesUnique(products)
    requires Purchase(products, items).0.Ok?
    ensures forall j :: 0 <= j < |products| && !Untouched(items, products[j].name) ==>
      Purchase(products, items).1[j].stockLevel >= 0
    decreases |items|
  {
    if items != [] {
      var next := PurchaseStep(products, items[0]).value;
      assert NamesUnique(next);
      PurchaseLeavesNamedStockNonNegative(next, items[1..]);
      var after := Purchase(products, items).1;
      forall j | 0 <= j < |products| && !Untouched(items, products[j].name)
        ensures after[j].stockLevel >= 0
      {
        if Untouched(items[1..], products[j].name) {
          assert items[0].productId == products[j].name;
          assert after[j] == next[j];
        } else {
          assert next[j].name == products[j].name;
        }
      }
    }
  }

  /**
   * A request that fails at item `k` leaves the table exactly as the request
   * made of items `0..k-1` alone would: those decrements stay committed, and
   * item `k` itself fails on that table with the reported error.
   */
  lemma {:induction false} PurchaseFailureKeepsPrefix(products: seq<Product>, items: seq<PurchaseItem>) returns (k: nat)
    requires Purchase(products, items).0.Err?
    ensures k < |items|
    ensures Purchase(products, items[..k]) == (Ok(PurchaseSuccessful), Purchase(products, items).1)
    ensures PurchaseStep(Purchase(products, items).1, items[k]) == Err(Purchase(products, items).0.error)
    decreases |items|
  {
    match PurchaseStep(products, items[0])
    case Err(e) =>
      k := 0;
    case Ok(next) =>
      var rest := PurchaseFailureKeepsPrefix(next, items[1..]);
      k := rest + 1;
      PrefixTail(items, k);
  }
}
