/**
 * The three lookups as the program runs them: a loop over the catalog in
 * order, leaving early on the first match for details and price, collecting
 * every in-stock match for the stock check. Each is proved to compute the
 * specification function of the same name in module Catalog. The catalog is
 * a value, so no lookup can change it.
 */
module Lookups {
  import opened Text
  import opened Catalog

  /** `get_product_details(product_name)` */
  method GetProductDetails(catalog: seq<Product>, query: string) returns (r: LookupResult)
    ensures r == DetailsOf(catalog, query)
  {
    for i := 0 to |catalog|
      invariant forall j | 0 <= j < i :: !Matches(query, catalog[j])
    {
      if Contains(Lower(catalog[i].name), Lower(query)) {
        assert IsFirstMatch(catalog, query, i);
        return Details(catalog[i]);
      }
    }
    return Message(NothingFound);
  }

  /** `check_stock(product_name)` */
  method CheckStock(catalog: seq<Product>, query: string) returns (r: LookupResult)
    ensures r == StockOf(catalog, query)
  {
    var available: seq<Product> := [];
    for i := 0 to |catalog|
      invariant available == InStockMatches(catalog[..i], query)
    {
      assert catalog[..i + 1][..i] == catalog[..i];
      if Contains(Lower(catalog[i].name), Lower(query)) && catalog[i].inStock {
        available := available + [catalog[i]];
      }
    }
    assert catalog[..|catalog|] == catalog;
    if |available| > 0 {
      r := Available(available);
    } else {
      r := Message(ProductNotFound);
    }
  }

  /** `get_product_price(product_name)` */
  method GetProductPrice(catalog: seq<Product>, query: string) returns (r: LookupResult)
    ensures r == PriceOf(catalog, query)
  {
    for i := 0 to |catalog|
      invariant forall j | 0 <= j < i :: !Matches(query, catalog[j])
    {
      if Contains(Lower(catalog[i].name), Lower(query)) {
        assert IsFirstMatch(catalog, query, i);
        return PriceInfo(catalog[i].name, catalog[i].price);
      }
    }
    return Message(PriceNotAvailable(query));
  }
}
