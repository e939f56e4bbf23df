/**
 * The product catalog and the meaning of the three lookups over it. A record
 * matches a query when the lower-cased query is a substring of the record's
 * lower-cased `Name`. The specification functions here are what the loop
 * methods in module Lookups are proved to compute.
 */
module Catalog {
  import opened Wrappers
  import opened Text

  /**
   * One catalog record: `Name`, `Price`, the truth value of `StockAvailability`,
   * and every other field of the record, passed through untouched.
   */
  datatype Product = Product(name: string, price: int, inStock: bool, extra: map<string, string>)

  /** What a lookup hands back to the conversation. */
  datatype LookupResult =
    | Details(item: Product)                   // a whole record
    | Available(items: seq<Product>)           // the list of in-stock records
    | PriceInfo(product: string, price: int)   // {"product": ..., "price": ...}
    | Message(text: string)                    // {"message": ...}

  const NothingFound: string := "Nothing found"
  const ProductNotFound: string := "Product Not found"
  const PricePrefix: string := "Price information not available for '"
  const PriceSuffix: string := "'."

  /** The price lookup's not-found message, with the query quoted as typed. */
  function PriceNotAvailable(query: string): string {
    PricePrefix + query + PriceSuffix
  }

  /** The query can be read back out of the message, character for character. */
  lemma PriceNotAvailableQuotesQuery(query: string)
    ensures |PriceNotAvailable(query)| == |PricePrefix| + |query| + |PriceSuffix|
    ensures PriceNotAvailable(query)[|PricePrefix|..|PricePrefix| + |query|] == query
  {
  }

  /** Different queries give different messages: nothing of the query is lost. */
  lemma PriceNotAvailableInjective(q1: string, q2: string)
    requires PriceNotAvailable(q1) == PriceNotAvailable(q2)
    ensures q1 == q2
  {
    PriceNotAvailableQuotesQuery(q1);
    PriceNotAvailableQuotesQuery(q2);
  }

  /** `query.lower() in item["Name"].lower()` */
  predicate Matches(query: string, p: Product) {
    Contains(Lower(p.name), Lower(query))
  }

  /** The condition under which the stock check keeps a record. */
  predicate Qualifies(query: string, p: Product) {
    Matches(query, p) && p.inStock
  }

  /** `i` is the smallest index of a matching record. */
  predicate IsFirstMatch(catalog: seq<Product>, query: string, i: int) {
    0 <= i < |catalog| && Matches(query, catalog[i]) &&
    forall j | 0 <= j < i :: !Matches(query, catalog[j])
  }

  /** The index of the first record at or after `k` that matches, if any. */
  function FirstMatchFrom(catalog: seq<Product>, query: string, k: nat): (r: Option<nat>)
    requires k <= |catalog|
    ensures r.Some? ==> k <= r.value < |catalog| && Matches(query, catalog[r.value])
    ensures r.Some? ==> forall j | k <= j < r.value :: !Matches(query, catalog[j])
    ensures r.None? ==> forall j | k <= j < |catalog| :: !Matches(query, catalog[j])
    decreases |catalog| - k
  {
    if k == |catalog| then None
    else if Matches(query, catalog[k]) then Some(k)
    else FirstMatchFrom(catalog, query, k + 1)
  }

  /** `get_product_details`: the first matching record, or "Nothing found". */
  function DetailsOf(catalog: seq<Product>, query: string): (r: LookupResult)
    ensures r.Details? <==> exists i | 0 <= i < |catalog| :: Matches(query, catalog[i])
    ensures r.Details? ==> exists i :: IsFirstMatch(catalog, query, i) && r.item == catalog[i]
    ensures !r.Details? ==> r == Message(NothingFound)
  {
    match FirstMatchFrom(catalog, query, 0)
    case Some(i) =>
      assert IsFirstMatch(catalog, query, i);
      Details(catalog[i])
    case None => Message(NothingFound)
  }

  /** The records that match and are in stock, in catalog order. */
  function InStockMatches(catalog: seq<Product>, query: string): (r: seq<Product>)
    ensures |r| <= |catalog|
    ensures forall x | x in r :: x in catalog && Qualifies(query, x)
    ensures forall i | 0 <= i < |catalog| && Qualifies(query, catalog[i]) :: catalog[i] in r
    decreases |catalog|
  {
    if catalog == [] then []
    else
      var rest, last := catalog[..|catalog| - 1], catalog[|catalog| - 1];
      InStockMatches(rest, query) + (if Qualifies(query, last) then [last] else [])
  }

  /** `check_stock`: the non-empty list of in-stock matches, or "Product Not found". */
  function StockOf(catalog: seq<Product>, query: string): (r: LookupResult)
    ensures r.Available? <==> exists i | 0 <= i < |catalog| :: Qualifies(query, catalog[i])
    ensures r.Available? ==> r.items == InStockMatches(catalog, query) && r.items != []
    ensures !r.Available? ==> r == Message(ProductNotFound)
  {
    var found := InStockMatches(catalog, query);
    if |found| > 0 then
      assert found[0] in catalog;
      Available(found)
    else Message(ProductNotFound)
  }

  /** `get_product_price`: name and price of the first match, or the quoted-query message. */
  function PriceOf(catalog: seq<Product>, query: string): (r: LookupResult)
    ensures r.PriceInfo? <==> DetailsOf(catalog, query).Details?
    ensures r.PriceInfo? ==>
      r.product == DetailsOf(catalog, query).item.name && r.price == DetailsOf(catalog, query).item.price
    ensures !r.PriceInfo? ==> r == Message(PriceNotAvailable(query))
  {
    match FirstMatchFrom(catalog, query, 0)
    case Some(i) => PriceInfo(catalog[i].name, catalog[i].price)
    case None => Message(PriceNotAvailable(query))
  }
}
