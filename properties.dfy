/**
 * Properties of the three lookups, stated over the specification functions of
 * module Catalog: the order the stock check keeps, case-insensitive matching,
 * the empty query, the empty catalog, and worked examples.
 */
module CatalogProperties {
  import opened Wrappers
  import opened Text
  import opened Catalog

  /**
   * The stock check filters piecewise: the result for a concatenation is the
   * result for the first part followed by the result for the second. Together
   * with the one-record case this pins the result down to exactly the
   * qualifying records, each where it stands in the catalog.
   */
  lemma {:induction false} InStockMatchesAppend(a: seq<Product>, b: seq<Product>, query: string)
    ensures InStockMatches(a + b, query) == InStockMatches(a, query) + InStockMatches(b, query)
    decreases |b|
  {
    if b == [] {
      assert a + b == a;
    } else {
      var init, last := b[..|b| - 1], b[|b| - 1];
      assert (a + b)[..|a + b| - 1] == a + init;
      assert (a + b)[|a + b| - 1] == last;
      InStockMatchesAppend(a, init, query);
    }
  }

  /** A one-record catalog keeps its record exactly when it qualifies. */
  lemma InStockMatchesSingle(p: Product, query: string)
    ensures InStockMatches([p], query) == if Qualifies(query, p) then [p] else []
  {
    assert [p][..0] == [];
  }

  /** Queries with the same lower-case form find the same first match. */
  lemma {:induction false} FirstMatchCaseInsensitive(catalog: seq<Product>, q1: string, q2: string, k: nat)
    requires Lower(q1) == Lower(q2)
    requires k <= |catalog|
    ensures FirstMatchFrom(catalog, q1, k) == FirstMatchFrom(catalog, q2, k)
    decreases |catalog| - k
  {
    if k < |catalog| {
      FirstMatchCaseInsensitive(catalog, q1, q2, k + 1);
    }
  }

  /** Queries with the same lower-case form keep the same in-stock records. */
  lemma {:induction false} InStockMatchesCaseInsensitive(catalog: seq<Product>, q1: string, q2: string)
    requires Lower(q1) == Lower(q2)
    ensures InStockMatches(catalog, q1) == InStockMatches(catalog, q2)
    decreases |catalog|
  {
    if catalog != [] {
      InStockMatchesCaseInsensitive(catalog[..|catalog| - 1], q1, q2);
    }
  }

  /**
   * Matching ignores case: two queries with the same lower-case form give the
   * same details and the same stock answer, and the same price answer except
   * that the not-found message quotes each query as typed.
   */
  lemma LookupsCaseInsensitive(catalog: seq<Product>, q1: string, q2: string)
    requires Lower(q1) == Lower(q2)
    ensures DetailsOf(catalog, q1) == DetailsOf(catalog, q2)
    ensures StockOf(catalog, q1) == StockOf(catalog, q2)
    ensures PriceOf(catalog, q1).PriceInfo? == PriceOf(catalog, q2).PriceInfo?
    ensures PriceOf(catalog, q1).PriceInfo? ==> PriceOf(catalog, q1) == PriceOf(catalog, q2)
    ensures !PriceOf(catalog, q1).PriceInfo? ==>
      PriceOf(catalog, q1) == Message(PriceNotAvailable(q1)) &&
      PriceOf(catalog, q2) == Message(PriceNotAvailable(q2))
  {
    FirstMatchCaseInsensitive(catalog, q1, q2, 0);
    InStockMatchesCaseInsensitive(catalog, q1, q2);
  }

  /**
   * A query that is a substring of some record's name, in any mix of cases,
   * is always found: the details lookup returns that record or an earlier
   * matching one.
   */
  lemma CaseVariantSubstringFound(catalog: seq<Product>, k: int, part: string, query: string)
    requires 0 <= k < |catalog|
    requires Contains(catalog[k].name, part)
    requires Lower(query) == Lower(part)
    ensures DetailsOf(catalog, query).Details?
    ensures exists i :: 0 <= i <= k && IsFirstMatch(catalog, query, i) &&
                        DetailsOf(catalog, query).item == catalog[i]
  {
    LowerPreservesContains(catalog[k].name, part);
    assert Matches(query, catalog[k]);
  }

  /** The empty query matches every record. */
  lemma EmptyQueryMatchesAll(catalog: seq<Product>)
    ensures forall i | 0 <= i < |catalog| :: Matches("", catalog[i])
  {
    forall i | 0 <= i < |catalog| ensures Matches("", catalog[i]) {
      ContainsEmpty(Lower(catalog[i].name));
    }
  }

  /**
   * On a non-empty catalog the empty query yields the first record for the
   * details and price lookups, and every in-stock record for the stock check.
   */
  lemma EmptyQuery(catalog: seq<Product>)
    requires catalog != []
    ensures DetailsOf(catalog, "") == Details(catalog[0])
    ensures PriceOf(catalog, "") == PriceInfo(catalog[0].name, catalog[0].price)
    ensures forall i | 0 <= i < |catalog| :: catalog[i].inStock ==> catalog[i] in InStockMatches(catalog, "")
  {
    EmptyQueryMatchesAll(catalog);
  }

  /** On an empty catalog every lookup gives its not-found message. */
  lemma EmptyCatalog(query: string)
    ensures DetailsOf([], query) == Message(NothingFound)
    ensures StockOf([], query) == Message(ProductNotFound)
    ensures PriceOf([], query) == Message(PriceNotAvailable(query))
  {
  }

  /** The one-record catalog of the worked examples. */
  function RedShoes(): Product {
    Product("Red Shoes", 20, true, map[])
  }

  /** Looking things up in `[Red Shoes, 20, in stock]`. */
  lemma RedShoesExamples()
    ensures DetailsOf([RedShoes()], "red") == Details(RedShoes())
    ensures StockOf([RedShoes()], "shoes") == Available([RedShoes()])
    ensures StockOf([RedShoes()], "boots") == Message(ProductNotFound)
    ensures PriceOf([RedShoes()], "shoes") == PriceInfo("Red Shoes", 20)
  {
    var lowered := Lower("Red Shoes");
    assert lowered == "red shoes";
    assert Lower("red") == "red";
    assert Lower("shoes") == "shoes";
    assert Lower("boots") == "boots";
    assert OccursAt(lowered, "shoes", 4);
    ContainsIff(lowered, "shoes");
    if Contains(lowered, "boots") {
      ContainsFirstChar(lowered, "boots");
      assert false;
    }
    InStockMatchesSingle(RedShoes(), "shoes");
    InStockMatchesSingle(RedShoes(), "boots");
  }
}
