/**
 * The step that runs the lookup the language model asked for: the function
 * name it returned is matched against the three advertised names, and the
 * lookup of that name is run on the `product_name` argument. Any other name
 * runs nothing and leaves the answer unset (`None` here); the program then
 * fails when it goes on to serialise that answer.
 */
module Dispatch {
  import opened Wrappers
  import opened Catalog
  import Lookups

  /** The three callable lookups. */
  datatype LookupFunction = ProductDetails | StockCheck | ProductPrice

  /** The name each lookup is advertised under. */
  function Name(f: LookupFunction): string {
    match f
    case ProductDetails => "get_product_details"
    case StockCheck => "check_stock"
    case ProductPrice => "get_product_price"
  }

  /** The lookup a function name selects, if it selects one. */
  function Resolve(name: string): (r: Option<LookupFunction>)
    ensures r.Some? ==> Name(r.value) == name
    ensures r.None? ==> forall f: LookupFunction :: Name(f) != name
  {
    if name == "get_product_details" then Some(ProductDetails)
    else if name == "check_stock" then Some(StockCheck)
    else if name == "get_product_price" then Some(ProductPrice)
    else None
  }

  /** Every lookup is selected by its own name and by no other. */
  lemma ResolveName(f: LookupFunction, name: string)
    ensures Resolve(name) == Some(f) <==> name == Name(f)
  {
  }

  /** What running lookup `f` means. */
  function Apply(f: LookupFunction, catalog: seq<Product>, query: string): LookupResult {
    match f
    case ProductDetails => DetailsOf(catalog, query)
    case StockCheck => StockOf(catalog, query)
    case ProductPrice => PriceOf(catalog, query)
  }

  /** The if/elif chain that assigns `answer`; `None` where the program leaves it unbound. */
  method Execute(name: string, catalog: seq<Product>, query: string) returns (answer: Option<LookupResult>)
    ensures answer.None? <==> forall f: LookupFunction :: Name(f) != name
    ensures forall f: LookupFunction :: Name(f) == name ==> answer == Some(Apply(f, catalog, query))
  {
    if name == "get_product_details" {
      var r := Lookups.GetProductDetails(catalog, query);
      assert Name(ProductDetails) == name;
      answer := Some(r);
    } else if name == "check_stock" {
      var r := Lookups.CheckStock(catalog, query);
      assert Name(StockCheck) == name;
      answer := Some(r);
    } else if name == "get_product_price" {
      var r := Lookups.GetProductPrice(catalog, query);
      assert Name(ProductPrice) == name;
      answer := Some(r);
    } else {
      assert Resolve(name).None?;
      answer := None;
    }
  }
}
