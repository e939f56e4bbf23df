# ShopBot catalog lookups

ShopBot is a web-form assistant: a user's question goes to a language model that
may choose one of three catalog lookups, the program runs that lookup over a
product catalog loaded once from `shop_bot.json`, and the model turns the
lookup's result into the answer shown to the user. This project models the
part of `main.py` with logic of its own:

- the three lookups `get_product_details`, `check_stock` and `get_product_price`.
  Each is a loop over the catalog in order. A record matches when the
  lower-cased query is a substring of the record's lower-cased `Name`;
- the if/elif chain in `execute` that picks a lookup from the function name the
  model returned.

Files:

- `wrappers.dfy`: `Option`.
- `text.dfy`: ASCII lower-casing (`str.lower`) and the substring test (`in` on
  strings), with a positional characterisation of the substring test.
- `catalog.dfy`: the `Product` record and the `LookupResult` shapes. It also holds
  the three lookups as specification functions (`DetailsOf`, `StockOf`,
  `PriceOf`) whose contracts say what each returns.
- `properties.dfy`: lemmas about those functions. They cover the order of the
  stock list, case-insensitivity, the empty query, the empty catalog and worked
  examples.
- `lookups.dfy`: the three lookups as loop methods, proved equal to the
  specification functions. The catalog is a `seq` value, so a lookup cannot
  change it. Each method's result is pinned to a function of its inputs, so
  repeating a lookup gives the same result.
- `dispatch.dfy`: function names and the dispatch method `Execute`.

## Model

| member | source | states |
|---|---|---|
| Text.LowerChar | main.py:19 | an upper-case ASCII letter becomes its lower-case letter; every other character is unchanged; no upper-case letter comes out |
| Text.Lower | main.py:19 | `str.lower` keeps the length; each upper-case ASCII letter becomes its lower-case letter (code point raised by the offset from 'A' to 'a'); every other character stays in place; no upper-case letter is left |
| Text.Contains | main.py:19 | defines Python's `in` on strings by recursion on the containing string; its meaning is stated by Text.ContainsIff |
| Text.ContainsIff | main.py:19 | the recursive substring test holds exactly when the query occurs at some position of the name (both directions) |
| Text.ContainsFirstChar | main.py:19 | a non-empty substring's first character occurs in the containing string |
| Text.ContainsEmpty | main.py:19 | the empty string is a substring of every name |
| Text.LowerPreservesContains | main.py:19 | a substring stays a substring when both sides are lower-cased |
| Catalog.PriceNotAvailable | main.py:51 | defines the f-string message of the price lookup; Catalog.PriceNotAvailableQuotesQuery and Catalog.PriceNotAvailableInjective state that it quotes the query verbatim |
| Catalog.PriceNotAvailableQuotesQuery | main.py:49-52 | the price not-found message carries the query verbatim between the fixed prefix and suffix |
| Catalog.PriceNotAvailableInjective | main.py:49-52 | two different queries never give the same price not-found message |
| Catalog.Matches | main.py:19 | defines the match test `query.lower() in Name.lower()` (also main.py:32 and 44); its meaning follows from Text.Lower and Text.ContainsIff |
| Catalog.Qualifies | main.py:32 | defines the stock check's test: the record matches and its `StockAvailability` is true |
| Catalog.FirstMatchFrom | main.py:18-20 | the scan from index k returns the smallest matching index at or after k, or nothing when no record from k on matches |
| Catalog.DetailsOf | main.py:16-24 | a record is returned exactly when some record matches; it is the record at the smallest matching index; otherwise the result is `{"message": "Nothing found"}` |
| Catalog.InStockMatches | main.py:29-33 | every collected record is in the catalog, matches and is in stock; no qualifying record is omitted. This contract speaks of membership only; order and multiplicity are fixed by CatalogProperties.InStockMatchesAppend together with CatalogProperties.InStockMatchesSingle |
| Catalog.StockOf | main.py:27-38 | a list is returned exactly when some record qualifies; it is the in-stock matches and never empty; otherwise the result is `{"message": "Product Not found"}` |
| Catalog.PriceOf | main.py:41-52 | price info is returned exactly when the details lookup finds a record; it carries that record's `Name` and `Price`; otherwise the result is the not-found message quoting the query as typed |
| CatalogProperties.InStockMatchesAppend | main.py:30-33 | the stock list of a concatenated catalog is the stock list of the first part followed by that of the second, so catalog order is kept |
| CatalogProperties.InStockMatchesSingle | main.py:32-33 | a single record is kept exactly when it matches and is in stock |
| CatalogProperties.FirstMatchCaseInsensitive | main.py:18-20 | queries with equal lower-case forms find the same first match |
| CatalogProperties.InStockMatchesCaseInsensitive | main.py:30-33 | queries with equal lower-case forms collect the same in-stock records |
| CatalogProperties.LookupsCaseInsensitive | main.py:16-52 | queries with equal lower-case forms give equal details and stock results and equal price info; only the price not-found message differs, because each quotes its own query |
| CatalogProperties.CaseVariantSubstringFound | main.py:18-20 | a query that is a case variant of a substring of record k's name is found, at index k or at an earlier matching index |
| CatalogProperties.EmptyQueryMatchesAll | main.py:19 | the empty query matches every record |
| CatalogProperties.EmptyQuery | main.py:16-52 | on a non-empty catalog the empty query gives the first record's details and the first record's price; every in-stock record is in its stock list |
| CatalogProperties.EmptyCatalog | main.py:16-52 | on an empty catalog each lookup returns its own not-found message |
| CatalogProperties.RedShoesExamples | main.py:16-52 | with the catalog `[Red Shoes, 20, in stock]`: details of "red" is the record, stock of "shoes" is the one-record list, stock of "boots" is "Product Not found", price of "shoes" is ("Red Shoes", 20) |
| Lookups.GetProductDetails | main.py:16-24 | the loop with early return computes `DetailsOf` |
| Lookups.CheckStock | main.py:27-38 | the loop that appends to `available_products`, and the emptiness test after it, computes `StockOf` |
| Lookups.GetProductPrice | main.py:41-52 | the loop with early return and the `for`/`else` not-found branch computes `PriceOf` |
| Dispatch.Resolve | main.py:124-129 | a recognised name selects the lookup advertised under that name; any other name selects none |
| Dispatch.ResolveName | main.py:124-129 | a name selects lookup f exactly when it is f's advertised name |
| Dispatch.Apply | main.py:125-129 | defines which lookup each of the three branches calls: details, stock check, price |
| Dispatch.Execute | main.py:122-129 | each of the three names runs its own lookup on the query; any other name gives no answer |

## Left out

- The language-model client and both chat-completion calls (main.py:9, 113-117, 131-137): network I/O to an external service. For an unrecognised function name the source leaves `answer` unbound, so `json.dumps(answer)` at main.py:135 raises `UnboundLocalError`; `Dispatch.Execute` returning `None` stands for that failure, not for a harmless empty result.
- The page setup, text input and output writes of the web UI (main.py:103-105, 139, 141). The check that skips an empty query (main.py:107) belongs to this UI layer and is not modelled.
- Loading the environment and reading `shop_bot.json` (main.py:7, 12-13): file I/O. The catalog is a `seq<Product>` parameter instead.
- `json.loads` of the function arguments and `json.dumps` of the answer (main.py:121, 135): library serialisation. The query reaches the dispatch as a string. An argument object without `product_name` is not modelled. In the source the query is then `None`: on a non-empty catalog `.lower()` on it fails in the first loop iteration (main.py:19, 32 or 44); on an empty catalog no iteration runs, and the lookups return "Nothing found", "Product Not found" and "Price information not available for 'None'.".
- The `tools` registry (main.py:56-99): static metadata. Only the three names it advertises appear, as `Dispatch.Name`.
- Text.Lower: covers ASCII letters only, not the full Unicode case mapping of Python's `str.lower`.
- A record without `Name` is not modelled: in the model every `Product` has a name. In the source, `.lower()` on the missing name fails at main.py:19, 32 or 44, but only when the scan reaches that record. The details and price lookups return at an earlier match and never reach it; the stock check always scans every record.
- `Price` is modelled as an integer and the other record fields as a map from field name to text. Lookups pass them through untouched. A missing `Price` (`item.get` returning `None`) is not modelled.
- `StockAvailability` is modelled as its truth value, which is all `check_stock` tests.
- The details and stock lookups return the catalog's own record objects; the model returns record values, so aliasing is not modelled.
