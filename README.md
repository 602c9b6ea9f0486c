# Sale-product list view, modelled in Dafny

`SaleProduct` is the React component that lists the products on sale. It keeps its state in
`useState` hooks: the fetched `{ products, totalCount }`, the sort key, the search term, whether
the sort menu is open, the selected option label, the page, the page count and the page size.
It reacts to the viewport, to the search box, to the sort menu and to the pager. On every render
it derives the products to show. It keeps the fetched products whose lower-cased name contains
the lower-cased search term, sorts a copy of them newest first by `createdAt`, and cuts out the
window `[(page - 1) * size, page * size)`.

The model has four modules:

- `Text` (text.dfy): `toLowerCase` restricted to ASCII letters, and `includes` as substring
  search. Lower-casing is proved to identify exactly the strings equal up to ASCII case, and
  `includes` is proved equal to "the needle occurs at some position".
- `Paging` (paging.dfy): the responsive page-size policy (4, 6 or 10 products per page), the page
  count `Math.ceil(totalCount / pageSize)`, and `Array.prototype.slice` with its exact bound
  rules. A negative bound counts from the end, and both bounds are clamped to the list.
- `ProductList` (product_list.dfy): `Product`, `filter` as an order-preserving selection, the
  comparator sort as a stable insertion sort, and the visible page.
- `SaleProductView` (sale_product.dfy): class `SaleProduct`. Its fields are the state hooks. It
  has one method per handler and per effect, and a read-only function for the rendered products.

Each effect is a method that the caller runs when the effect's dependencies change. The fetch
is one method. It takes the endpoint's reply as an argument and returns the query it sends.

The fetched list is itself one page of the server's results, because the query carries the page
and the page size. The component then cuts the page window out of that list a second time.
`ProductList.ServerPageShownOnlyOnFirstPage` proves what follows from this. When the endpoint
returns at most one page of products, page 1 shows all of the matches, and every page from 2 on
shows nothing. Searching likewise only looks at the fetched page.

Points where the component's behaviour is easy to misread:

- The page count is not floored at 1. For a total of 0 it is `ceil(0 / size) = 0`.
  The initial hook value is 1, which disagrees with the empty catalog until the page-count
  effect runs (see the constructor's `!PagesInSync()`).
- Choosing a sort option other than "최신순" is not rejected. The label still becomes the
  selected option and the menu still closes. Only the sort key stays as it was.
- A reply whose `products` is an empty list is applied: an empty array is truthy.
- `sortSaleProduct` takes the sort key as an argument but ignores it. It always sorts newest
  first.

## Model

| member | source | states |
|---|---|---|
| `Text.ToLower` | src/components/SaleProduct.js:73 | lower-casing keeps the length, turns every ASCII capital letter into its small letter, leaves no capital letter and keeps every other character |
| `Text.ToLowerEqualIffEqualIgnoringCase` | src/components/SaleProduct.js:73 | two strings lower-case to the same string exactly when they are equal up to ASCII case, position by position |
| `Text.ToLowerIdempotent` | src/components/SaleProduct.js:73 | lower-casing an already lower-cased string changes nothing |
| `Text.Includes` | src/components/SaleProduct.js:73 | `includes` never finds a needle longer than the haystack, and always finds the empty needle and the haystack itself |
| `Text.IncludesIffOccurs` | src/components/SaleProduct.js:73 | `includes` holds exactly when the needle occurs at some position of the haystack |
| `ProductList.Matches` | src/components/SaleProduct.js:72-74 | a term longer than the name never matches; the empty term and the name itself always match |
| `ProductList.MatchesIffOccurs` | src/components/SaleProduct.js:72-74 | a product passes the search exactly when its lower-cased name has the lower-cased term at some position |
| `ProductList.MatchesIgnoresTermCase` | src/components/SaleProduct.js:73 | lower-casing the term before the search changes nothing |
| `ProductList.MatchesIgnoresCase` | src/components/SaleProduct.js:72-74 | names equal up to ASCII case, searched with terms equal up to ASCII case, match alike |
| `ProductList.TermCaseExample` | src/components/SaleProduct.js:73 | "SHOE" and "shoe" find the same products |
| `ProductList.Filter` | src/components/SaleProduct.js:72-74 | the filtered list is no longer than the input and holds exactly the input's elements that pass the test |
| `ProductList.FilterIsOrderedSelection` | src/components/SaleProduct.js:72-74 | the filtered list is an order-preserving subsequence: its k-th element sits at the k-th kept position, the positions increase, and a position is kept exactly when its element passes |
| `ProductList.MatchingProducts` | src/components/SaleProduct.js:72-74 | the matching products are no more than the fetched ones, and a product is among them exactly when it was fetched and passes the search |
| `ProductList.EmptyTermKeepsAll` | src/components/SaleProduct.js:72-74 | an empty search term keeps every fetched product, in order |
| `ProductList.Insert` | src/components/SaleProduct.js:31-33 | one insertion step adds exactly the inserted product to the list's multiset |
| `ProductList.InsertKeepsNewestFirst` | src/components/SaleProduct.js:31-33 | inserting into a newest-first list keeps it newest first |
| `ProductList.SortNewestFirst` | src/components/SaleProduct.js:30-34 | the sorted copy is a permutation of the list with `createdAt` never increasing |
| `ProductList.InsertIsStable` | src/components/SaleProduct.js:31-33 | an inserted product goes in front of every product with the same creation time |
| `ProductList.SortIsStable` | src/components/SaleProduct.js:30-34 | products created at the same time keep their relative order through the sort |
| `ProductList.VisibleProducts` | src/components/SaleProduct.js:72-80 | the shown products are one contiguous run of the matches sorted newest first |
| `ProductList.VisibleProductsSpec` | src/components/SaleProduct.js:72-80 | for every page number, the shown products are at most a page, newest first, each a fetched product that passes the search, none more often than it matched |
| `ProductList.VisibleProductsWindow` | src/components/SaleProduct.js:76-80 | from page 1 on, the shown products are the sorted matches from `(page-1)*size` to `page*size`, both cut at the end, and none once the start is past the matches |
| `ProductList.ServerPageShownOnlyOnFirstPage` | src/components/SaleProduct.js:72-80 | when the fetched list holds at most a page (the size sent as `pageSize` at line 41), page 1 shows all matches newest first and every page from 2 on shows nothing |
| `Paging.NextPageSize` | src/components/SaleProduct.js:24-28 | mobile gives 4, else tablet gives 6, else desktop gives 10; with no flag set the size stays |
| `Paging.PageSizeAfter` | src/components/SaleProduct.js:21-28 | after any sequence of viewports the page size is 4, 6 or 10 |
| `Paging.PageSizeAfterHistory` | src/components/SaleProduct.js:21-28 | starting from 10, the page size is always 4, 6 or 10: the size of the last viewport with a flag set (mobile before tablet before desktop), or 10 if no flag was ever set |
| `Paging.CeilDiv` | src/components/SaleProduct.js:47 | `Math.ceil(n / d)` is the least page count `q` with `(q - 1) * d < n <= q * d` |
| `Paging.TotalPagesOfCount` | src/components/SaleProduct.js:63-65 | for a count of at least 0 the page count is `(n + d - 1) / d`; it is 0 exactly when the count is 0 and at least 1 exactly when the count is positive |
| `Paging.SliceBound` | src/components/SaleProduct.js:77-80 | a `slice` bound resolves into `[0, len]`; an in-range bound is kept, a bound past the end becomes the length, and a negative bound counts back from the end, floored at 0 |
| `Paging.Slice` | src/components/SaleProduct.js:77-80 | `slice` returns a contiguous run of the list, no longer than the list nor than `end - start` |
| `Paging.SliceFromEnd` | src/components/SaleProduct.js:77-80 | for two negative bounds `slice` is the sub-list between the bounds counted back from the end, each floored at 0 |
| `Paging.SliceToZero` | src/components/SaleProduct.js:77-80 | an end bound of 0 gives nothing, whatever the start |
| `Paging.PageStart` | src/components/SaleProduct.js:78 | from page 1 on, a page's first index is not negative; for page 0 and below it is at least a page before 0 |
| `Paging.PageEnd` | src/components/SaleProduct.js:79 | a page's end lies `size` past its start |
| `Paging.PageWindow` | src/components/SaleProduct.js:77-80 | a page's window is a contiguous run of the list and holds at most `size` items |
| `Paging.PageWindowSpec` | src/components/SaleProduct.js:77-80 | for any page number a window holds at most `size` items; from page 1 on it is the list between the two bounds cut at the end, and it is empty once the start is past the end; page 0 is empty; a page below 0 is the run between its two bounds counted back from the end |
| `Paging.PagesBelowOneExample` | src/components/SaleProduct.js:77-80 | with 25 items and 10 per page, page 0 shows nothing and page -1 shows items 5 up to 15 |
| `Paging.SliceOfRange` | src/components/SaleProduct.js:77-80 | for non-negative bounds `slice` is the plain sub-list between the bounds cut at the end |
| `SaleProductView.SaleProduct.constructor` | src/components/SaleProduct.js:11-21 | the initial state: empty catalog, sort key "createdAt", empty search, menu closed, option "최신순", page 1, page count 1, page size 10; the page count disagrees with the empty catalog |
| `SaleProductView.SaleProduct.ApplyViewport` | src/components/SaleProduct.js:24-28 | the page size becomes 4 if mobile, else 6 if tablet, else 10 if desktop, else stays; it stays a valid size, nothing else changes, and the page is not reset; the new size is the policy's next size after the old one, so `Paging.PageSizeAfterHistory` describes any sequence of calls |
| `SaleProductView.SaleProduct.RecomputeTotalPages` | src/components/SaleProduct.js:63-65 | the page count becomes the least number of pages of the current size holding the total count, and only it changes |
| `SaleProductView.SaleProduct.CurrentQuery` | src/components/SaleProduct.js:37-42 | the query carries the sort key, the search term, the page and the current page size, which is 4, 6 or 10 |
| `SaleProductView.SaleProduct.FetchSaleProduct` | src/components/SaleProduct.js:36-50 | a missing reply or one without `products` changes nothing; otherwise the catalog is replaced wholesale and the page count agrees with the new total; a page count that agreed before still agrees |
| `SaleProductView.SaleProduct.HandleSearch` | src/components/SaleProduct.js:52 | the search term becomes the typed text and nothing else changes |
| `SaleProductView.SaleProduct.ToggleOption` | src/components/SaleProduct.js:54 | the menu flag is negated and nothing else changes |
| `SaleProductView.SaleProduct.HandleOptionClick` | src/components/SaleProduct.js:55-61 | the option becomes the selected label and the menu closes; the sort key becomes "createdAt" only for "최신순" and is kept otherwise |
| `SaleProductView.SaleProduct.HandlePageChange` | src/components/SaleProduct.js:82-84 | the page becomes the requested number without clamping, and nothing else changes |
| `SaleProductView.SaleProduct.PaginatedProducts` | src/components/SaleProduct.js:72-80 | the rendered products are at most a page, newest first, each a held product matching the search; computing them changes no state, so the held list is not reordered |

## Left out

- The network call, `async`/`await` and the effect at lines 67-70 that starts a fetch when the sort key, search term or page changes. The reply is an argument of `FetchSaleProduct`, and the caller decides when to fetch.
- The race between overlapping fetches: each fetch is applied atomically, so a late reply to an older query cannot be modelled.
- `SaleProductView.SaleProduct.FetchSaleProduct`: the page count uses the page size current at the call. In the component, the fetch closure captures the page size of the render that started it, and that size can be stale when the reply arrives.
- React's scheduling: state updates queued within one render and the order of effects on mount. Each effect is a method that the caller runs.
- `useMediaQuery`: its three flags are the `Viewport` argument.
- `createdAt` is an integer timestamp; parsing dates with `new Date(...)`, and the `NaN` an unparsable date gives the comparator, are not modelled.
- `Text.ToLower` folds ASCII letters only; full Unicode lower-casing is not modelled.
- `Paging.CeilDiv`: integer arithmetic stands in for floating-point division followed by `Math.ceil`. A missing or non-numeric `totalCount` (giving `NaN`) and rounding of very large counts are not modelled.
- Products carry only `name` and `createdAt`; the other fields only matter to rendering.
- JSX rendering, styles, `ProductContent`, `Pagination` and navigation to the registration page (lines 86-138 and the imports) hold no list logic.
