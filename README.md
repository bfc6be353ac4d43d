# Order list query and orders table, in Dafny

This project models the two pieces of logic in the order-tracking dashboard.

- **The `list` procedure of the orders router** (`src/server/api/routers/order.ts`).
  It checks `page`, `limit`, `status` and `search`. It builds a where-object
  from the optional status and the optional, non-blank search. It reads one
  page of the matching orders with skip `(page-1)*limit` and take `limit`.
  It counts all matching orders and derives `totalPages` by ceiling division.
  The store is a `seq<Order>` in the store's own row order, with each order's
  customer and line items (and their products) already attached. The page
  read (`findMany`) and the count (`count`) both run against that sequence
  with the same where-object.
- **The orders table** (`src/app/_components/OrdersTable.tsx`). Three pure
  cell helpers: the status colour lookup with its grey fallback, the status
  shown with only its first letter capitalised, and the product names of the
  line items. The page / filter / search state is a class, `TableState`.
  Each event handler is a method: Previous, Next, a filter-menu choice, a
  change of the search box, the debounce delay running out, and a response
  arriving.

Modules:

| file | module | what it holds |
|---|---|---|
| `wrappers.dfy` | `Wrappers` | `Option` and `Result` |
| `orders.dfy` | `Orders` | the entities, the five fulfillment statuses and their names |
| `js_string.dfy` | `JsString` | `trim` (ECMAScript white space), ASCII case conversion, substring search |
| `order_router.dfy` | `OrderRouter` | input schema, where-object, filter, skip/take, count, page count, `List` |
| `orders_table.dfy` | `OrdersTable` | cell helpers, pagination buttons, `TableState` |

Behaviour of the code that the model makes explicit:

- The search is matched **untrimmed**. Trimming only decides whether the
  search takes part at all. So `" ann"` does not find `"Joanne"`, while
  `"ANN"` does (`SearchNotTrimmed`).
- Next is disabled only when `page` equals the last response's `totalPages`.
  When nothing matches, `totalPages` is 0. Next is then enabled on page 1,
  and every click moves one page further (`NextNeverStopsPastLastPage`).
  Every such page comes back empty (`NextOnEmptyResultListsNothing`). With at
  least one page, Previous and Next keep `1 <= page <= totalPages`
  (`ClicksKeepPageInRange`).
- The search effect also runs on mount. So a commit of the empty search is
  pending from the start, and when it fires it resets the page to 1.

## Model

| member | source | states |
|---|---|---|
| `Orders.ParseStatus` | src/server/api/routers/order.ts:12 | a string is accepted as a status exactly when it is one of the five names, and it is read as the status with that name |
| `Orders.ParseStatusName` | src/server/api/routers/order.ts:12 | every status is read back from its own name |
| `JsString.TrimStart` | src/server/api/routers/order.ts:26 | leading white space removed: the result is a suffix of the input, everything before it is white space, and it does not start with white space |
| `JsString.TrimEnd` | src/server/api/routers/order.ts:26 | trailing white space removed: the result is a prefix of the input, everything after it is white space, and it does not end with white space |
| `JsString.Trim` | src/server/api/routers/order.ts:26 | `trim()` returns the piece of the input that remains once white space is cut from both ends: everything before and after it is white space, and it has no white space at either end |
| `JsString.TrimEmptyIffBlank` | src/server/api/routers/order.ts:26 | `search.trim() !== ""` fails exactly for strings made only of white space |
| `JsString.ToLowerChar` | src/server/api/routers/order.ts:30 | lower-casing leaves no upper-case ASCII letter, moves `A`-`Z` to `a`-`z`, and keeps every other character |
| `JsString.ToUpperChar` | src/app/_components/OrdersTable.tsx:67 | upper-casing leaves no lower-case ASCII letter, moves `a`-`z` to `A`-`Z`, and keeps every other character |
| `JsString.ToLowerCase` | src/server/api/routers/order.ts:30 | `toLowerCase()` keeps the length and lower-cases each character in place |
| `JsString.Contains` | src/server/api/routers/order.ts:29 | the substring scan finds a pattern that starts the text (the empty one included) and never finds a pattern longer than the text |
| `JsString.ContainsIgnoringCase` | src/server/api/routers/order.ts:29-30 | `contains` with `mode: "insensitive"` holds iff the lower-cased pattern occurs at some index of the lower-cased text |
| `JsString.ToLowerCaseIdempotent` | src/server/api/routers/order.ts:30 | lower-casing a lower-cased string changes nothing |
| `JsString.ContainsIffOccurs` | src/server/api/routers/order.ts:29 | the substring scan succeeds exactly when the pattern occurs at some index of the text |
| `OrderRouter.ParseInput` | src/server/api/routers/order.ts:9-14 | the input is accepted iff `page >= 1`, `limit >= 1` and the status is absent or a status name; an accepted input keeps page, limit and search and carries the named status; a rejected one reports exactly the failing fields |
| `OrderRouter.SearchIsActive` | src/server/api/routers/order.ts:26 | the search takes part in the filter iff it is present and not made only of white space |
| `OrderRouter.BuildWhere` | src/server/api/routers/order.ts:19-33 | the where-object carries the status as given, and carries the search, untrimmed, exactly when the search is present and not blank |
| `OrderRouter.Matches` | src/server/api/routers/order.ts:35-36 | an order satisfies a where-object iff it has the status asked for (if any) and the lower-cased search occurs at some index of its lower-cased customer name (if a search is set) |
| `OrderRouter.FindWhere` | src/server/api/routers/order.ts:35-36 | the filtered store holds exactly the store's orders that satisfy the where-object, and no more orders than the store |
| `OrderRouter.Paginate` | src/server/api/routers/order.ts:37-38 | skip/take returns at most `take` orders; nothing when the skip is at or past the end; otherwise `min(take, length - skip)` orders, the i-th being element `skip + i` |
| `OrderRouter.Offset` | src/server/api/routers/order.ts:37 | the skip is 0 exactly on page 1, and the page's `limit` orders end at index `page*limit` |
| `OrderRouter.CeilDiv` | src/server/api/routers/order.ts:53 | the page count is 0 exactly when there are no orders, and never exceeds the number of orders |
| `OrderRouter.CeilDivBounds` | src/server/api/routers/order.ts:53 | `ceil(n / d)` is 0 iff `n == 0`, and otherwise `(pages-1)*d < n <= pages*d` |
| `OrderRouter.List` | src/server/api/routers/order.ts:15-56 | rejected input gives the schema's issues; accepted input gives at most `limit` orders, all from the store, and a total no larger than the store |
| `OrderRouter.MatchesBuildWhere` | src/server/api/routers/order.ts:19-33 | an order satisfies the where-object iff it has the given status (when one is given) and its customer name contains the untrimmed search ignoring case (when the search is not blank) |
| `OrderRouter.BlankSearchIgnored` | src/server/api/routers/order.ts:26 | an absent, empty or all-white-space search builds the same where-object as no search |
| `OrderRouter.SearchMatchesOccurrence` | src/server/api/routers/order.ts:26-32 | with a non-blank search, an order matches iff the lower-cased search occurs at some index of the lower-cased customer name |
| `OrderRouter.AnnInJoanne` | src/server/api/routers/order.ts:29 | "ann" occurs in "joanne" |
| `OrderRouter.SpacedAnnNotInJoanne` | src/server/api/routers/order.ts:29 | " ann" does not occur in "joanne" |
| `OrderRouter.SearchNotTrimmed` | src/server/api/routers/order.ts:26-32 | the surrounding spaces of a search take part in the match: "ANN" finds customer "Joanne", " ann" does not |
| `OrderRouter.FindWhereAppend` | src/server/api/routers/order.ts:35-36 | filtering keeps store order: it distributes over concatenation |
| `OrderRouter.FindWhereKeepsMatching` | src/server/api/routers/order.ts:35-36 | a store whose orders all match is returned whole |
| `OrderRouter.FilterIsIntersection` | src/server/api/routers/order.ts:19-36 | filtering by status and search together equals filtering by status and then by search (an intersection, never a union) |
| `OrderRouter.RejectedInputReadsNothing` | src/server/api/routers/order.ts:9-15 | rejected input gets the same answer whatever the store holds |
| `OrderRouter.ListedOrdersHaveStatus` | src/server/api/routers/order.ts:22-24 | with a status, every listed order has that status |
| `OrderRouter.ListUnfiltered` | src/server/api/routers/order.ts:19-38 | with no status and a blank search, the total is the store size and the page is the skip/take of the store itself |
| `OrderRouter.ListIsPageOfMatches` | src/server/api/routers/order.ts:35-53 | accepted input is answered with the skip `(page-1)*limit` / take `limit` page of the matching orders, the count of all matching orders, and the ceiling of that count over `limit` |
| `OrderRouter.TotalIgnoresPage` | src/server/api/routers/order.ts:49-53 | requests with the same status and search report the same total whatever their page and limit, and the same page count when their limits agree |
| `OrderRouter.TotalPagesIsCeiling` | src/server/api/routers/order.ts:53 | `totalPages` is 0 iff `totalOrders` is 0, and otherwise `(totalPages-1)*limit < totalOrders <= totalPages*limit` |
| `OrderRouter.OffsetPastEndIffPastLast` | src/server/api/routers/order.ts:37-53 | the skip of page `page` reaches the end of the matches iff `page > totalPages` |
| `OrderRouter.EmptyPageIffPastLast` | src/server/api/routers/order.ts:35-53 | a page comes back empty (without error) iff `page > totalPages` |
| `OrderRouter.EmptyStoreListsNothing` | src/server/api/routers/order.ts:35-55 | an empty store answers every accepted request with no orders, total 0 and 0 pages |
| `OrderRouter.TwelvePendingOrders` | src/server/api/routers/order.ts:35-53 | with 12 pending orders and limit 10, page 1 is the first 10 matching orders and page 2 the 2 from index 10 on, and both responses report 12 orders on 2 pages |
| `OrderRouter.PagesUpToIsPrefix` | src/server/api/routers/order.ts:37-38 | pages 1 to n read in turn are the first `n*limit` matching orders |
| `OrderRouter.PagesCoverAllMatches` | src/server/api/routers/order.ts:37-53 | pages 1 to `totalPages` read in turn yield every matching order once, in store order |
| `OrdersTable.StatusColorClass` | src/app/_components/OrdersTable.tsx:32-38 | every status's colour is a background class (`bg-…`) and none is the grey fallback |
| `OrdersTable.StatusColor` | src/app/_components/OrdersTable.tsx:71 | a status name gets its status's colour class from the map; any other string gets `bg-gray-400`, and only those do |
| `OrdersTable.StatusColorsDistinct` | src/app/_components/OrdersTable.tsx:32-38 | the five statuses have five different colours, none of them grey |
| `OrdersTable.DisplayStatus` | src/app/_components/OrdersTable.tsx:67 | the displayed status has the input's length and its letters ignoring case, starts with no lower-case letter, and has no upper-case letter after that |
| `OrdersTable.DisplayStatusIdempotent` | src/app/_components/OrdersTable.tsx:67 | displaying twice gives the same as displaying once |
| `OrdersTable.DisplayStatusIsFilterLabel` | src/app/_components/OrdersTable.tsx:66-72 | each stored status is shown exactly as the filter menu labels it ("PENDING" as "Pending", and so on) |
| `OrdersTable.ProductNames` | src/app/_components/OrdersTable.tsx:81-87 | the products cell lists exactly the line items' product names, in line-item order |
| `OrdersTable.RenderRow` | src/app/_components/OrdersTable.tsx:42-91 | every stored order's row shows the customer's name and address, its status under its menu label in its status's colour (never grey), and the product names of its line items in order |
| `OrdersTable.PreviousEnabled` | src/app/_components/OrdersTable.tsx:225 | Previous is disabled on page 1 and enabled on every later page |
| `OrdersTable.NextEnabled` | src/app/_components/OrdersTable.tsx:238 | Next is enabled before any response and before the last page, disabled on the last page, and enabled again past it |
| `OrdersTable.AfterPrevious` | src/app/_components/OrdersTable.tsx:224-226 | Previous moves one page back iff the page is not 1, and never leaves a page below 1 |
| `OrdersTable.AfterNext` | src/app/_components/OrdersTable.tsx:237-239 | Next moves one page on iff the page differs from `totalPages`; it keeps a page within `totalPages` there and a page past it past it |
| `OrdersTable.ClicksKeepPagePositive` | src/app/_components/OrdersTable.tsx:224-226 | from a page of at least 1, every series of clicks ends on a page of at least 1 |
| `OrdersTable.ClicksKeepPageInRange` | src/app/_components/OrdersTable.tsx:224-239 | with `1 <= page <= totalPages`, every series of clicks keeps the page within `1..totalPages` |
| `OrdersTable.NextNeverStopsPastLastPage` | src/app/_components/OrdersTable.tsx:237-239 | past the last page (page 1 of 0 pages included), k clicks on Next move exactly k pages on |
| `OrdersTable.NextOnEmptyResultListsNothing` | src/app/_components/OrdersTable.tsx:237-239 | when nothing matches, Next is enabled and the page it leads to lists nothing |
| `OrdersTable.TableState.constructor` | src/app/_components/OrdersTable.tsx:95-98 | the table starts on page 1 with empty searches, no filter, no response, and a commit of the empty search pending |
| `OrdersTable.TableState.Request` | src/app/_components/OrdersTable.tsx:118-123 | the request carries the current page, limit 10, the filter and the committed search; with `page >= 1` and a filter from the menu, the input schema accepts it |
| `OrdersTable.TableState.ClickPrevious` | src/app/_components/OrdersTable.tsx:224-226 | only the page changes, to `AfterPrevious` of the old page, and it stays at least 1 |
| `OrdersTable.TableState.ClickNext` | src/app/_components/OrdersTable.tsx:237-239 | only the page changes, to `AfterNext` of the old page and the last response's page count |
| `OrdersTable.TableState.SelectFilter` | src/app/_components/OrdersTable.tsx:164-166 | "all" clears the filter and any other value becomes it; the page goes back to 1; the filter is one the schema accepts iff the value was "all" or a status name |
| `OrdersTable.TableState.TypeSearch` | src/app/_components/OrdersTable.tsx:110-116 | the search box text becomes the value, a commit is scheduled when the value changed, and the page stays at least 1 |
| `OrdersTable.TableState.DebounceElapsed` | src/app/_components/OrdersTable.tsx:105-108 | a pending commit makes the search box text the committed search and resets the page to 1; the filter is untouched; with no commit pending nothing changes |
| `OrdersTable.TableState.ReceiveResponse` | src/app/_components/OrdersTable.tsx:238 | the page count Next compares with becomes the response's `totalPages`, and the page stays at least 1 |

## Left out

- Database execution, connections and their failures, and the `include` joins (`order.ts` lines 35-51). Each order arrives with its customer and its line items and their products already attached. A failing store would be propagated to the caller; the model has no store failures.
- The store's row order is unspecified, since no `orderBy` is given. The model takes the sequence order as the store order.
- Number range. `page` and `limit` are JavaScript doubles in the source: `(page - 1) * limit` is computed in floating point and handed to the store as an integer skip. The model's integers are unbounded, so values beyond the safe-integer range, or beyond the store's range for skip and take (where the source rounds or the store fails), are not modelled; there the model answers with an empty page.
- The schema's number checks. `z.number()` also accepts fractions and rejects `NaN` and non-numbers. The model's `page` and `limit` are integers, and other input types are not modelled.
- `JsString.ToLowerChar`: the `mode: "insensitive"` collation of the database and JavaScript's Unicode case mapping are not modelled. Case folding is ASCII only.
- `JsString.Contains`: LIKE wildcards (`%`, `_`) in a search are not modelled. The search is matched as a literal substring.
- `OrderRouter.CeilDiv`: `Math.ceil` over a floating-point quotient is modelled as integer ceiling division. That is what it computes for these counts.
- `OrdersTable.DisplayStatus`: strings are sequences of Unicode scalar values, not UTF-16 code units. `toUpperCase` mappings that change length (such as `ß`) are not modelled.
- `OrdersTable.StatusColor`: a lookup by an inherited property name such as `"toString"` would find a prototype member in JavaScript. This is not modelled, because statuses come from the store's enum.
- The debounce timing (2000 ms) and cancel-on-unmount are left out. Only their effect is modelled: one pending commit of the latest search box text.
- React rendering, the input focus effect (lines 125-131) and the column headers.
- `OrdersTable.TableState`: the loader. `OrdersTable.tsx` line 144 replaces the whole table, buttons, search box and filter menu included, with `<Loader />` whenever the query for the current page, limit, filter and committed search has no cached answer yet. That happens on every such change, not only the first. The model lets every event (Previous, Next, typing, a menu choice) happen at any time, including while a request is outstanding. `ClickNext` then compares with the page count of the last response received, and `totalPages == None` stands for the time before the first response, when the source shows no button. The model therefore admits event sequences the page cannot produce; the invariants proved about `TableState` hold for all of them.
- Client-side sorting by the table library. It only reorders the loaded page and asks for no data.
- `OrdersTable.TableState.ReceiveResponse`: the model keeps the page count of the last response until the next one arrives. It does not model which response belongs to which request.
- The seed script (`prisma/seed.ts`): random data written to the database. `src/app/page.tsx` and `src/components/ui/loader.tsx` are markup only. `src/types/order.ts` gives only the shape used by `Orders.Order`.
