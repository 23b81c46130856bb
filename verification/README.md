# Bookstore inventory and order fulfilment, modelled in Dafny

This project models the decision-making core of the book service: the
warehouse routes (`services/bookservice/src/routes/warehouse.ts`) and the
order routes (`services/bookservice/src/routes/orders.ts`). The service is
modelled as a sequential state machine over two collections:

- the **inventory**, a map from (book id, shelf id) to a count;
- the **orders**, a map from order id to the requested books
  (book id -> copies) and a status, `Pending` or `Fulfilled`.

Each route is a pure function from the state and the request to a `Reply`:
an outcome (`Success` or `Failure` with an error kind) and the state left
behind. The fulfilment route is written as the code runs it: a validation
pass over the pick lines against the unchanged stock, then a commit pass
that, line by line, decrements the entry (a no-op when the entry is gone)
and deletes every non-positive entry in the whole store, then the status
flip.

Files:

- `wrappers.dfy` — `Option` and `Result`.
- `inventory.dfy` — stock keys, the decrement and pruning updates, the
  "all counts positive" invariant.
- `order_store.dfy` — orders, the id tally of order creation, sums of
  requested copies.
- `book_service.dfy` — the shared state, error kinds and the service invariant.
- `warehouse.dfy` — add-stock and shelf lookup.
- `orders.dfy` — order creation, listing, and fulfilment.
- `lifecycle.dfy` — requests as a state machine, invariant preservation,
  the pending -> fulfilled lifecycle, and two concrete scenarios.

Abstractions:

- `ObjectId.isValid` is a function parameter `isValidId`; the id the store
  generates for a new order is a parameter `freshId`. An insert whose id is
  already taken fails with `DuplicateKey` (the insert throws and the route
  answers 500), so no freshness precondition is needed.
- `parseInt(count, 10)` is an `Option<int>` input, `None` standing for NaN.
- A missing or non-array `order` / `booksFulfilled` field is `None`.
- Counts and `numberOfBooks` are unbounded integers; `numberOfBooks` may be
  zero or negative, as the route never checks it.
- "At most one entry per (book, shelf)" holds by construction: the
  inventory is a map.

The model follows the code of `orders.ts`, including these behaviours:

- An empty `booksFulfilled` array is accepted: only `Array.isArray` is
  checked (`orders.ts:89`), so the order is fulfilled without touching the
  stock.
- The `booksFulfilled` check comes between the id-format check and the order
  lookup (`orders.ts:83-105`).
- Order creation rejects a missing, non-array or empty `order` list
  (`orders.ts:15`). In the model, the tally of a non-empty list is never
  empty; in the source it can be (see the `__proto__` line under
  "## Left out").
- The commit pass (`orders.ts:129-142`) decrements without re-reading or
  re-checking the count, and reports no error of its own.
- The pick lines are never compared with the order's `books`.
- The validation pass compares each line with the pre-commit count, so two
  lines on the same entry can together take more than it holds
  (`Orders.RepeatedLineOverdraws`).
- The order listing returns every order, fulfilled or not, without its
  status (`orders.ts:53-59`), although the client adapter describes it as
  listing pending orders (`adapter/index.ts:161`).

## Model

| member | source | states |
|---|---|---|
| Inventory.Decrement | services/bookservice/src/routes/orders.ts:133-136 | the decrement changes only the matching entry, by minus the line's copies, and never creates an entry |
| Inventory.Prune | services/bookservice/src/routes/orders.ts:139-141 | after pruning no non-positive entry remains anywhere, and every positive entry is kept with its count |
| Inventory.PruneFixesPositive | services/bookservice/src/routes/orders.ts:139-141 | pruning leaves a store unchanged exactly when all its counts are positive |
| OrderStore.Tally | services/bookservice/src/routes/orders.ts:21-25 | the tally's keys are exactly the ids in the list, each mapped to its number of occurrences |
| OrderStore.TallySumsToLength | services/bookservice/src/routes/orders.ts:21-25 | the tallied copies sum to the length of the id list |
| OrderStore.TallyWellFormed | services/bookservice/src/routes/orders.ts:15-31 | a non-empty id list yields a pending order with at least one book, each requested at least once |
| Warehouse.AddStock | services/bookservice/src/routes/warehouse.ts:12-41 | a missing or non-positive count is rejected with the state unchanged; otherwise an existing entry grows by exactly n, an absent one is created at n, every other entry and all orders are unchanged, and positivity of all counts is preserved |
| Warehouse.ShelfLocations | services/bookservice/src/routes/warehouse.ts:63-73 | the answer has exactly the shelves with an entry for the book, each with its count; a book with no entry gets an empty map |
| Warehouse.LookupAfterAddStock | services/bookservice/src/routes/warehouse.ts:26-41 | after adding n, the lookup shows the shelf at its previous count plus n, and lookups of other books do not change |
| Warehouse.AddAllSums | services/bookservice/src/routes/warehouse.ts:14-41 | repeated adds to one (book, shelf) leave it at its old count plus the sum of the accepted counts, leave other entries and orders alone |
| Warehouse.AddOrderIrrelevant | services/bookservice/src/routes/warehouse.ts:14-41 | any reordering of the same adds gives the same state; from no entry, the entry holds the sum of the accepted counts |
| Orders.CreateOrder | services/bookservice/src/routes/orders.ts:10-36 | a missing, non-array or empty list is rejected with the state unchanged; otherwise exactly one pending order is added whose books are the multiset count of the ids, the inventory and the other orders are unchanged |
| Orders.CreatedOrderTotals | services/bookservice/src/routes/orders.ts:21-33 | the created order requests as many copies in total as the list had ids, and the order count grows by one |
| Orders.ListOrders | services/bookservice/src/routes/orders.ts:53-59 | the listing has one entry per stored order, showing that order's books |
| Orders.ListingAfterCreate | services/bookservice/src/routes/orders.ts:22-33 | after a creation the listing is the old listing plus the new id mapped to the tally of its ids |
| Orders.ListingAfterFulfil | services/bookservice/src/routes/orders.ts:144-153 | fulfilment, successful or not, never changes the order listing |
| Orders.FirstShortfall | services/bookservice/src/routes/orders.ts:113-126 | validation passes exactly when every line's entry exists with at least the line's copies; otherwise it names the first line that fails, all earlier lines passing |
| Orders.Commit | services/bookservice/src/routes/orders.ts:128-142 | the commit pass never adds an entry, leaves no non-positive entry when there is at least one line, and changes nothing for an empty pick list |
| Orders.CommitFrame | services/bookservice/src/routes/orders.ts:128-142 | with pairwise-distinct line keys each named positive entry ends at old count minus the line's copies (removed when that is not positive) and each unnamed positive entry is unchanged |
| Orders.CommitLeavesUnnamed | services/bookservice/src/routes/orders.ts:128-142 | for any pick list, repeated keys included, every positive entry that no line names keeps its count |
| Orders.FulfilLeavesUnnamed | services/bookservice/src/routes/orders.ts:76-153 | any fulfilment request, whatever its outcome and with repeated keys allowed, leaves every positive entry no line names unchanged |
| Orders.FulfilOrder | services/bookservice/src/routes/orders.ts:76-156 | errors in the code's order (bad id, missing array, unknown order, already fulfilled, first short line) are reported as such, and any failure leaves the state unchanged; success happens exactly when all checks pass, and sets only the target order to fulfilled with its books kept |
| Orders.FulfilFrame | services/bookservice/src/routes/orders.ts:113-142 | on success with distinct line keys, every line was covered by the pre-commit count, named entries end at old count minus copies, unnamed positive entries are unchanged |
| Orders.FulfilFrameUnderInvariant | services/bookservice/src/routes/orders.ts:113-142 | on success with distinct line keys in a store whose counts are all positive, each named entry ends at old count minus the line's copies (removed when that is not positive) and every unnamed entry is unchanged |
| Orders.RepeatedLineOverdraws | services/bookservice/src/routes/orders.ts:113-142 | two lines on one entry, each within its count but together above it, are both accepted, the order is fulfilled, the entry is deleted and every other positive entry is unchanged |
| Lifecycle.AddStockPreservesValid | services/bookservice/src/routes/warehouse.ts:14-41 | add-stock keeps every count positive and every order unchanged |
| Lifecycle.CreateOrderPreservesValid | services/bookservice/src/routes/orders.ts:15-33 | order creation keeps the invariant and changes no existing order |
| Lifecycle.FulfilPreservesValid | services/bookservice/src/routes/orders.ts:107-153 | fulfilment keeps the invariant, deletes no order, keeps every order's books, and never returns a fulfilled order to pending |
| Lifecycle.NextPreservesValid | services/bookservice/src/routes/orders.ts:76-153 | every state-changing request keeps the invariant and the order lifecycle |
| Lifecycle.RunPreservesValid | services/bookservice/src/routes/orders.ts:144-153 | any sequence of requests keeps the invariant; status only moves pending to fulfilled |
| Lifecycle.SecondFulfilmentRejected | services/bookservice/src/routes/orders.ts:107-111 | after a successful fulfilment, fulfilling the same order again is rejected as already fulfilled and changes nothing |
| Lifecycle.EmptyPickListFulfils | services/bookservice/src/routes/orders.ts:89-93 | an empty pick list fulfils a pending order with the stock unchanged |
| Lifecycle.LookupAfterFulfil | services/bookservice/src/routes/orders.ts:138-141 | after a successful fulfilment with at least one line, every shelf the lookup reports has a positive count |
| Lifecycle.ScenarioPickTwoOfFive | services/bookservice/src/routes/orders.ts:10-153 | stock 5, order [A, A], pick 2: the order is {A: 2}, the shelf holds 3, the order is fulfilled, a second pick is rejected |
| Lifecycle.ScenarioShortShelf | services/bookservice/src/routes/orders.ts:113-126 | stock 1, pick 5: insufficient inventory for that book and shelf, the count stays 1, the order stays pending |

## Left out

- Orders.FulfilFrame and Orders.CommitFrame: the per-line result for named
  entries is stated only for entries whose count was positive before the
  call, and only for pairwise-distinct line keys. A non-positive entry
  (impossible while the service invariant holds) can be pruned by an
  earlier line before its own decrement; under the service invariant the
  positivity condition disappears (`Orders.FulfilFrameUnderInvariant`).
  For repeated keys the named entry's
  end state is stated only for two equal lines
  (`Orders.RepeatedLineOverdraws`); the frame on unnamed entries holds for
  every pick list (`Orders.CommitLeavesUnnamed`, `Orders.FulfilLeavesUnnamed`).

- HTTP routing, status codes, response bodies and the catch-all 500 paths
  (other than `DuplicateKey`): transport only.
- Storage failures and concurrency, including the window between the
  validation pass and the commit pass: the model is sequential.
- `parseInt` itself (partial strings such as `"3abc"` parse as 3): the
  parsed value is an input.
- Non-string `book` and `shelf` values in pick lines: they are modelled as
  strings. The route passes the raw JSON values into the filters at
  `orders.ts:117-119` and `orders.ts:133-135`, so an object such as
  `{"$ne": ""}` becomes a query operator. Validation then accepts, and the
  commit decrements, whichever entry the operator matches first.
- Non-integer and missing `numberOfBooks` values (JSON numbers such as 1.5,
  or `undefined`, which makes the decrement produce NaN): counts are integers.
- Floating-point rounding: JavaScript numbers are doubles, so `parseInt`
  results and `$inc` sums above 2^53 round; the model's counts are exact
  unbounded integers.
- The ObjectId format check and the mapping from id strings to ObjectIds
  (distinct strings naming the same ObjectId): order ids are compared as
  strings.
- Plain-object key quirks, in both places the routes build a JavaScript
  object: ids and shelves are plain strings in the model.
  - The tally (`orders.ts:22-25`): non-string ids are coerced to strings.
    An id naming an inherited method such as `"toString"` makes
    `bookCounts[bookId] || 0` a function, so the stored value is a string
    rather than a count.
  - The tally with the id `"__proto__"`: `+ 1` produces a string, which the
    `__proto__` setter ignores, so the id is silently dropped. The list
    `["__proto__"]` passes the check at `orders.ts:15` and the source stores
    a pending order with no books. The model tallies it as one copy, and
    its invariant (`OrderStore.WellFormed`, `BookService.Valid`) rules out
    an order with no books.
  - The shelf lookup (`warehouse.ts:68-71`): a shelf named `__proto__`,
    which add-stock accepts, is dropped from the answer, while
    `Warehouse.ShelfLocations` returns it.
- `createdAt` and `fulfilledAt` timestamps: they are never read.
- The catalog routes, the catalog filter and the client adapter: no
  decision logic in the modelled routes depends on them.
