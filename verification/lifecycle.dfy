/** The service as a sequential state machine over its two collections:
    the requests the modelled routes accept, the invariant they preserve,
    and the order lifecycle pending -> fulfilled. */
module Lifecycle {

  import opened Wrappers
  import opened Inventory
  import opened OrderStore
  import opened BookService
  import Warehouse
  import Orders

  /** One state-changing request. The read-only routes (shelf lookup, order
      listing) do not appear: they are functions of the state. */
  datatype Request =
    | PutStock(book: BookId, shelf: ShelfId, count: Option<int>)
    | PostOrder(order: Option<seq<BookId>>, freshId: OrderId)
    | PutFulfilment(orderId: OrderId, booksFulfilled: Option<seq<Orders.Line>>)

  /** The state a request leaves behind, whatever it answers. */
  function Next(st: State, isValidId: OrderId -> bool, req: Request): State
  {
    match req
    case PutStock(b, s, c) => Warehouse.AddStock(st, b, s, c).after
    case PostOrder(o, id) => Orders.CreateOrder(st, o, id).after
    case PutFulfilment(id, ls) => Orders.FulfilOrder(st, isValidId, id, ls).after
  }

  /** A sequence of requests handled one after another. */
  function Run(st: State, isValidId: OrderId -> bool, reqs: seq<Request>): State
    decreases |reqs|
  {
    if |reqs| == 0 then st else Run(Next(st, isValidId, reqs[0]), isValidId, reqs[1..])
  }

  /** Orders are never deleted, never lose their books, and a fulfilled
      order never goes back to pending. */
  predicate Extends(st: State, st': State)
  {
    && st.orders.Keys <= st'.orders.Keys
    && (forall id :: id in st.orders ==> st'.orders[id].books == st.orders[id].books)
    && (forall id :: id in st.orders && st.orders[id].status == Fulfilled ==>
          st'.orders[id].status == Fulfilled)
  }

  /** Adding stock keeps the invariant and touches no order. */
  lemma AddStockPreservesValid(st: State, b: BookId, s: ShelfId, c: Option<int>)
    requires Valid(st)
    ensures Valid(Warehouse.AddStock(st, b, s, c).after)
    ensures Extends(st, Warehouse.AddStock(st, b, s, c).after)
  {
  }

  /** Creating an order keeps the invariant: the new order is well formed
      and the others are untouched. */
  lemma CreateOrderPreservesValid(st: State, o: Option<seq<BookId>>, id: OrderId)
    requires Valid(st)
    ensures Valid(Orders.CreateOrder(st, o, id).after)
    ensures Extends(st, Orders.CreateOrder(st, o, id).after)
  {
    if o.Some? && |o.value| > 0 && id !in st.orders {
      TallyWellFormed(o.value);
    }
  }

  /** Fulfilling keeps the invariant: the stock is pruned (or untouched for
      an empty pick list) and only a status changes. */
  lemma FulfilPreservesValid(st: State, isValidId: OrderId -> bool, id: OrderId,
                             ls: Option<seq<Orders.Line>>)
    requires Valid(st)
    ensures Valid(Orders.FulfilOrder(st, isValidId, id, ls).after)
    ensures Extends(st, Orders.FulfilOrder(st, isValidId, id, ls).after)
  {
  }

  /** Every request preserves the service invariant: no non-positive stock
      entry, and every order asks for at least one copy of each of its books. */
  lemma NextPreservesValid(st: State, isValidId: OrderId -> bool, req: Request)
    requires Valid(st)
    ensures Valid(Next(st, isValidId, req))
    ensures Extends(st, Next(st, isValidId, req))
  {
    match req
    case PutStock(b, s, c) => AddStockPreservesValid(st, b, s, c);
    case PostOrder(o, id) => CreateOrderPreservesValid(st, o, id);
    case PutFulfilment(id, ls) => FulfilPreservesValid(st, isValidId, id, ls);
  }

  /** The invariant and the lifecycle hold across any run of requests. */
  lemma {:induction false} RunPreservesValid(st: State, isValidId: OrderId -> bool, reqs: seq<Request>)
    requires Valid(st)
    ensures Valid(Run(st, isValidId, reqs))
    ensures Extends(st, Run(st, isValidId, reqs))
    decreases |reqs|
  {
    if |reqs| > 0 {
      var st1 := Next(st, isValidId, reqs[0]);
      NextPreservesValid(st, isValidId, reqs[0]);
      RunPreservesValid(st1, isValidId, reqs[1..]);
    }
  }

  /** A second fulfilment of an order that the first one fulfilled is
      rejected as already fulfilled and leaves both collections alone. */
  lemma SecondFulfilmentRejected(st: State, isValidId: OrderId -> bool, orderId: OrderId,
                                 first: seq<Orders.Line>, second: seq<Orders.Line>)
    requires Orders.FulfilOrder(st, isValidId, orderId, Some(first)).outcome.Success?
    ensures var st1 := Orders.FulfilOrder(st, isValidId, orderId, Some(first)).after;
      Orders.FulfilOrder(st1, isValidId, orderId, Some(second)) == Reply(Failure(AlreadyFulfilled), st1)
  {
  }

  /** An empty pick list fulfils a pending order without touching the stock. */
  lemma EmptyPickListFulfils(st: State, isValidId: OrderId -> bool, orderId: OrderId)
    requires isValidId(orderId)
    requires orderId in st.orders && st.orders[orderId].status == Pending
    ensures var r := Orders.FulfilOrder(st, isValidId, orderId, Some([]));
      && r.outcome.Success?
      && r.after.inventory == st.inventory
      && r.after.orders[orderId].status == Fulfilled
  {
  }

  /** After a successful fulfilment with at least one line, the shelf
      lookup of any book shows only positive counts: an entry driven to zero
      or below is gone. */
  lemma LookupAfterFulfil(st: State, isValidId: OrderId -> bool, orderId: OrderId,
                          lines: seq<Orders.Line>, book: BookId)
    requires |lines| > 0
    requires Orders.FulfilOrder(st, isValidId, orderId, Some(lines)).outcome.Success?
    ensures var found := Warehouse.ShelfLocations(Orders.FulfilOrder(st, isValidId, orderId, Some(lines)).after.inventory, book);
      forall s :: s in found ==> found[s] > 0
  {
  }

  /** Five copies of book A on shelf 1; an order for [A, A]; picking two from
      shelf 1 succeeds and leaves three, and a second attempt is rejected. */
  lemma ScenarioPickTwoOfFive(isValidId: OrderId -> bool, orderId: OrderId)
    requires isValidId(orderId)
    ensures var st0 := State(map[StockKey("A", "1") := 5], map[]);
      var created := Orders.CreateOrder(st0, Some(["A", "A"]), orderId);
      var picked := Orders.FulfilOrder(created.after, isValidId, orderId, Some([Orders.Line("A", "1", 2)]));
      var again := Orders.FulfilOrder(picked.after, isValidId, orderId, Some([Orders.Line("A", "1", 2)]));
      && created.outcome == Success(orderId)
      && created.after.orders[orderId].books == map["A" := 2]
      && picked.outcome.Success?
      && picked.after.inventory == map[StockKey("A", "1") := 3]
      && picked.after.orders[orderId].status == Fulfilled
      && again == Reply(Failure(AlreadyFulfilled), picked.after)
  {
    var st0 := State(map[StockKey("A", "1") := 5], map[]);
    var created := Orders.CreateOrder(st0, Some(["A", "A"]), orderId);
    var books := created.after.orders[orderId].books;
    assert multiset(["A", "A"])["A"] == 2;
    assert books == map["A" := 2];
    var lines := [Orders.Line("A", "1", 2)];
    var inv := Orders.Commit(st0.inventory, lines);
    assert inv == Orders.Commit(Prune(Decrement(st0.inventory, StockKey("A", "1"), 2)), lines[1..]);
    assert Prune(map[StockKey("A", "1") := 3]) == map[StockKey("A", "1") := 3];
  }

  /** One copy of book B on shelf 1; asking for five is refused as
      insufficient inventory, the count stays one and the order pending. */
  lemma ScenarioShortShelf(st: State, isValidId: OrderId -> bool, orderId: OrderId)
    requires isValidId(orderId)
    requires orderId in st.orders && st.orders[orderId].status == Pending
    requires StockKey("B", "1") in st.inventory && st.inventory[StockKey("B", "1")] == 1
    ensures var r := Orders.FulfilOrder(st, isValidId, orderId, Some([Orders.Line("B", "1", 5)]));
      && r.outcome == Failure(InsufficientInventory("B", "1"))
      && r.after.inventory[StockKey("B", "1")] == 1
      && r.after.orders[orderId].status == Pending
  {
    assert !Orders.Covered(st.inventory, [Orders.Line("B", "1", 5)][0]);
  }
}
