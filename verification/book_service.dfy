/** The shared state of the book service and the error kinds its inventory
    and order routes report. */
module BookService {

  import opened Wrappers
  import opened Inventory
  import opened OrderStore

  /** Every 400/404/500 answer the modelled routes give. */
  datatype Error =
    | InvalidCount                                   // add-stock: count not a positive number (400)
    | InvalidOrder                                   // create: not a non-empty array (400)
    | DuplicateKey                                   // create: the generated id is taken, insert throws (500)
    | InvalidOrderId                                 // fulfil: id fails the ObjectId format check (400)
    | InvalidFulfillmentData                         // fulfil: booksFulfilled missing or not an array (400)
    | OrderNotFound                                  // fulfil: no such order (404)
    | AlreadyFulfilled                               // fulfil: order status is fulfilled (400)
    | InsufficientInventory(book: BookId, shelf: ShelfId) // fulfil: first short line (400)

  /** The two collections the routes read and write. */
  datatype State = State(inventory: Stock, orders: map<OrderId, Order>)

  /** What a route answers and the state it leaves behind. */
  datatype Reply<T> = Reply(outcome: Result<T, Error>, after: State)

  /** The invariant every route preserves (see the Lifecycle module). */
  predicate Valid(st: State)
  {
    && AllPositive(st.inventory)
    && forall id :: id in st.orders ==> WellFormed(st.orders[id])
  }
}
