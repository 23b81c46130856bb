/** The order routes: create an order from a list of book ids, list the
    orders, and fulfil an order from a list of (book, shelf, copies) picks. */
module Orders {

  import opened Wrappers
  import opened Inventory
  import opened OrderStore
  import opened BookService

  // ---------------------------------------------------------------------------
  // POST /order

  /** POST /order. `order` is the request's `order` field, `None` when it is
      missing or not an array; `freshId` is the id the store assigns to the
      inserted document. */
  function CreateOrder(st: State, order: Option<seq<BookId>>, freshId: OrderId): (r: Reply<OrderId>)
    ensures (order.None? || |order.value| == 0) ==> r == Reply(Failure(InvalidOrder), st)
    ensures order.Some? && |order.value| > 0 && freshId in st.orders ==>
      r == Reply(Failure(DuplicateKey), st)
    ensures order.Some? && |order.value| > 0 && freshId !in st.orders ==>
      && r.outcome == Success(freshId)
      && r.after.inventory == st.inventory
      && r.after.orders.Keys == st.orders.Keys + {freshId}
      && r.after.orders[freshId].status == Pending
      && (forall b :: b in r.after.orders[freshId].books <==> b in order.value)
      && (forall b :: b in r.after.orders[freshId].books ==>
            r.after.orders[freshId].books[b] == multiset(order.value)[b])
      && (forall id :: id in st.orders ==> r.after.orders[id] == st.orders[id])
  {
    if order.None? || |order.value| == 0 then
      Reply(Failure(InvalidOrder), st)
    else if freshId in st.orders then
      Reply(Failure(DuplicateKey), st)
    else
      var o := Order(Tally(order.value), Pending);
      Reply(Success(freshId), st.(orders := st.orders[freshId := o]))
  }

  /** A created order asks for exactly as many copies as the list had ids,
      and exactly one order is added. */
  lemma CreatedOrderTotals(st: State, ids: seq<BookId>, freshId: OrderId)
    requires |ids| > 0 && freshId !in st.orders
    ensures var after := CreateOrder(st, Some(ids), freshId).after;
      && SumValues(after.orders[freshId].books) == |ids|
      && |after.orders| == |st.orders| + 1
  {
    TallySumsToLength(ids);
  }

  /** GET /order: each order's id with its requested books; status is not shown. */
  function ListOrders(st: State): (r: map<OrderId, map<BookId, nat>>)
    ensures r.Keys == st.orders.Keys
    ensures forall id :: id in r ==> r[id] == st.orders[id].books
  {
    map id | id in st.orders :: st.orders[id].books
  }

  /** After a successful creation the listing gains the new order, with the
      multiset count of its ids, and is otherwise what it was. */
  lemma ListingAfterCreate(st: State, ids: seq<BookId>, freshId: OrderId)
    requires |ids| > 0 && freshId !in st.orders
    ensures ListOrders(CreateOrder(st, Some(ids), freshId).after)
         == ListOrders(st)[freshId := Tally(ids)]
  {
    var a := ListOrders(CreateOrder(st, Some(ids), freshId).after);
    var b := ListOrders(st)[freshId := Tally(ids)];
    assert forall id :: id in a <==> id in b;
  }

  // ---------------------------------------------------------------------------
  // PUT /order/:orderId

  /** One element of `booksFulfilled`: take `numberOfBooks` copies of `book`
      from `shelf`. The route never checks that `numberOfBooks` is positive. */
  datatype Line = Line(book: BookId, shelf: ShelfId, numberOfBooks: int)
  {
    function Key(): StockKey { StockKey(book, shelf) }
  }

  /** The validation test of one line: an entry exists and holds at least
      the requested number of copies. */
  predicate Covered(inv: Stock, l: Line)
  {
    l.Key() in inv && inv[l.Key()] >= l.numberOfBooks
  }

  /** No two lines name the same (book, shelf). */
  predicate DistinctKeys(lines: seq<Line>)
  {
    forall i, j :: 0 <= i < j < |lines| ==> lines[i].Key() != lines[j].Key()
  }

  /** Some line names `k`. */
  predicate Named(lines: seq<Line>, k: StockKey)
  {
    exists i :: 0 <= i < |lines| && lines[i].Key() == k
  }

  /** The validation pass: the index of the first line whose entry is absent
      or short, checked against the store before any change. */
  function FirstShortfall(inv: Stock, lines: seq<Line>): (r: Option<nat>)
    ensures r.None? <==> forall i :: 0 <= i < |lines| ==> Covered(inv, lines[i])
    ensures r.Some? ==>
      && r.value < |lines|
      && !Covered(inv, lines[r.value])
      && forall j :: 0 <= j < r.value ==> Covered(inv, lines[j])
  {
    if |lines| == 0 then None
    else if !Covered(inv, lines[0]) then Some(0)
    else match FirstShortfall(inv, lines[1..])
      case None => None
      case Some(i) => Some(i + 1)
  }

  /** The commit pass: for each line in order, decrement its entry (if it is
      still there) and then delete every non-positive entry in the store. */
  function Commit(inv: Stock, lines: seq<Line>): (r: Stock)
    ensures r.Keys <= inv.Keys
    ensures |lines| > 0 ==> AllPositive(r)
    ensures |lines| == 0 ==> r == inv
  {
    if |lines| == 0 then inv
    else Commit(Prune(Decrement(inv, lines[0].Key(), lines[0].numberOfBooks)), lines[1..])
  }

  /** Whatever the pick list, repeated keys included, an entry that was
      positive and that no line names keeps its count. */
  lemma {:induction false} CommitLeavesUnnamed(inv: Stock, lines: seq<Line>)
    ensures forall k :: k in inv && inv[k] > 0 && !Named(lines, k) ==>
      k in Commit(inv, lines) && Commit(inv, lines)[k] == inv[k]
  {
    if |lines| > 0 {
      var l := lines[0];
      var inv1 := Prune(Decrement(inv, l.Key(), l.numberOfBooks));
      var rest := lines[1..];
      assert Commit(inv, lines) == Commit(inv1, rest);
      CommitLeavesUnnamed(inv1, rest);
      forall k | k in inv && inv[k] > 0 && !Named(lines, k)
        ensures k in Commit(inv, lines) && Commit(inv, lines)[k] == inv[k]
      {
        assert k != l.Key();
        assert !Named(rest, k) by {
          forall j | 0 <= j < |rest| ensures rest[j].Key() != k {
            assert rest[j] == lines[j + 1];
          }
        }
      }
    }
  }

  /** With pairwise-distinct keys, a named entry that was positive ends at its
      old count minus the line's copies (deleted when that is not positive),
      and an unnamed positive entry is untouched. */
  lemma {:induction false} CommitFrame(inv: Stock, lines: seq<Line>)
    requires DistinctKeys(lines)
    ensures forall i :: 0 <= i < |lines| && lines[i].Key() in inv && inv[lines[i].Key()] > 0 ==>
      HoldsCount(Commit(inv, lines), lines[i].Key(), inv[lines[i].Key()] - lines[i].numberOfBooks)
    ensures forall k :: k in inv && inv[k] > 0 && !Named(lines, k) ==>
      k in Commit(inv, lines) && Commit(inv, lines)[k] == inv[k]
  {
    if |lines| > 0 {
      var l := lines[0];
      var inv1 := Prune(Decrement(inv, l.Key(), l.numberOfBooks));
      var rest := lines[1..];
      var r := Commit(inv, lines);
      assert r == Commit(inv1, rest);
      assert DistinctKeys(rest) by {
        forall i, j | 0 <= i < j < |rest| ensures rest[i].Key() != rest[j].Key() {
          assert rest[i] == lines[i + 1] && rest[j] == lines[j + 1];
        }
      }
      assert !Named(rest, l.Key()) by {
        forall j | 0 <= j < |rest| ensures rest[j].Key() != l.Key() {
          assert rest[j] == lines[j + 1];
        }
      }
      CommitFrame(inv1, rest);
      CommitLeavesUnnamed(inv, lines);
      forall i | 0 <= i < |lines| && lines[i].Key() in inv && inv[lines[i].Key()] > 0
        ensures HoldsCount(r, lines[i].Key(), inv[lines[i].Key()] - lines[i].numberOfBooks)
      {
        if i == 0 {
          var c := inv[l.Key()] - l.numberOfBooks;
          if c <= 0 {
            assert l.Key() !in inv1;
          }
        } else {
          assert rest[i - 1] == lines[i];
          assert lines[i].Key() != l.Key();
        }
      }
    }
  }

  /** PUT /order/:orderId. `isValidId` is the ObjectId format check;
      `booksFulfilled` is `None` when the field is missing or not an array. */
  function FulfilOrder(st: State, isValidId: OrderId -> bool, orderId: OrderId,
                       booksFulfilled: Option<seq<Line>>): (r: Reply<()>)
    ensures !isValidId(orderId) ==> r == Reply(Failure(InvalidOrderId), st)
    ensures isValidId(orderId) && booksFulfilled.None? ==>
      r == Reply(Failure(InvalidFulfillmentData), st)
    ensures isValidId(orderId) && booksFulfilled.Some? && orderId !in st.orders ==>
      r == Reply(Failure(OrderNotFound), st)
    ensures isValidId(orderId) && booksFulfilled.Some? && orderId in st.orders
            && st.orders[orderId].status == Fulfilled ==>
      r == Reply(Failure(AlreadyFulfilled), st)
    ensures isValidId(orderId) && booksFulfilled.Some? && orderId in st.orders
            && st.orders[orderId].status == Pending ==>
      forall i :: 0 <= i < |booksFulfilled.value| && !Covered(st.inventory, booksFulfilled.value[i])
                  && (forall j :: 0 <= j < i ==> Covered(st.inventory, booksFulfilled.value[j])) ==>
        r == Reply(Failure(InsufficientInventory(booksFulfilled.value[i].book,
                                                 booksFulfilled.value[i].shelf)), st)
    ensures r.outcome.Success? <==>
      && isValidId(orderId) && booksFulfilled.Some?
      && orderId in st.orders && st.orders[orderId].status == Pending
      && forall i :: 0 <= i < |booksFulfilled.value| ==> Covered(st.inventory, booksFulfilled.value[i])
    ensures r.outcome.Failure? ==> r.after == st
    ensures r.outcome.Success? ==>
      && r.after.orders.Keys == st.orders.Keys
      && r.after.orders[orderId] == Order(st.orders[orderId].books, Fulfilled)
      && (forall id :: id in st.orders && id != orderId ==> r.after.orders[id] == st.orders[id])
      && r.after.inventory.Keys <= st.inventory.Keys
      && (|booksFulfilled.value| > 0 ==> AllPositive(r.after.inventory))
      && (|booksFulfilled.value| == 0 ==> r.after.inventory == st.inventory)
  {
    if !isValidId(orderId) then
      Reply(Failure(InvalidOrderId), st)
    else if booksFulfilled.None? then
      Reply(Failure(InvalidFulfillmentData), st)
    else if orderId !in st.orders then
      Reply(Failure(OrderNotFound), st)
    else if st.orders[orderId].status == Fulfilled then
      Reply(Failure(AlreadyFulfilled), st)
    else
      var lines := booksFulfilled.value;
      match FirstShortfall(st.inventory, lines)
      case Some(i) =>
        Reply(Failure(InsufficientInventory(lines[i].book, lines[i].shelf)), st)
      case None =>
        var o := st.orders[orderId];
        assert o.status == Pending;
        Reply(Success(()), State(Commit(st.inventory, lines),
                                 st.orders[orderId := o.(status := Fulfilled)]))
  }

  /** Any fulfilment, successful or not and with repeated keys allowed,
      leaves every positive entry that no line names exactly as it was. */
  lemma FulfilLeavesUnnamed(st: State, isValidId: OrderId -> bool, orderId: OrderId,
                            booksFulfilled: Option<seq<Line>>)
    ensures var inv' := FulfilOrder(st, isValidId, orderId, booksFulfilled).after.inventory;
      forall k :: k in st.inventory && st.inventory[k] > 0
                  && (booksFulfilled.None? || !Named(booksFulfilled.value, k)) ==>
        k in inv' && inv'[k] == st.inventory[k]
  {
    if booksFulfilled.Some? {
      CommitLeavesUnnamed(st.inventory, booksFulfilled.value);
    }
  }

  /** The frame property of a successful fulfilment whose lines name
      pairwise-distinct (book, shelf) pairs: every line was covered by the
      pre-commit count, a named positive entry ends at its old count minus
      the line's copies (deleted when that is not positive), and an unnamed
      positive entry is unchanged. */
  lemma FulfilFrame(st: State, isValidId: OrderId -> bool, orderId: OrderId, lines: seq<Line>)
    requires FulfilOrder(st, isValidId, orderId, Some(lines)).outcome.Success?
    requires DistinctKeys(lines)
    ensures var inv' := FulfilOrder(st, isValidId, orderId, Some(lines)).after.inventory;
      && (forall i :: 0 <= i < |lines| ==> Covered(st.inventory, lines[i]))
      && (forall i :: 0 <= i < |lines| && st.inventory[lines[i].Key()] > 0 ==>
            HoldsCount(inv', lines[i].Key(), st.inventory[lines[i].Key()] - lines[i].numberOfBooks))
      && (forall k :: k in st.inventory && st.inventory[k] > 0 && !Named(lines, k) ==>
            k in inv' && inv'[k] == st.inventory[k])
  {
    CommitFrame(st.inventory, lines);
    CommitLeavesUnnamed(st.inventory, lines);
  }

  /** The frame property stated under the service invariant, where every
      entry is positive: each named entry ends at its old count minus the
      line's copies (deleted when that is not positive), and every unnamed
      entry keeps its count. */
  lemma FulfilFrameUnderInvariant(st: State, isValidId: OrderId -> bool, orderId: OrderId, lines: seq<Line>)
    requires AllPositive(st.inventory)
    requires FulfilOrder(st, isValidId, orderId, Some(lines)).outcome.Success?
    requires DistinctKeys(lines)
    ensures var inv' := FulfilOrder(st, isValidId, orderId, Some(lines)).after.inventory;
      && (forall i :: 0 <= i < |lines| ==>
            HoldsCount(inv', lines[i].Key(), st.inventory[lines[i].Key()] - lines[i].numberOfBooks))
      && (forall k :: k in st.inventory && !Named(lines, k) ==> k in inv' && inv'[k] == st.inventory[k])
  {
    FulfilFrame(st, isValidId, orderId, lines);
  }

  /** As written, the validation pass compares every line with the count
      before the commit pass. Two lines on the same entry that each fit but
      together exceed it are both accepted: the order is fulfilled, `2 * n`
      copies are reported picked from a shelf holding fewer, the entry
      disappears, and every other positive entry is left alone. */
  lemma RepeatedLineOverdraws(st: State, isValidId: OrderId -> bool, orderId: OrderId, k: StockKey, n: int)
    requires isValidId(orderId)
    requires orderId in st.orders && st.orders[orderId].status == Pending
    requires k in st.inventory && 0 < n <= st.inventory[k] < 2 * n
    ensures var lines := [Line(k.book, k.shelf, n), Line(k.book, k.shelf, n)];
      var r := FulfilOrder(st, isValidId, orderId, Some(lines));
      && r.outcome.Success?
      && r.after.orders[orderId].status == Fulfilled
      && k !in r.after.inventory
      && (forall j :: j in st.inventory && st.inventory[j] > 0 && j != k ==>
            j in r.after.inventory && r.after.inventory[j] == st.inventory[j])
  {
    var lines := [Line(k.book, k.shelf, n), Line(k.book, k.shelf, n)];
    var inv1 := Prune(Decrement(st.inventory, k, n));
    assert Commit(st.inventory, lines) == Commit(inv1, lines[1..]);
    assert lines[1..][1..] == [];
    if k in inv1 {
      assert Commit(inv1, lines[1..]) == Prune(Decrement(inv1, k, n));
    }
    CommitLeavesUnnamed(st.inventory, lines);
    forall j | j != k ensures !Named(lines, j) {
      assert lines[0].Key() == k && lines[1].Key() == k;
    }
  }

  /** Fulfilment never changes what the order listing shows: it flips only
      the status, which the listing leaves out. */
  lemma ListingAfterFulfil(st: State, isValidId: OrderId -> bool, orderId: OrderId,
                           booksFulfilled: Option<seq<Line>>)
    ensures ListOrders(FulfilOrder(st, isValidId, orderId, booksFulfilled).after) == ListOrders(st)
  {
  }
}
