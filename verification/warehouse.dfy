/** The warehouse routes: add stock to a shelf, and list the shelves holding a book. */
module Warehouse {

  import opened Wrappers
  import opened Inventory
  import opened BookService

  /** PUT /warehouse/:bookId/:shelf/:count. `count` is the result of
      `parseInt(count, 10)`, with `None` standing for NaN. A positive count is
      added to the existing entry for (book, shelf), or becomes a new entry. */
  function AddStock(st: State, book: BookId, shelf: ShelfId, count: Option<int>): (r: Reply<()>)
    ensures (count.None? || count.value <= 0) ==> r == Reply(Failure(InvalidCount), st)
    ensures count.Some? && count.value > 0 ==>
      var k := StockKey(book, shelf);
      && r.outcome.Success?
      && r.after.orders == st.orders
      && r.after.inventory.Keys == st.inventory.Keys + {k}
      && (k in st.inventory ==> r.after.inventory[k] == st.inventory[k] + count.value)
      && (k !in st.inventory ==> r.after.inventory[k] == count.value)
      && (forall j :: j in st.inventory && j != k ==> r.after.inventory[j] == st.inventory[j])
    ensures AllPositive(st.inventory) ==> AllPositive(r.after.inventory)
  {
    if count.None? || count.value <= 0 then
      Reply(Failure(InvalidCount), st)
    else
      var k := StockKey(book, shelf);
      var inv' := if k in st.inventory
                  then st.inventory[k := st.inventory[k] + count.value]
                  else st.inventory[k := count.value];
      Reply(Success(()), st.(inventory := inv'))
  }

  /** GET /warehouse/:bookId: shelf -> count for every entry of the book. */
  function ShelfLocations(inv: Stock, book: BookId): (r: map<ShelfId, int>)
    ensures forall s :: s in r <==> StockKey(book, s) in inv
    ensures forall s :: s in r ==> r[s] == inv[StockKey(book, s)]
    ensures (forall k :: k in inv ==> k.book != book) ==> r == map[]
  {
    var shelves := set k | k in inv && k.book == book :: k.shelf;
    map s | s in shelves :: inv[StockKey(book, s)]
  }

  /** After a successful add, the lookup for that book shows the shelf with
      its new count; lookups for other books see nothing change. */
  lemma LookupAfterAddStock(st: State, book: BookId, shelf: ShelfId, n: int, other: BookId)
    requires n > 0
    requires other != book
    ensures var after := AddStock(st, book, shelf, Some(n)).after.inventory;
      var before := ShelfLocations(st.inventory, book);
      && shelf in ShelfLocations(after, book)
      && ShelfLocations(after, book)[shelf] == (if shelf in before then before[shelf] else 0) + n
      && ShelfLocations(after, other) == ShelfLocations(st.inventory, other)
  {
    var after := AddStock(st, book, shelf, Some(n)).after.inventory;
    var a := ShelfLocations(after, other);
    var b := ShelfLocations(st.inventory, other);
    assert forall s :: s in a <==> s in b;
    assert a == b;
  }

  /** Non-negative part of a count, the amount an add-stock call contributes. */
  function Added(n: int): nat
  {
    if n > 0 then n else 0
  }

  /** Total stock added by a sequence of add-stock calls; rejected counts add nothing. */
  function SumAdded(ns: seq<int>): nat
  {
    if |ns| == 0 then 0 else Added(ns[0]) + SumAdded(ns[1..])
  }

  /** A sequence of add-stock calls on one (book, shelf), outcomes ignored. */
  function AddAll(st: State, book: BookId, shelf: ShelfId, ns: seq<int>): State
    decreases |ns|
  {
    if |ns| == 0 then st
    else AddAll(AddStock(st, book, shelf, Some(ns[0])).after, book, shelf, ns[1..])
  }

  /** Repeated adds accumulate: the entry ends at its old count (zero when
      absent) plus the sum of the accepted counts, and nothing else changes. */
  lemma {:induction false} AddAllSums(st: State, book: BookId, shelf: ShelfId, ns: seq<int>)
    ensures var r := AddAll(st, book, shelf, ns);
      var k := StockKey(book, shelf);
      && r.orders == st.orders
      && (k in r.inventory <==> k in st.inventory || SumAdded(ns) > 0)
      && (k in r.inventory ==> r.inventory[k] == (if k in st.inventory then st.inventory[k] else 0) + SumAdded(ns))
      && (forall j :: j != k ==> (j in r.inventory <==> j in st.inventory))
      && (forall j :: j != k && j in st.inventory ==> r.inventory[j] == st.inventory[j])
    decreases |ns|
  {
    if |ns| > 0 {
      AddAllSums(AddStock(st, book, shelf, Some(ns[0])).after, book, shelf, ns[1..]);
    }
  }

  /** Splitting a sequence of adds splits their total. */
  lemma {:induction false} SumAddedConcat(a: seq<int>, b: seq<int>)
    ensures SumAdded(a + b) == SumAdded(a) + SumAdded(b)
  {
    if |a| == 0 {
      assert a + b == b;
    } else {
      assert (a + b)[1..] == a[1..] + b;
      SumAddedConcat(a[1..], b);
    }
  }

  /** The total of a sequence of adds depends only on the multiset of counts. */
  lemma {:induction false} SumAddedPermutation(a: seq<int>, b: seq<int>)
    requires multiset(a) == multiset(b)
    ensures SumAdded(a) == SumAdded(b)
    decreases |a|
  {
    if |a| == 0 {
      assert |multiset(b)| == 0;
    } else {
      var x := a[0];
      assert x in multiset(b);
      var i :| 0 <= i < |b| && b[i] == x;
      var b' := b[..i] + b[i + 1..];
      assert b == b[..i] + [b[i]] + b[i + 1..];
      assert a == [x] + a[1..];
      assert multiset(a) == multiset{x} + multiset(a[1..]);
      assert multiset(b) == multiset(b[..i]) + multiset{x} + multiset(b[i + 1..]);
      assert multiset(b') == multiset(b[..i]) + multiset(b[i + 1..]);
      assert multiset(a[1..]) == multiset(a) - multiset{x};
      assert multiset(b') == multiset(b) - multiset{x};
      SumAddedPermutation(a[1..], b');
      SumAddedConcat(b[..i] + [b[i]], b[i + 1..]);
      SumAddedConcat(b[..i], [b[i]]);
      SumAddedConcat(b[..i], b[i + 1..]);
    }
  }

  /** Adding n1 ... nk to one (book, shelf) gives the same store whatever the
      order of the adds; starting from no entry, the entry holds n1 + ... + nk. */
  lemma AddOrderIrrelevant(st: State, book: BookId, shelf: ShelfId, a: seq<int>, b: seq<int>)
    requires multiset(a) == multiset(b)
    ensures AddAll(st, book, shelf, a) == AddAll(st, book, shelf, b)
    ensures StockKey(book, shelf) !in st.inventory ==>
      HoldsCount(AddAll(st, book, shelf, a).inventory, StockKey(book, shelf), SumAdded(a))
  {
    AddAllSums(st, book, shelf, a);
    AddAllSums(st, book, shelf, b);
    SumAddedPermutation(a, b);
    var ra := AddAll(st, book, shelf, a).inventory;
    var rb := AddAll(st, book, shelf, b).inventory;
    assert forall j :: j in ra <==> j in rb;
    assert ra == rb;
  }
}
