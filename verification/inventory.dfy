/** The inventory collection: one count per (book, shelf) pair.

    The store is a map, so "at most one entry per (book, shelf)" holds by
    construction. Counts are unbounded integers: nothing in the fulfilment
    route stops a count from being driven to zero or below before the
    pruning step deletes it. */
module Inventory {

  type BookId = string
  type ShelfId = string

  /** The filter `{ bookId, shelf }` used by every inventory query. */
  datatype StockKey = StockKey(book: BookId, shelf: ShelfId)

  type Stock = map<StockKey, int>

  /** The store invariant the warehouse maintains: no zero or negative entry persists. */
  predicate AllPositive(inv: Stock)
  {
    forall k :: k in inv ==> inv[k] > 0
  }

  /** `c` units are held under `k` in `inv`, where a non-positive `c`
      means the entry is absent (it would have been pruned). */
  predicate HoldsCount(inv: Stock, k: StockKey, c: int)
  {
    if c > 0 then k in inv && inv[k] == c else k !in inv
  }

  /** `updateOne(k, { $inc: { count: -n } })`: changes the one matching entry,
      and does nothing (no upsert) when there is none. */
  function Decrement(inv: Stock, k: StockKey, n: int): (r: Stock)
    ensures r.Keys == inv.Keys
    ensures k in inv ==> r[k] == inv[k] - n
    ensures forall j :: j in inv && j != k ==> r[j] == inv[j]
  {
    if k in inv then inv[k := inv[k] - n] else inv
  }

  /** `deleteMany({ count: { $lte: 0 } })`: drops every non-positive entry
      anywhere in the store and keeps every other entry as it is. */
  function Prune(inv: Stock): (r: Stock)
    ensures AllPositive(r)
    ensures forall k :: k in r <==> k in inv && inv[k] > 0
    ensures forall k :: k in r ==> r[k] == inv[k]
  {
    map k | k in inv && inv[k] > 0 :: inv[k]
  }

  /** Pruning is exactly the identity on stores that already satisfy the invariant. */
  lemma PruneFixesPositive(inv: Stock)
    ensures Prune(inv) == inv <==> AllPositive(inv)
  {
    if AllPositive(inv) {
      assert forall k :: k in Prune(inv) <==> k in inv;
    }
  }
}
