/** The orders collection: each order maps book ids to requested copies and
    carries a lifecycle status. Timestamps (`createdAt`, `fulfilledAt`) are
    not modelled. */
module OrderStore {

  import opened Inventory

  type OrderId = string

  datatype Status = Pending | Fulfilled

  datatype Order = Order(books: map<BookId, nat>, status: Status)

  /** The shape every order created through the order route has: at least
      one book, each requested at least once. */
  predicate WellFormed(o: Order)
  {
    |o.books| > 0 && forall b :: b in o.books ==> o.books[b] >= 1
  }

  /** The counting loop of order creation: the ids are visited left to right
      and each visit adds one to that id's tally, starting from zero when the
      id has not been seen. */
  function Tally(ids: seq<BookId>): (r: map<BookId, nat>)
    ensures forall b :: b in r <==> b in ids
    ensures forall b :: b in r ==> r[b] == multiset(ids)[b]
  {
    if |ids| == 0 then map[]
    else
      var prev := Tally(ids[..|ids| - 1]);
      var b := ids[|ids| - 1];
      assert ids == ids[..|ids| - 1] + [b];
      prev[b := (if b in prev then prev[b] else 0) + 1]
  }

  /** Sum of the values of `m` over the keys in `keys`. */
  ghost function SumOver<K>(m: map<K, nat>, keys: set<K>): nat
    requires keys <= m.Keys
    decreases keys
  {
    if keys == {} then 0
    else
      var k :| k in keys;
      m[k] + SumOver(m, keys - {k})
  }

  /** Total number of copies an order requests. */
  ghost function SumValues<K>(m: map<K, nat>): nat
  {
    SumOver(m, m.Keys)
  }

  /** The sum does not depend on which key is taken out first. */
  lemma {:induction false} SumOverRemove<K>(m: map<K, nat>, keys: set<K>, k: K)
    requires keys <= m.Keys
    requires k in keys
    ensures SumOver(m, keys) == m[k] + SumOver(m, keys - {k})
    decreases keys
  {
    var j :| j in keys && SumOver(m, keys) == m[j] + SumOver(m, keys - {j});
    if j != k {
      SumOverRemove(m, keys - {j}, k);
      SumOverRemove(m, keys - {k}, j);
      assert keys - {j} - {k} == keys - {k} - {j};
    }
  }

  /** Two maps that agree on `keys` have the same sum over `keys`. */
  lemma {:induction false} SumOverAgree<K>(m: map<K, nat>, m': map<K, nat>, keys: set<K>)
    requires keys <= m.Keys && keys <= m'.Keys
    requires forall k :: k in keys ==> m[k] == m'[k]
    ensures SumOver(m, keys) == SumOver(m', keys)
    decreases keys
  {
    if keys != {} {
      var k :| k in keys;
      SumOverRemove(m, keys, k);
      SumOverRemove(m', keys, k);
      SumOverAgree(m, m', keys - {k});
    }
  }

  /** Adding one to a key's tally (creating it at one when absent) adds one to the total. */
  lemma BumpAddsOne<K>(m: map<K, nat>, b: K)
    ensures SumValues(m[b := (if b in m then m[b] else 0) + 1]) == SumValues(m) + 1
  {
    var m' := m[b := (if b in m then m[b] else 0) + 1];
    SumOverRemove(m', m'.Keys, b);
    SumOverAgree(m, m', m'.Keys - {b});
    if b in m {
      SumOverRemove(m, m.Keys, b);
      assert m'.Keys - {b} == m.Keys - {b};
    } else {
      assert m'.Keys - {b} == m.Keys;
    }
  }

  /** The requested quantities of an order add up to the length of the id list it was built from. */
  lemma {:induction false} TallySumsToLength(ids: seq<BookId>)
    ensures SumValues(Tally(ids)) == |ids|
  {
    if |ids| == 0 {
      assert Tally(ids).Keys == {};
    } else {
      TallySumsToLength(ids[..|ids| - 1]);
      BumpAddsOne(Tally(ids[..|ids| - 1]), ids[|ids| - 1]);
    }
  }

  /** A non-empty id list yields a well-formed order request. */
  lemma TallyWellFormed(ids: seq<BookId>)
    requires |ids| > 0
    ensures WellFormed(Order(Tally(ids), Pending))
  {
    assert ids[0] in Tally(ids);
  }
}
