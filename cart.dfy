/** The cart: a sequence of class ids, one entry per booked seat, and the
    operations the storefront applies to it. */
module Cart {
  import opened Catalog

  /** `cart.filter(item => item === id).length`: the seats booked for id. */
  function Count(cart: seq<nat>, id: nat): (n: nat)
    ensures n == multiset(cart)[id]
  {
    if cart == [] then 0
    else
      assert cart == [cart[0]] + cart[1..];
      (if cart[0] == id then 1 else 0) + Count(cart[1..], id)
  }

  /** One more entry adds one seat to its own id and none to any other. */
  lemma CountSnoc(cart: seq<nat>, x: nat, id: nat)
    ensures Count(cart + [x], id) == Count(cart, id) + (if x == id then 1 else 0)
  {
    assert multiset(cart + [x]) == multiset(cart) + multiset{x};
  }

  /** `cart.indexOf(id)`: the first position of id, or -1 when it is absent. */
  function IndexOf(cart: seq<nat>, id: nat): (i: int)
    ensures -1 <= i < |cart|
    ensures i >= 0 ==> cart[i] == id && id !in cart[..i]
    ensures i == -1 <==> id !in cart
  {
    if cart == [] then -1
    else if cart[0] == id then 0
    else
      var j := IndexOf(cart[1..], id);
      if j == -1 then -1
      else
        assert cart[..j + 1] == [cart[0]] + cart[1..][..j];
        j + 1
  }

  /** The cart with its first entry for id taken out: one seat fewer for id,
      every other entry kept; no change when id is absent. */
  function RemoveFirst(cart: seq<nat>, id: nat): (r: seq<nat>)
    ensures multiset(r) == multiset(cart) - multiset{id}
    ensures id !in cart ==> r == cart
  {
    if cart == [] then []
    else
      assert cart == [cart[0]] + cart[1..];
      if cart[0] == id then cart[1..] else [cart[0]] + RemoveFirst(cart[1..], id)
  }

  /** The cart with every entry for id taken out and all others kept. */
  function Without(cart: seq<nat>, id: nat): (r: seq<nat>)
    ensures multiset(r) == multiset(cart)[id := 0]
    ensures id !in r
  {
    if cart == [] then []
    else
      assert cart == [cart[0]] + cart[1..];
      (if cart[0] == id then [] else [cart[0]]) + Without(cart[1..], id)
  }

  /** Splicing out the entry at the first position of id (what `indexOf`
      returns) removes the first occurrence. */
  lemma {:induction false} SpliceRemovesFirst(cart: seq<nat>, id: nat, i: nat)
    requires i < |cart| && cart[i] == id && id !in cart[..i]
    ensures cart[..i] + cart[i + 1..] == RemoveFirst(cart, id)
  {
    if i > 0 {
      var rest := cart[1..];
      assert cart[0] != id by { assert cart[0] in cart[..i]; }
      assert rest[..i - 1] == cart[1..i];
      SpliceRemovesFirst(rest, id, i - 1);
      assert cart[..i] == [cart[0]] + rest[..i - 1];
      assert cart[i + 1..] == rest[i..];
    }
  }

  /** Taking out one id keeps the relative order of the rest: it distributes
      over concatenation. */
  lemma {:induction false} WithoutAppend(a: seq<nat>, b: seq<nat>, id: nat)
    ensures Without(a + b, id) == Without(a, id) + Without(b, id)
  {
    if a == [] {
      assert a + b == b;
    } else {
      assert (a + b)[1..] == a[1..] + b;
      WithoutAppend(a[1..], b, id);
    }
  }

  /** Adding a seat for id leaves the entries of every other id exactly as they were. */
  lemma AppendKeepsOthers(cart: seq<nat>, id: nat)
    ensures Without(cart + [id], id) == Without(cart, id)
  {
    WithoutAppend(cart, [id], id);
    assert Without([id], id) == [];
  }

  /** Removing the first seat for id leaves the entries of every other id
      exactly as they were, in order and multiplicity. */
  lemma {:induction false} RemoveFirstKeepsOthers(cart: seq<nat>, id: nat)
    ensures Without(RemoveFirst(cart, id), id) == Without(cart, id)
  {
    if cart != [] && cart[0] != id {
      RemoveFirstKeepsOthers(cart[1..], id);
    }
  }

  /** Removing every seat for id leaves the entries of the other ids as they
      were: a second removal finds nothing more to take. */
  lemma {:induction false} WithoutIdempotent(cart: seq<nat>, id: nat)
    ensures Without(Without(cart, id), id) == Without(cart, id)
  {
    if cart != [] {
      WithoutIdempotent(cart[1..], id);
      WithoutAppend(if cart[0] == id then [] else [cart[0]], Without(cart[1..], id), id);
    }
  }

  /** The booked seats of each catalog record fit its remaining inventory. */
  predicate WithinInventory(cart: seq<nat>, catalog: seq<Product>)
  {
    forall p :: p in catalog ==> Count(cart, p.id) <= p.availableInventory
  }

  /** Adding a record only when `canAddToCart` allows it keeps every record
      within its inventory. */
  lemma GuardedAddKeepsInventory(cart: seq<nat>, catalog: seq<Product>, p: Product)
    requires UniqueIds(catalog) && p in catalog
    requires WithinInventory(cart, catalog)
    requires p.availableInventory > Count(cart, p.id)
    ensures WithinInventory(cart + [p.id], catalog)
  {
    forall q | q in catalog ensures Count(cart + [p.id], q.id) <= q.availableInventory {
      if q.id == p.id {
        FindUnique(catalog, p);
        FindUnique(catalog, q);
      }
    }
  }

  /** Removing seats never takes a record over its inventory. */
  lemma RemovalKeepsInventory(cart: seq<nat>, catalog: seq<Product>, id: nat)
    requires WithinInventory(cart, catalog)
    ensures WithinInventory(RemoveFirst(cart, id), catalog)
    ensures WithinInventory(Without(cart, id), catalog)
  {
  }
}
