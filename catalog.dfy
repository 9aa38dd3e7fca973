/** The catalog of classes: its records, the lookup by id (`getProduct`) and
    the search step of the catalog projection (`filteredProducts`). */
module Catalog {
  import opened Text

  datatype Option<T> = None | Some(value: T)

  /** One class record. `price` is in whole cents; the description, image
      and rating are display data that no operation reads. */
  datatype Product = Product(
    id: nat,
    title: string,
    category: string,
    location: string,
    price: nat,
    availableInventory: nat)

  /** Position i holds the first record carrying id. */
  predicate FirstWithId(products: seq<Product>, id: nat, i: int)
  {
    0 <= i < |products| && products[i].id == id &&
    forall j :: 0 <= j < i ==> products[j].id != id
  }

  /** `products.find(p => p.id === id)`: the first record carrying id, if any. */
  function Find(products: seq<Product>, id: nat): (r: Option<Product>)
    ensures r.Some? ==> exists i :: FirstWithId(products, id, i) && products[i] == r.value
    ensures r.None? <==> forall i :: 0 <= i < |products| ==> products[i].id != id
  {
    if products == [] then None
    else if products[0].id == id then
      assert FirstWithId(products, id, 0);
      Some(products[0])
    else
      var r := Find(products[1..], id);
      assert forall i :: FirstWithId(products[1..], id, i) ==> FirstWithId(products, id, i + 1);
      r
  }

  /** Every id names at most one record. */
  predicate UniqueIds(products: seq<Product>)
  {
    forall i, j :: 0 <= i < j < |products| ==> products[i].id != products[j].id
  }

  /** With unique ids, a record's own id finds that record. */
  lemma FindUnique(products: seq<Product>, p: Product)
    requires UniqueIds(products) && p in products
    ensures Find(products, p.id) == Some(p)
  {
    var i :| 0 <= i < |products| && products[i] == p;
    var r := Find(products, p.id);
    assert r.Some?;
    var k :| FirstWithId(products, p.id, k) && products[k] == r.value;
    assert k == i;
  }

  /** The search predicate, given an already lower-cased query: the
      lower-cased title, category or location contains it. */
  predicate Matches(p: Product, query: string)
  {
    Contains(Lower(p.title), query) ||
    Contains(Lower(p.category), query) ||
    Contains(Lower(p.location), query)
  }

  /** `products.filter(...)` with the search predicate. */
  function Filter(products: seq<Product>, query: string): (r: seq<Product>)
    ensures |r| <= |products|
    ensures forall p :: p in r <==> p in products && Matches(p, query)
  {
    if products == [] then []
    else (if Matches(products[0], query) then [products[0]] else []) + Filter(products[1..], query)
  }

  /** The filter keeps the records' relative order: it distributes over concatenation. */
  lemma {:induction false} FilterAppend(a: seq<Product>, b: seq<Product>, query: string)
    ensures Filter(a + b, query) == Filter(a, query) + Filter(b, query)
  {
    if a == [] {
      assert a + b == b;
    } else {
      assert (a + b)[1..] == a[1..] + b;
      FilterAppend(a[1..], b, query);
    }
  }

  /** A record that matches is kept and one that does not is dropped, so a
      catalog whose every record matches comes back unchanged. */
  lemma {:induction false} FilterKeepsAll(products: seq<Product>, query: string)
    requires forall p :: p in products ==> Matches(p, query)
    ensures Filter(products, query) == products
  {
    if products != [] {
      FilterKeepsAll(products[1..], query);
    }
  }

  /** The empty query is contained in every string, so searching for it
      keeps every record in order: skipping the filter for an empty query
      yields the same records. */
  lemma EmptyQueryKeepsAll(products: seq<Product>)
    ensures Filter(products, Lower("")) == products
  {
    forall p | p in products ensures Matches(p, Lower("")) {
      assert OccursAt(Lower(p.title), "", 0);
    }
    FilterKeepsAll(products, Lower(""));
  }
}
