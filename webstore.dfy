/** The storefront's view-model: the fields its page binds to and the
    methods and computed values that read and update them. */
module Webstore {
  import opened Text
  import opened Catalog
  import opened Ordering
  import opened Cart
  import opened Summary

  /** The message a method shows with `alert`, if any. */
  datatype Alert = NoAlert | CartIsEmpty | OrderPlaced(firstName: string, lastName: string) | EnterName

  class ViewModel {
    /** True while the class list is shown, false on the checkout page. */
    var showProduct: bool
    /** The catalog, as loaded from the backend. */
    var products: array<Product>
    /** One id per booked seat. */
    var cart: seq<nat>
    var searchQuery: string
    var sortBy: string
    var sortOrder: string
    /** The name fields of the order form. */
    var firstName: string
    var lastName: string

    /** The initial data: class list shown, empty catalog and cart, sorted by subject, ascending. */
    constructor ()
      ensures showProduct && products.Length == 0 && cart == []
      ensures searchQuery == "" && sortBy == "subject" && sortOrder == "ascending"
      ensures firstName == "" && lastName == ""
    {
      showProduct := true;
      products := new Product[0];
      cart := [];
      searchQuery := "";
      sortBy := "subject";
      sortOrder := "ascending";
      firstName := "";
      lastName := "";
    }

    /** The catalog the backend returned replaces the current one. */
    method Load(data: array<Product>)
      modifies this`products
      ensures products == data
    {
      products := data;
    }

    /** `addToCart`: one more seat for the product's id, at the end. */
    method AddToCart(product: Product)
      modifies this`cart
      ensures cart == old(cart) + [product.id]
    {
      cart := cart + [product.id];
    }

    /** `cartCount`: the seats booked for id. */
    function CartCount(id: nat): (n: nat)
      reads this
      ensures n == multiset(cart)[id]
    {
      Count(cart, id)
    }

    /** `canAddToCart`: a seat is left once the booked ones are counted. */
    function CanAddToCart(product: Product): (b: bool)
      reads this
      ensures b <==> multiset(cart)[product.id] < product.availableInventory
    {
      product.availableInventory > CartCount(product.id)
    }

    /** `showCheckout`: toggles between the class list and the checkout
        page, except that an empty cart cannot open the checkout page. */
    method ShowCheckout() returns (alert: Alert)
      modifies this`showProduct
      ensures if !old(showProduct) || |cart| > 0
        then showProduct == !old(showProduct) && alert == NoAlert
        else showProduct == old(showProduct) && alert == CartIsEmpty
    {
      if !showProduct || |cart| > 0 {
        showProduct := !showProduct;
        alert := NoAlert;
      } else {
        alert := CartIsEmpty;
      }
    }

    /** `backToClasses`: shows the class list. */
    method BackToClasses()
      modifies this`showProduct
      ensures showProduct
    {
      showProduct := true;
    }

    /** `removeFromCart`: gives back one seat, the first booked for id; no
        change when none is booked. */
    method RemoveFromCart(productId: nat)
      modifies this`cart
      ensures cart == RemoveFirst(old(cart), productId)
    {
      var index := IndexOf(cart, productId);
      if index > -1 {
        SpliceRemovesFirst(cart, productId, index);
        cart := cart[..index] + cart[index + 1..];
      }
    }

    /** `removeAllFromCart`: gives back every seat booked for id. */
    method RemoveAllFromCart(productId: nat)
      modifies this`cart
      ensures cart == Without(old(cart), productId)
    {
      cart := Without(cart, productId);
    }

    /** `submitForm`: an empty cart is refused; with both names given the
        order is placed, the cart emptied and the class list shown again;
        otherwise the user is asked for a name. */
    method SubmitForm() returns (alert: Alert)
      modifies this`cart, this`showProduct
      ensures old(cart) == [] ==>
        alert == CartIsEmpty && cart == old(cart) && showProduct == old(showProduct)
      ensures old(cart) != [] && firstName != "" && lastName != "" ==>
        alert == OrderPlaced(firstName, lastName) && cart == [] && showProduct
      ensures old(cart) != [] && (firstName == "" || lastName == "") ==>
        alert == EnterName && cart == old(cart) && showProduct == old(showProduct)
    {
      if |cart| == 0 {
        return CartIsEmpty;
      }
      if firstName != "" && lastName != "" {
        alert := OrderPlaced(firstName, lastName);
        cart := [];
        showProduct := true;
      } else {
        alert := EnterName;
      }
    }

    /** `getProduct`: the first catalog record with this id, if any. */
    function GetProduct(id: nat): (r: Option<Product>)
      reads this, products
      ensures r.Some? ==> exists i :: FirstWithId(products[..], id, i) && products[i] == r.value
      ensures r.None? <==> forall i :: 0 <= i < products.Length ==> products[i].id != id
    {
      Find(products[..], id)
    }

    /** `getCartTotal`, in cents: the prices of the cart entries that resolve. */
    method GetCartTotal() returns (total: nat)
      ensures total == CartTotal(cart, products[..])
    {
      total := 0;
      for i := 0 to |cart|
        invariant total == SumOver(cart[..i], PriceWeight(products[..]))
      {
        var product := GetProduct(cart[i]);
        if product.Some? {
          total := total + product.value.price;
        }
        assert cart[..i + 1][..i] == cart[..i];
      }
      assert cart[..|cart|] == cart;
    }

    /** `cartItemCount`: the number of booked seats. */
    function CartItemCount(): (n: nat)
      reads this
      ensures n == |multiset(cart)|
    {
      |cart|
    }

    /** `filteredProducts`: the catalog records matching the search, sorted
        by the chosen key and direction. With an empty query no copy is
        made, so the sort reorders the catalog itself and the result is the
        catalog array; otherwise the result is a fresh array and the catalog
        is left alone. */
    method FilteredProducts() returns (filtered: array<Product>)
      modifies products
      ensures searchQuery == "" ==> filtered == products
      ensures searchQuery != "" ==> fresh(filtered) && products[..] == old(products[..])
      ensures filtered[..] == Arrange(Filter(old(products[..]), Lower(searchQuery)), sortBy, sortOrder)
    {
      filtered := products;
      if searchQuery != "" {
        var query := Lower(searchQuery);
        var kept := Filter(products[..], query);
        filtered := new Product[|kept|](i requires 0 <= i < |kept| => kept[i]);
        assert filtered[..] == kept;
      } else {
        EmptyQueryKeepsAll(products[..]);
      }
      var isAsc := sortOrder == "ascending";
      var key := ParseSortKey(sortBy);
      if key.Some? {
        SortInPlace(filtered, key.value, isAsc);
      }
    }

    /** `filteredProducts` without the side effect: a computed value is
        expected to leave the data it reads untouched, so the same records in
        the same order come back in a fresh array and the catalog keeps its
        order. */
    method FilteredProductsCopy() returns (filtered: array<Product>)
      ensures fresh(filtered) && products[..] == old(products[..])
      ensures filtered[..] == Arrange(Filter(products[..], Lower(searchQuery)), sortBy, sortOrder)
    {
      var kept := Filter(products[..], Lower(searchQuery));
      filtered := new Product[|kept|](i requires 0 <= i < |kept| => kept[i]);
      assert filtered[..] == kept;
      var isAsc := sortOrder == "ascending";
      var key := ParseSortKey(sortBy);
      if key.Some? {
        SortInPlace(filtered, key.value, isAsc);
      }
    }

    /** The first half of `cartItems`: a map from each distinct cart id to
        its number of seats. */
    method SeatsById() returns (itemMap: map<nat, nat>)
      ensures itemMap.Keys == CartIds(cart)
      ensures forall id :: id in itemMap ==> itemMap[id] == Count(cart, id)
    {
      itemMap := map[];
      for i := 0 to |cart|
        invariant forall id :: id in itemMap <==> id in cart[..i]
        invariant forall id :: id in itemMap ==> itemMap[id] == multiset(cart[..i])[id]
      {
        var id := cart[i];
        assert cart[..i + 1] == cart[..i] + [id];
        if id in itemMap {
          itemMap := itemMap[id := itemMap[id] + 1];
        } else {
          itemMap := itemMap[id := 1];
        }
      }
      assert cart[..|cart|] == cart;
    }

    /** The body of the second loop of `cartItems`: the line for one id
        with n seats, or none when the id does not resolve. */
    method LineFor(id: nat, n: nat) returns (line: seq<LineItem>)
      requires n == Count(cart, id)
      ensures line == ItemFor(id, cart, products[..])
    {
      line := [];
      var product := GetProduct(id);
      if product.Some? {
        var p := product.value;
        ItemForFound(id, cart, products[..], p, n);
        TimesIsProduct(p.price, n);
        line := [LineItem(p, n, p.price * n)];
      }
    }

    /** One step of the second loop of `cartItems`: the smallest id not
        yet visited and its line. */
    method NextLine(keys: set<nat>, itemMap: map<nat, nat>) returns (id: nat, line: seq<LineItem>)
      requires keys != {} && keys <= itemMap.Keys
      requires forall k :: k in itemMap ==> itemMap[k] == Count(cart, k)
      ensures IsLeast(id, keys)
      ensures line == ItemFor(id, cart, products[..])
    {
      MinExists(keys);
      id :| IsLeast(id, keys);
      line := LineFor(id, itemMap[id]);
    }

    /** `cartItems`: counts the cart entries per id, then visits the ids in
        ascending order and emits a line for each id that resolves. */
    method CartItems() returns (items: seq<LineItem>)
      ensures items == CartLineItems(cart, products[..])
    {
      var itemMap := SeatsById();
      items := [];
      var keys := itemMap.Keys;
      ghost var visited: set<nat> := {};
      VisitStart(keys, cart, products[..]);
      while keys != {}
        invariant Visiting(visited, keys, itemMap.Keys, items, cart, products[..])
        decreases keys
      {
        var id, line := NextLine(keys, itemMap);
        VisitSmallest(visited, keys, itemMap.Keys, items, cart, products[..], id);
        items := items + line;
        visited := visited + {id};
        keys := keys - {id};
      }
      VisitDone(visited, itemMap.Keys, items, cart, products[..]);
    }
  }

  /** The sort step: by the recognised key in the chosen direction, or the
      order unchanged for an unrecognised `sortBy`. Only "ascending" sorts
      ascending; every other `sortOrder` sorts descending. */
  function Arrange(s: seq<Product>, sortBy: string, sortOrder: string): (r: seq<Product>)
    ensures multiset(r) == multiset(s)
    ensures sortBy != "subject" && sortBy != "location" && sortBy != "availability" && sortBy != "price" ==> r == s
    ensures ParseSortKey(sortBy).Some? ==>
      SortedBy(r, ParseSortKey(sortBy).value, sortOrder == "ascending") &&
      forall v :: WithKey(r, ParseSortKey(sortBy).value, v) == WithKey(s, ParseSortKey(sortBy).value, v)
  {
    match ParseSortKey(sortBy)
    case None => s
    case Some(k) =>
      SortSpec(s, k, sortOrder == "ascending");
      StableSort(s, k, sortOrder == "ascending")
  }

  /** The projection holds exactly the catalog records that match the
      lower-cased query, each as often as in the catalog's filtered order. */
  lemma ProjectionKeepsMatches(catalog: seq<Product>, searchQuery: string, sortBy: string, sortOrder: string)
    ensures var r := Arrange(Filter(catalog, Lower(searchQuery)), sortBy, sortOrder);
      forall p :: p in r <==> p in catalog && Matches(p, Lower(searchQuery))
    ensures searchQuery == "" ==> Arrange(Filter(catalog, Lower(searchQuery)), sortBy, sortOrder) == Arrange(catalog, sortBy, sortOrder)
  {
    var f := Filter(catalog, Lower(searchQuery));
    var r := Arrange(f, sortBy, sortOrder);
    forall p ensures p in r <==> p in f {
      assert p in r <==> p in multiset(r);
      assert p in f <==> p in multiset(f);
    }
    if searchQuery == "" {
      EmptyQueryKeepsAll(catalog);
    }
  }

  /** With an empty query the catalog array itself is sorted, so a catalog
      not already in subject order comes out of a projection by subject,
      ascending, in a different order. */
  lemma EmptyQuerySortReordersCatalog(s: seq<Product>)
    requires !SortedBy(s, Subject, true)
    ensures Arrange(Filter(s, Lower("")), "subject", "ascending") != s
  {
    EmptyQueryKeepsAll(s);
  }

  /** A catalog listed as [Music class, Art class] is one such catalog: the
      projection gives [Art class, Music class]. */
  lemma EmptyQuerySortExample()
    ensures var first := Product(1, "Music", "Music", "London", 40, 5);
      var second := Product(2, "Art", "Art", "Leeds", 30, 5);
      !SortedBy([first, second], Subject, true) &&
      Arrange(Filter([first, second], Lower("")), "subject", "ascending") == [second, first]
  {
    var first := Product(1, "Music", "Music", "London", 40, 5);
    var second := Product(2, "Art", "Art", "Leeds", 30, 5);
    EmptyQueryKeepsAll([first, second]);
    assert LexCompare("Music", "Art") == 1;
    assert !InOrder(Subject, true, first, second);
    assert [first, second][..1] == [first];
    assert StableSort([first], Subject, true) == [first];
    assert Place([first], second, Subject, true) == [second, first];
  }

  /** The same on the view-model: after loading [Music class, Art class],
      evaluating the projection with the initial search and sort leaves the
      catalog array itself reordered. */
  method EmptyQueryReordersViewModel() returns (vm: ViewModel)
    ensures vm.products[..] == [Product(2, "Art", "Art", "Leeds", 30, 5), Product(1, "Music", "Music", "London", 40, 5)]
  {
    var first := Product(1, "Music", "Music", "London", 40, 5);
    var second := Product(2, "Art", "Art", "Leeds", 30, 5);
    vm := new ViewModel();
    var data := new Product[2];
    data[0], data[1] := first, second;
    assert data[..] == [first, second];
    vm.Load(data);
    EmptyQuerySortExample();
    var shown := vm.FilteredProducts();
    assert shown == vm.products;
  }
}
