/** Cart summaries: the line items of `cartItems` (cart entries grouped by
    id, resolved against the catalog) and the total of `getCartTotal`. */
module Summary {
  import opened Catalog
  import opened Cart

  /** One line of the cart summary; `subtotal` is in cents. */
  datatype LineItem = LineItem(product: Product, quantity: nat, subtotal: nat)

  /** a times n, written as repeated addition so that the solver reasons
      about it linearly; `TimesIsProduct` shows it is the product. */
  function Times(a: nat, n: nat): nat
  {
    if n == 0 then 0 else Times(a, n - 1) + a
  }

  lemma {:induction false} TimesIsProduct(a: nat, n: nat)
    ensures Times(a, n) == a * n
  {
    if n > 0 {
      TimesIsProduct(a, n - 1);
    }
  }

  lemma {:induction false} TimesAdd(a: nat, b: nat, c: nat)
    ensures Times(a, b + c) == Times(a, b) + Times(a, c)
  {
    if c > 0 {
      TimesAdd(a, b, c - 1);
    }
  }

  /** The price an entry adds to the total: its record's price, or nothing
      when the id no longer resolves. */
  function PriceOf(catalog: seq<Product>, id: nat): nat
  {
    match Find(catalog, id)
    case Some(p) => p.price
    case None => 0
  }

  function PriceWeight(catalog: seq<Product>): nat -> nat
  {
    id => PriceOf(catalog, id)
  }

  /** One for an id that resolves, zero for one that does not. */
  function ResolvedWeight(catalog: seq<Product>): nat -> nat
  {
    id => if Find(catalog, id).Some? then 1 else 0
  }

  /** The sum of w over the entries of s, accumulated front to back. */
  function SumOver(s: seq<nat>, w: nat -> nat): nat
  {
    if s == [] then 0 else SumOver(s[..|s| - 1], w) + w(s[|s| - 1])
  }

  /** The cart total in cents: the prices of the entries that resolve. */
  function CartTotal(cart: seq<nat>, catalog: seq<Product>): nat
  {
    SumOver(cart, PriceWeight(catalog))
  }

  predicate Ascending(ids: seq<nat>)
  {
    forall i, j :: 0 <= i < j < |ids| ==> ids[i] < ids[j]
  }

  /** The distinct ids of the cart: the keys of its id-to-count map. */
  function CartIds(cart: seq<nat>): set<nat>
  {
    set id | id in cart
  }

  predicate IsLeast(m: nat, ids: set<nat>)
  {
    m in ids && forall x :: x in ids ==> m <= x
  }

  predicate IsGreatest(m: nat, ids: set<nat>)
  {
    m in ids && forall x :: x in ids ==> x <= m
  }

  lemma LeastAdd(y: nat, m: nat, rest: set<nat>)
    requires IsLeast(m, rest)
    ensures IsLeast(if y < m then y else m, rest + {y})
  {
  }

  lemma GreatestAdd(y: nat, m: nat, rest: set<nat>)
    requires IsGreatest(m, rest)
    ensures IsGreatest(if m < y then y else m, rest + {y})
  {
  }

  lemma {:induction false} MinExists(ids: set<nat>)
    requires ids != {}
    ensures exists m :: IsLeast(m, ids)
  {
    var y :| y in ids;
    var rest := ids - {y};
    assert ids == rest + {y};
    if rest == {} {
      assert ids == {y};
      assert IsLeast(y, ids);
    } else {
      MinExists(rest);
      var m :| IsLeast(m, rest);
      LeastAdd(y, m, rest);
      var b := if y < m then y else m;
      assert IsLeast(b, ids);
    }
  }

  lemma {:induction false} MaxExists(ids: set<nat>)
    requires ids != {}
    ensures exists m :: IsGreatest(m, ids)
  {
    var y :| y in ids;
    var rest := ids - {y};
    assert ids == rest + {y};
    if rest == {} {
      assert ids == {y};
      assert IsGreatest(y, ids);
    } else {
      MaxExists(rest);
      var m :| IsGreatest(m, rest);
      GreatestAdd(y, m, rest);
      var b := if m < y then y else m;
      assert IsGreatest(b, ids);
    }
  }

  function Max(ids: set<nat>): (m: nat)
    requires ids != {}
    ensures IsGreatest(m, ids)
  {
    MaxExists(ids);
    var m :| IsGreatest(m, ids);
    m
  }

  /** A set of ids in ascending numeric order, the order in which `for...in`
      visits the integer keys of an object. */
  function SortedKeys(ids: set<nat>): (r: seq<nat>)
    ensures Ascending(r)
    ensures forall x :: x in r <==> x in ids
    decreases ids
  {
    if ids == {} then []
    else
      var m := Max(ids);
      SortedKeys(ids - {m}) + [m]
  }

  /** Every id of lo is smaller than every id of hi. */
  predicate AllBelow(lo: set<nat>, hi: set<nat>)
  {
    forall v, k :: v in lo && k in hi ==> v < k
  }

  /** Visiting the ids in ascending order: a new id above every one seen
      so far goes at the end. */
  lemma SortedKeysAddLargest(ids: set<nat>, id: nat)
    requires forall x :: x in ids ==> x < id
    ensures SortedKeys(ids + {id}) == SortedKeys(ids) + [id]
  {
    var next := ids + {id};
    assert Max(next) == id;
    assert next - {id} == ids;
  }

  /** The line item for one id, or none when the id does not resolve. */
  function ItemFor(id: nat, cart: seq<nat>, catalog: seq<Product>): (r: seq<LineItem>)
    ensures |r| == if Find(catalog, id).Some? then 1 else 0
    ensures |r| == 1 ==> r[0].product.id == id && ItemAgrees(r[0], cart, catalog)
  {
    match Find(catalog, id)
    case None => []
    case Some(p) => [LineItem(p, Count(cart, id), Times(p.price, Count(cart, id)))]
  }

  /** The line for an id that resolves to p. */
  lemma ItemForFound(id: nat, cart: seq<nat>, catalog: seq<Product>, p: Product, n: nat)
    requires Find(catalog, id) == Some(p) && n == Count(cart, id)
    ensures ItemFor(id, cart, catalog) == [LineItem(p, n, Times(p.price, n))]
  {
  }

  /** The line items for ids, in the order of ids. */
  function LineItemsFor(ids: seq<nat>, cart: seq<nat>, catalog: seq<Product>): seq<LineItem>
  {
    if ids == [] then []
    else LineItemsFor(ids[..|ids| - 1], cart, catalog) + ItemFor(ids[|ids| - 1], cart, catalog)
  }

  lemma LineItemsForSnoc(ids: seq<nat>, id: nat, cart: seq<nat>, catalog: seq<Product>)
    ensures LineItemsFor(ids + [id], cart, catalog) == LineItemsFor(ids, cart, catalog) + ItemFor(id, cart, catalog)
  {
    assert (ids + [id])[..|ids|] == ids;
  }

  /** Part way through visiting all in ascending order: the ids visited
      lie below the ones left, and items holds the lines of those visited. */
  predicate Visiting(visited: set<nat>, left: set<nat>, all: set<nat>, items: seq<LineItem>,
                     cart: seq<nat>, catalog: seq<Product>)
  {
    visited + left == all && visited * left == {} && AllBelow(visited, left) &&
    items == LineItemsFor(SortedKeys(visited), cart, catalog)
  }

  lemma VisitStart(all: set<nat>, cart: seq<nat>, catalog: seq<Product>)
    ensures Visiting({}, all, all, [], cart, catalog)
  {
    assert SortedKeys({}) == [];
  }

  /** Moving the smallest id left into the visited ids keeps the two apart
      and the visited ones below the rest. */
  lemma MoveSmallest(visited: set<nat>, left: set<nat>, all: set<nat>, id: nat)
    requires visited + left == all && visited * left == {} && AllBelow(visited, left)
    requires IsLeast(id, left)
    ensures (visited + {id}) + (left - {id}) == all && (visited + {id}) * (left - {id}) == {}
    ensures AllBelow(visited + {id}, left - {id})
    ensures forall v :: v in visited ==> v < id
  {
  }

  /** Visiting the smallest id left appends its line. */
  lemma VisitSmallest(visited: set<nat>, left: set<nat>, all: set<nat>, items: seq<LineItem>,
                      cart: seq<nat>, catalog: seq<Product>, id: nat)
    requires Visiting(visited, left, all, items, cart, catalog)
    requires IsLeast(id, left)
    ensures Visiting(visited + {id}, left - {id}, all, items + ItemFor(id, cart, catalog), cart, catalog)
  {
    MoveSmallest(visited, left, all, id);
    SortedKeysAddLargest(visited, id);
    LineItemsForSnoc(SortedKeys(visited), id, cart, catalog);
  }

  lemma VisitDone(visited: set<nat>, all: set<nat>, items: seq<LineItem>,
                  cart: seq<nat>, catalog: seq<Product>)
    requires Visiting(visited, {}, all, items, cart, catalog)
    ensures items == LineItemsFor(SortedKeys(all), cart, catalog)
  {
    assert visited == all;
  }

  /** What `cartItems` produces. */
  function CartLineItems(cart: seq<nat>, catalog: seq<Product>): seq<LineItem>
  {
    LineItemsFor(SortedKeys(CartIds(cart)), cart, catalog)
  }

  /** A line item carries the record its id resolves to, the seats booked
      for that id, and price times seats. */
  predicate ItemAgrees(item: LineItem, cart: seq<nat>, catalog: seq<Product>)
  {
    Find(catalog, item.product.id) == Some(item.product) &&
    item.quantity == Count(cart, item.product.id) &&
    item.subtotal == Times(item.product.price, item.quantity)
  }

  function Subtotals(items: seq<LineItem>): nat
  {
    if items == [] then 0 else Subtotals(items[..|items| - 1]) + items[|items| - 1].subtotal
  }

  function Quantities(items: seq<LineItem>): nat
  {
    if items == [] then 0 else Quantities(items[..|items| - 1]) + items[|items| - 1].quantity
  }

  /** Every line item agrees with the cart and the catalog. */
  predicate AllAgree(items: seq<LineItem>, cart: seq<nat>, catalog: seq<Product>)
  {
    forall i :: 0 <= i < |items| ==> ItemAgrees(items[i], cart, catalog)
  }

  /** Every line item's id is one of ids. */
  predicate IdsAmong(items: seq<LineItem>, ids: seq<nat>)
  {
    forall i :: 0 <= i < |items| ==> items[i].product.id in ids
  }

  /** The line items come in strictly ascending id order, so no id has two. */
  predicate IdsAscending(items: seq<LineItem>)
  {
    forall i, j :: 0 <= i < j < |items| ==> items[i].product.id < items[j].product.id
  }

  /** Some line item is for id. */
  predicate HasLineFor(items: seq<LineItem>, id: nat)
  {
    exists i :: 0 <= i < |items| && items[i].product.id == id
  }

  lemma {:induction false} LineItemsAgree(ids: seq<nat>, cart: seq<nat>, catalog: seq<Product>)
    ensures AllAgree(LineItemsFor(ids, cart, catalog), cart, catalog)
    ensures IdsAmong(LineItemsFor(ids, cart, catalog), ids)
  {
    if ids != [] {
      var init, last := ids[..|ids| - 1], ids[|ids| - 1];
      LineItemsAgree(init, cart, catalog);
      var before, tail := LineItemsFor(init, cart, catalog), ItemFor(last, cart, catalog);
      var items := LineItemsFor(ids, cart, catalog);
      assert items == before + tail;
      forall i | 0 <= i < |items|
        ensures ItemAgrees(items[i], cart, catalog) && items[i].product.id in ids
      {
        if i < |before| {
          assert items[i] == before[i];
          assert before[i].product.id in init;
        } else {
          assert items[i] == tail[0];
        }
      }
    }
  }

  lemma {:induction false} LineItemsAscending(ids: seq<nat>, cart: seq<nat>, catalog: seq<Product>)
    requires Ascending(ids)
    ensures IdsAscending(LineItemsFor(ids, cart, catalog))
  {
    if ids != [] {
      var init, last := ids[..|ids| - 1], ids[|ids| - 1];
      assert Ascending(init);
      LineItemsAscending(init, cart, catalog);
      LineItemsAgree(init, cart, catalog);
      var before, tail := LineItemsFor(init, cart, catalog), ItemFor(last, cart, catalog);
      var items := LineItemsFor(ids, cart, catalog);
      assert items == before + tail;
      forall i | 0 <= i < |before| ensures before[i].product.id < last {
        assert before[i].product.id in init;
        var m :| 0 <= m < |init| && init[m] == before[i].product.id;
        assert ids[m] == init[m];
      }
      forall i, j | 0 <= i < j < |items| ensures items[i].product.id < items[j].product.id {
        assert items[i] == before[i];
        if j < |before| {
          assert items[j] == before[j];
        } else {
          assert items[j] == tail[0];
        }
      }
    }
  }

  lemma {:induction false} LineItemsCover(ids: seq<nat>, cart: seq<nat>, catalog: seq<Product>, id: nat)
    requires id in ids
    ensures Find(catalog, id).Some? <==> HasLineFor(LineItemsFor(ids, cart, catalog), id)
  {
    var init, last := ids[..|ids| - 1], ids[|ids| - 1];
    assert ids == init + [last];
    var before, tail := LineItemsFor(init, cart, catalog), ItemFor(last, cart, catalog);
    var items := LineItemsFor(ids, cart, catalog);
    assert items == before + tail;
    LineItemsAgree(ids, cart, catalog);
    if Find(catalog, id).Some? {
      if id == last {
        assert items[|items| - 1] == tail[0];
      } else {
        LineItemsCover(init, cart, catalog, id);
        var i :| 0 <= i < |before| && before[i].product.id == id;
        assert items[i] == before[i];
      }
    } else {
      forall i | 0 <= i < |items| ensures items[i].product.id != id {
        assert ItemAgrees(items[i], cart, catalog);
      }
    }
  }

  /** `cartItems` has exactly one line per distinct cart id that resolves,
      carrying that id's seat count and price times count, in ascending id
      order; ids that do not resolve get no line. */
  lemma CartLineItemsSpec(cart: seq<nat>, catalog: seq<Product>)
    ensures AllAgree(CartLineItems(cart, catalog), cart, catalog)
    ensures IdsAmong(CartLineItems(cart, catalog), cart)
    ensures IdsAscending(CartLineItems(cart, catalog))
    ensures forall id :: id in cart ==>
      (Find(catalog, id).Some? <==> HasLineFor(CartLineItems(cart, catalog), id))
  {
    var ids := SortedKeys(CartIds(cart));
    LineItemsAgree(ids, cart, catalog);
    LineItemsAscending(ids, cart, catalog);
    forall id | id in cart
      ensures Find(catalog, id).Some? <==> HasLineFor(CartLineItems(cart, catalog), id)
    {
      assert id in CartIds(cart);
      LineItemsCover(ids, cart, catalog, id);
    }
  }

  /** The weighted seat counts of ids: the sum of w(id) times the seats of id in s. */
  function Grouped(ids: seq<nat>, s: seq<nat>, w: nat -> nat): nat
  {
    if ids == [] then 0
    else Grouped(ids[..|ids| - 1], s, w) + Times(w(ids[|ids| - 1]), multiset(s)[ids[|ids| - 1]])
  }

  lemma {:induction false} GroupedEmpty(ids: seq<nat>, w: nat -> nat)
    ensures Grouped(ids, [], w) == 0
  {
    if ids != [] {
      GroupedEmpty(ids[..|ids| - 1], w);
    }
  }

  lemma {:induction false} GroupedSnoc(ids: seq<nat>, s: seq<nat>, x: nat, w: nat -> nat)
    ensures Grouped(ids, s + [x], w) == Grouped(ids, s, w) + Times(w(x), multiset(ids)[x])
  {
    if ids != [] {
      var init, last := ids[..|ids| - 1], ids[|ids| - 1];
      GroupedSnoc(init, s, x, w);
      assert init + [last] == ids;
      GroupedSnocStep(init, last, s, x, w);
    }
  }

  /** The inductive step of `GroupedSnoc`: one more id listed. */
  lemma GroupedSnocStep(init: seq<nat>, last: nat, s: seq<nat>, x: nat, w: nat -> nat)
    requires Grouped(init, s + [x], w) == Grouped(init, s, w) + Times(w(x), multiset(init)[x])
    ensures Grouped(init + [last], s + [x], w) == Grouped(init + [last], s, w) + Times(w(x), multiset(init + [last])[x])
  {
    var ids := init + [last];
    assert ids[..|ids| - 1] == init;
    CountsSnoc(init, last, s, x);
    var ms: multiset<nat> := multiset(s);
    var mi: multiset<nat> := multiset(init);
    var d := if last == x then 1 else 0;
    MoveOne(w(last), w(x), ms[last], mi[x], d);
  }

  /** The seat counts that change when x joins s and last joins init. */
  lemma CountsSnoc(init: seq<nat>, last: nat, s: seq<nat>, x: nat)
    ensures multiset(s + [x])[last] == multiset(s)[last] + (if last == x then 1 else 0)
    ensures multiset(init + [last])[x] == multiset(init)[x] + (if last == x then 1 else 0)
  {
    assert multiset(init + [last]) == multiset(init) + multiset{last};
    assert multiset(s + [x]) == multiset(s) + multiset{x};
  }

  /** Moving d seats between two groups of equal weight keeps the sum. */
  lemma MoveOne(a: nat, b: nat, c: nat, e: nat, d: nat)
    requires d == 0 || a == b
    ensures Times(a, c + d) + Times(b, e) == Times(a, c) + Times(b, e + d)
  {
    TimesAdd(a, c, d);
    TimesAdd(b, e, d);
  }

  lemma {:induction false} AscendingCountOne(ids: seq<nat>, x: nat)
    requires Ascending(ids) && x in ids
    ensures multiset(ids)[x] == 1
  {
    var init, last := ids[..|ids| - 1], ids[|ids| - 1];
    assert ids == init + [last];
    if x == last {
      assert x !in init by {
        forall m | 0 <= m < |init| ensures init[m] != x {
          assert ids[m] == init[m];
        }
      }
    } else {
      assert Ascending(init);
      AscendingCountOne(init, x);
    }
  }

  /** Grouping the entries by id and weighting each group by its size gives
      the plain sum over the entries, when every entry's id is listed once. */
  lemma {:induction false} GroupedIsSum(ids: seq<nat>, s: seq<nat>, w: nat -> nat)
    requires Ascending(ids)
    requires forall x :: x in s ==> x in ids
    ensures Grouped(ids, s, w) == SumOver(s, w)
  {
    if s == [] {
      GroupedEmpty(ids, w);
    } else {
      var init, last := s[..|s| - 1], s[|s| - 1];
      assert s == init + [last];
      GroupedIsSum(ids, init, w);
      GroupedSnoc(ids, init, last, w);
      AscendingCountOne(ids, last);
    }
  }

  lemma SubtotalsSnoc(items: seq<LineItem>, tail: seq<LineItem>)
    requires |tail| <= 1
    ensures Subtotals(items + tail) == Subtotals(items) + (if tail == [] then 0 else tail[0].subtotal)
    ensures Quantities(items + tail) == Quantities(items) + (if tail == [] then 0 else tail[0].quantity)
  {
    if tail == [] {
      assert items + tail == items;
    } else {
      assert (items + tail)[..|items|] == items;
    }
  }

  lemma {:induction false} SubtotalsGrouped(ids: seq<nat>, cart: seq<nat>, catalog: seq<Product>)
    ensures Subtotals(LineItemsFor(ids, cart, catalog)) == Grouped(ids, cart, PriceWeight(catalog))
  {
    if ids != [] {
      var init, last := ids[..|ids| - 1], ids[|ids| - 1];
      SubtotalsGrouped(init, cart, catalog);
      var before, tail := LineItemsFor(init, cart, catalog), ItemFor(last, cart, catalog);
      assert LineItemsFor(ids, cart, catalog) == before + tail;
      SubtotalsSnoc(before, tail);
      var ms: multiset<nat> := multiset(cart);
      var w := PriceWeight(catalog);
      assert Grouped(ids, cart, w) == Grouped(init, cart, w) + Times(w(last), ms[last]);
      if tail == [] {
        assert w(last) == 0;
        TimesIsProduct(0, ms[last]);
      } else {
        assert tail[0].subtotal == Times(w(last), ms[last]);
      }
    }
  }

  lemma {:induction false} QuantitiesGrouped(ids: seq<nat>, cart: seq<nat>, catalog: seq<Product>)
    ensures Quantities(LineItemsFor(ids, cart, catalog)) == Grouped(ids, cart, ResolvedWeight(catalog))
  {
    if ids != [] {
      var init, last := ids[..|ids| - 1], ids[|ids| - 1];
      QuantitiesGrouped(init, cart, catalog);
      var before, tail := LineItemsFor(init, cart, catalog), ItemFor(last, cart, catalog);
      assert LineItemsFor(ids, cart, catalog) == before + tail;
      SubtotalsSnoc(before, tail);
      var ms: multiset<nat> := multiset(cart);
      var w := ResolvedWeight(catalog);
      assert Grouped(ids, cart, w) == Grouped(init, cart, w) + Times(w(last), ms[last]);
      if tail == [] {
        assert w(last) == 0;
        TimesIsProduct(0, ms[last]);
      } else {
        assert w(last) == 1;
        TimesIsProduct(1, ms[last]);
        assert tail[0].quantity == ms[last];
      }
    }
  }

  /** `getCartTotal` agrees with `cartItems`: the total is the sum of the
      line items' subtotals. */
  lemma CartTotalIsSumOfSubtotals(cart: seq<nat>, catalog: seq<Product>)
    ensures Subtotals(CartLineItems(cart, catalog)) == CartTotal(cart, catalog)
  {
    var ids := SortedKeys(CartIds(cart));
    SubtotalsGrouped(ids, cart, catalog);
    GroupedIsSum(ids, cart, PriceWeight(catalog));
  }

  lemma {:induction false} SumOverOnes(s: seq<nat>, w: nat -> nat)
    requires forall x :: x in s ==> w(x) == 1
    ensures SumOver(s, w) == |s|
  {
    if s != [] {
      assert s[..|s| - 1] + [s[|s| - 1]] == s;
      SumOverOnes(s[..|s| - 1], w);
    }
  }

  /** The line items' quantities add up to the cart entries that resolve;
      when every entry resolves, to `cartItemCount`, the cart's length. */
  lemma SeatsOfLineItems(cart: seq<nat>, catalog: seq<Product>)
    ensures Quantities(CartLineItems(cart, catalog)) == SumOver(cart, ResolvedWeight(catalog))
    ensures (forall id :: id in cart ==> Find(catalog, id).Some?) ==>
      Quantities(CartLineItems(cart, catalog)) == |cart|
  {
    var ids := SortedKeys(CartIds(cart));
    QuantitiesGrouped(ids, cart, catalog);
    GroupedIsSum(ids, cart, ResolvedWeight(catalog));
    if forall id :: id in cart ==> Find(catalog, id).Some? {
      SumOverOnes(cart, ResolvedWeight(catalog));
    }
  }
}
