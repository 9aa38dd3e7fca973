/** The sort step of the catalog projection: the four sort keys, the
    comparator the storefront passes to `Array.prototype.sort`, and that
    sort's meaning (stable, by ECMA-262 since the 2019 edition) as an
    insertion sort, both as a function on sequences and in place on an array. */
module Ordering {
  import opened Text
  import opened Catalog

  datatype SortKey = Subject | Location | Availability | Price

  /** The `sortBy` strings the projection recognises; any other leaves the order alone. */
  function ParseSortKey(sortBy: string): (k: Option<SortKey>)
    ensures k == Some(Subject) <==> sortBy == "subject"
    ensures k == Some(Location) <==> sortBy == "location"
    ensures k == Some(Availability) <==> sortBy == "availability"
    ensures k == Some(Price) <==> sortBy == "price"
  {
    if sortBy == "subject" then Some(Subject)
    else if sortBy == "location" then Some(Location)
    else if sortBy == "availability" then Some(Availability)
    else if sortBy == "price" then Some(Price)
    else None
  }

  /** The value a record is sorted on. */
  datatype KeyValue = Word(w: string) | Amount(n: int)

  function KeyOf(k: SortKey, p: Product): KeyValue
  {
    match k
    case Subject => Word(p.category)
    case Location => Word(p.location)
    case Availability => Amount(p.availableInventory)
    case Price => Amount(p.price)
  }

  /** The ascending comparator: `localeCompare` on the category or location,
      a difference of inventories or prices. */
  function Compare(k: SortKey, a: Product, b: Product): int
  {
    match k
    case Subject => LexCompare(a.category, b.category)
    case Location => LexCompare(a.location, b.location)
    case Availability => a.availableInventory - b.availableInventory
    case Price => a.price - b.price
  }

  /** The comparator of the chosen direction says a may stand before b
      (it returns a non-positive number); descending swaps the operands. */
  predicate InOrder(k: SortKey, asc: bool, a: Product, b: Product)
  {
    if asc then Compare(k, a, b) <= 0 else Compare(k, b, a) <= 0
  }

  lemma CompareFlip(k: SortKey, a: Product, b: Product)
    ensures Compare(k, b, a) == -Compare(k, a, b)
  {
    match k
    case Subject => LexCompareFlip(a.category, b.category);
    case Location => LexCompareFlip(a.location, b.location);
    case Availability =>
    case Price =>
  }

  /** Any two records are in order one way or the other. */
  lemma InOrderTotal(k: SortKey, asc: bool, a: Product, b: Product)
    ensures InOrder(k, asc, a, b) || InOrder(k, asc, b, a)
  {
    CompareFlip(k, a, b);
  }

  lemma InOrderTrans(k: SortKey, asc: bool, a: Product, b: Product, c: Product)
    requires InOrder(k, asc, a, b) && InOrder(k, asc, b, c)
    ensures InOrder(k, asc, a, c)
  {
    match k
    case Subject =>
      if asc { LexCompareTrans(a.category, b.category, c.category); }
      else { LexCompareTrans(c.category, b.category, a.category); }
    case Location =>
      if asc { LexCompareTrans(a.location, b.location, c.location); }
      else { LexCompareTrans(c.location, b.location, a.location); }
    case Availability =>
    case Price =>
  }

  /** In order both ways exactly when the keys are equal, in either direction. */
  lemma InOrderTie(k: SortKey, asc: bool, a: Product, b: Product)
    ensures InOrder(k, asc, a, b) && InOrder(k, asc, b, a) <==> KeyOf(k, a) == KeyOf(k, b)
  {
    CompareFlip(k, a, b);
  }

  predicate SortedBy(s: seq<Product>, k: SortKey, asc: bool)
  {
    forall i, j :: 0 <= i < j < |s| ==> InOrder(k, asc, s[i], s[j])
  }

  /** The records of s whose key is v, in their order in s. */
  function WithKey(s: seq<Product>, k: SortKey, v: KeyValue): seq<Product>
  {
    if s == [] then []
    else WithKey(s[..|s| - 1], k, v) + (if KeyOf(k, s[|s| - 1]) == v then [s[|s| - 1]] else [])
  }

  /** Inserts x into t just after the last record that may stand before it. */
  function Place(t: seq<Product>, x: Product, k: SortKey, asc: bool): seq<Product>
  {
    if t == [] then [x]
    else if InOrder(k, asc, t[|t| - 1], x) then t + [x]
    else Place(t[..|t| - 1], x, k, asc) + [t[|t| - 1]]
  }

  /** Stable sort, as insertion sort: each record in turn is placed into the
      sorted prefix before it. */
  function StableSort(s: seq<Product>, k: SortKey, asc: bool): seq<Product>
  {
    if s == [] then [] else Place(StableSort(s[..|s| - 1], k, asc), s[|s| - 1], k, asc)
  }

  lemma {:induction false} PlacePermutes(t: seq<Product>, x: Product, k: SortKey, asc: bool)
    ensures multiset(Place(t, x, k, asc)) == multiset(t) + multiset{x}
  {
    if t != [] && !InOrder(k, asc, t[|t| - 1], x) {
      var u := t[..|t| - 1];
      PlacePermutes(u, x, k, asc);
      assert t == u + [t[|t| - 1]];
    }
  }

  /** A record that every record of a sorted sequence may precede can go
      at its end. */
  lemma SnocSorted(t: seq<Product>, x: Product, k: SortKey, asc: bool)
    requires SortedBy(t, k, asc)
    requires forall i :: 0 <= i < |t| ==> InOrder(k, asc, t[i], x)
    ensures SortedBy(t + [x], k, asc)
  {
    var r := t + [x];
    forall i, j | 0 <= i < j < |r| ensures InOrder(k, asc, r[i], r[j]) {
      if j < |t| {
        assert r[i] == t[i] && r[j] == t[j];
      }
    }
  }

  /** Every record placed before last in the sorted u + [last] may precede it,
      and so may x when it is not allowed to follow last. */
  lemma PrecedeLast(u: seq<Product>, last: Product, x: Product, p: seq<Product>, k: SortKey, asc: bool)
    requires SortedBy(u + [last], k, asc)
    requires !InOrder(k, asc, last, x)
    requires multiset(p) == multiset(u) + multiset{x}
    ensures forall i :: 0 <= i < |p| ==> InOrder(k, asc, p[i], last)
  {
    InOrderTotal(k, asc, last, x);
    var t := u + [last];
    forall i | 0 <= i < |p| ensures InOrder(k, asc, p[i], last) {
      assert p[i] in multiset(p);
      if p[i] != x {
        assert p[i] in multiset(u);
        var m :| 0 <= m < |u| && u[m] == p[i];
        assert t[m] == p[i] && t[|u|] == last;
      }
    }
  }

  lemma {:induction false} PlaceSorted(t: seq<Product>, x: Product, k: SortKey, asc: bool)
    requires SortedBy(t, k, asc)
    ensures SortedBy(Place(t, x, k, asc), k, asc)
  {
    if t == [] {
    } else if InOrder(k, asc, t[|t| - 1], x) {
      forall i | 0 <= i < |t| ensures InOrder(k, asc, t[i], x) {
        if i < |t| - 1 {
          InOrderTrans(k, asc, t[i], t[|t| - 1], x);
        }
      }
      SnocSorted(t, x, k, asc);
    } else {
      var u, last := t[..|t| - 1], t[|t| - 1];
      assert t == u + [last];
      assert SortedBy(u, k, asc) by {
        forall i, j | 0 <= i < j < |u| ensures InOrder(k, asc, u[i], u[j]) {
          assert u[i] == t[i] && u[j] == t[j];
        }
      }
      PlaceSorted(u, x, k, asc);
      PlacePermutes(u, x, k, asc);
      var p := Place(u, x, k, asc);
      PrecedeLast(u, last, x, p, k, asc);
      SnocSorted(p, last, k, asc);
    }
  }

  lemma WithKeySnoc(s: seq<Product>, e: Product, k: SortKey, v: KeyValue)
    ensures WithKey(s + [e], k, v) == WithKey(s, k, v) + (if KeyOf(k, e) == v then [e] else [])
  {
    assert (s + [e])[..|s|] == s;
  }

  /** Records whose key differs from x's keep their relative order around x,
      and x joins the records of its own key after all of them. */
  lemma {:induction false} PlaceStable(t: seq<Product>, x: Product, k: SortKey, asc: bool, v: KeyValue)
    ensures WithKey(Place(t, x, k, asc), k, v) ==
      WithKey(t, k, v) + (if KeyOf(k, x) == v then [x] else [])
  {
    if t == [] {
      WithKeySnoc([], x, k, v);
      assert [] + [x] == [x];
    } else if InOrder(k, asc, t[|t| - 1], x) {
      WithKeySnoc(t, x, k, v);
    } else {
      var u, last := t[..|t| - 1], t[|t| - 1];
      PlaceStable(u, x, k, asc, v);
      InOrderTie(k, asc, last, x);
      InOrderTotal(k, asc, last, x);
      SwapPast(u, last, x, Place(u, x, k, asc), k, v);
    }
  }

  /** A record whose key differs from x's can move across x without
      changing any key's subsequence. */
  lemma SwapPast(u: seq<Product>, last: Product, x: Product, p: seq<Product>, k: SortKey, v: KeyValue)
    requires KeyOf(k, last) != KeyOf(k, x)
    requires WithKey(p, k, v) == WithKey(u, k, v) + (if KeyOf(k, x) == v then [x] else [])
    ensures WithKey(p + [last], k, v) ==
      WithKey(u + [last], k, v) + (if KeyOf(k, x) == v then [x] else [])
  {
    WithKeySnoc(p, last, k, v);
    WithKeySnoc(u, last, k, v);
    var before := WithKey(u, k, v);
    if KeyOf(k, x) == v {
      calc {
        WithKey(p + [last], k, v);
        WithKey(p, k, v);
        before + [x];
        WithKey(u + [last], k, v) + [x];
      }
    } else {
      assert WithKey(p, k, v) == before;
    }
  }

  /** The sorted sequence is a permutation of the input. */
  lemma {:induction false} SortPermutes(s: seq<Product>, k: SortKey, asc: bool)
    ensures multiset(StableSort(s, k, asc)) == multiset(s)
  {
    if s != [] {
      var u := s[..|s| - 1];
      SortPermutes(u, k, asc);
      PlacePermutes(StableSort(u, k, asc), s[|s| - 1], k, asc);
      assert s == u + [s[|s| - 1]];
    }
  }

  /** The sorted sequence is ordered by the chosen key in the chosen direction. */
  lemma {:induction false} SortOrders(s: seq<Product>, k: SortKey, asc: bool)
    ensures SortedBy(StableSort(s, k, asc), k, asc)
  {
    if s != [] {
      SortOrders(s[..|s| - 1], k, asc);
      PlaceSorted(StableSort(s[..|s| - 1], k, asc), s[|s| - 1], k, asc);
    }
  }

  /** Stability: the records sharing any one key value appear in the sorted
      sequence exactly as, and in the order, they appear in the input. */
  lemma {:induction false} SortStable(s: seq<Product>, k: SortKey, asc: bool, v: KeyValue)
    ensures WithKey(StableSort(s, k, asc), k, v) == WithKey(s, k, v)
  {
    if s != [] {
      SortStable(s[..|s| - 1], k, asc, v);
      PlaceStable(StableSort(s[..|s| - 1], k, asc), s[|s| - 1], k, asc, v);
    }
  }

  /** Sorting an already ordered sequence changes nothing; so sorting twice
      is sorting once. */
  lemma {:induction false} SortKeepsSorted(s: seq<Product>, k: SortKey, asc: bool)
    requires SortedBy(s, k, asc)
    ensures StableSort(s, k, asc) == s
  {
    if s != [] {
      var u := s[..|s| - 1];
      assert SortedBy(u, k, asc);
      SortKeepsSorted(u, k, asc);
      if |u| > 0 {
        assert InOrder(k, asc, u[|u| - 1], s[|s| - 1]);
      }
      assert u + [s[|s| - 1]] == s;
    }
  }

  lemma SortIdempotent(s: seq<Product>, k: SortKey, asc: bool)
    ensures StableSort(StableSort(s, k, asc), k, asc) == StableSort(s, k, asc)
  {
    SortOrders(s, k, asc);
    SortKeepsSorted(StableSort(s, k, asc), k, asc);
  }

  lemma {:induction false} WithKeyMembers(s: seq<Product>, k: SortKey, v: KeyValue, e: Product)
    ensures e in WithKey(s, k, v) <==> e in s && KeyOf(k, e) == v
  {
    if s != [] {
      var u, last := s[..|s| - 1], s[|s| - 1];
      WithKeyMembers(u, k, v, e);
      assert s == u + [last];
    }
  }

  /** The last record of a sorted sequence may follow every one of its records. */
  lemma LastFollowsAll(t: seq<Product>, k: SortKey, asc: bool, e: Product)
    requires SortedBy(t, k, asc) && t != [] && e in t
    ensures InOrder(k, asc, e, t[|t| - 1])
  {
    var i :| 0 <= i < |t| && t[i] == e;
    if i == |t| - 1 {
      InOrderTotal(k, asc, e, e);
    }
  }

  lemma SortedInit(t: seq<Product>, k: SortKey, asc: bool)
    requires SortedBy(t, k, asc) && t != []
    ensures SortedBy(t[..|t| - 1], k, asc)
  {
    var u := t[..|t| - 1];
    forall i, j | 0 <= i < j < |u| ensures InOrder(k, asc, u[i], u[j]) {
      assert u[i] == t[i] && u[j] == t[j];
    }
  }

  /** A nonempty sequence has records with its last record's key. */
  lemma WithKeyOfLast(t: seq<Product>, k: SortKey, v: KeyValue)
    requires t != [] && v == KeyOf(k, t[|t| - 1])
    ensures WithKey(t, k, v) == WithKey(t[..|t| - 1], k, v) + [t[|t| - 1]]
  {
  }

  lemma SnocInjective(a: seq<Product>, x: Product, b: seq<Product>, y: Product)
    requires a + [x] == b + [y]
    ensures a == b && x == y
  {
    assert |a| == |b|;
    assert x == (a + [x])[|a|] && y == (b + [y])[|b|];
    assert a == (a + [x])[..|a|] && b == (b + [y])[..|b|];
  }

  /** Two nonempty sorted sequences that list the records of every key in
      the same order end in the same record. */
  lemma SameLast(t: seq<Product>, r: seq<Product>, k: SortKey, asc: bool)
    requires SortedBy(t, k, asc) && SortedBy(r, k, asc) && t != [] && r != []
    requires forall v :: WithKey(t, k, v) == WithKey(r, k, v)
    ensures KeyOf(k, t[|t| - 1]) == KeyOf(k, r[|r| - 1])
  {
    var x, y := t[|t| - 1], r[|r| - 1];
    WithKeyOfLast(r, k, KeyOf(k, y));
    assert WithKey(t, k, KeyOf(k, y)) == WithKey(r, k, KeyOf(k, y));
    WithKeyMembers(t, k, KeyOf(k, y), y);
    LastFollowsAll(t, k, asc, y);
    WithKeyOfLast(t, k, KeyOf(k, x));
    assert WithKey(t, k, KeyOf(k, x)) == WithKey(r, k, KeyOf(k, x));
    WithKeyMembers(r, k, KeyOf(k, x), x);
    LastFollowsAll(r, k, asc, x);
    InOrderTie(k, asc, x, y);
  }

  /** Dropping a common last record keeps the records of every key in the same order. */
  lemma DropLast(t0: seq<Product>, x: Product, r0: seq<Product>, y: Product, k: SortKey)
    requires KeyOf(k, x) == KeyOf(k, y)
    requires forall v :: WithKey(t0 + [x], k, v) == WithKey(r0 + [y], k, v)
    ensures x == y
    ensures forall w :: WithKey(t0, k, w) == WithKey(r0, k, w)
  {
    var v := KeyOf(k, x);
    WithKeySnoc(t0, x, k, v);
    WithKeySnoc(r0, y, k, v);
    assert WithKey(t0 + [x], k, v) == WithKey(r0 + [y], k, v);
    SnocInjective(WithKey(t0, k, v), x, WithKey(r0, k, v), y);
    forall w ensures WithKey(t0, k, w) == WithKey(r0, k, w) {
      if w != v {
        WithKeySnoc(t0, x, k, w);
        WithKeySnoc(r0, y, k, w);
        assert WithKey(t0, k, w) + [] == WithKey(t0, k, w);
        assert WithKey(r0, k, w) + [] == WithKey(r0, k, w);
        assert WithKey(t0 + [x], k, w) == WithKey(r0 + [y], k, w);
      }
    }
  }

  /** Two sorted sequences that list the records of every key in the same
      order are equal: sortedness and stability fix the result. */
  lemma {:induction false} SortedUnique(t: seq<Product>, r: seq<Product>, k: SortKey, asc: bool)
    requires SortedBy(t, k, asc) && SortedBy(r, k, asc)
    requires forall v :: WithKey(t, k, v) == WithKey(r, k, v)
    ensures t == r
    decreases |t| + |r|
  {
    if t == [] && r != [] {
      WithKeyOfLast(r, k, KeyOf(k, r[|r| - 1]));
    } else if t != [] && r == [] {
      WithKeyOfLast(t, k, KeyOf(k, t[|t| - 1]));
    } else if t != [] {
      var t0, x := t[..|t| - 1], t[|t| - 1];
      var r0, y := r[..|r| - 1], r[|r| - 1];
      assert t == t0 + [x] && r == r0 + [y];
      SameLast(t, r, k, asc);
      DropLast(t0, x, r0, y, k);
      SortedInit(t, k, asc);
      SortedInit(r, k, asc);
      SortedUnique(t0, r0, k, asc);
    }
  }

  /** Any sorted arrangement of s that keeps the records of each key in
      their order in s is the insertion sort of s: whatever stable algorithm
      the engine uses, it produces `StableSort`. */
  lemma SortIsUnique(s: seq<Product>, t: seq<Product>, k: SortKey, asc: bool)
    requires SortedBy(t, k, asc)
    requires forall v :: WithKey(t, k, v) == WithKey(s, k, v)
    ensures t == StableSort(s, k, asc)
  {
    SortOrders(s, k, asc);
    forall v ensures WithKey(t, k, v) == WithKey(StableSort(s, k, asc), k, v) {
      SortStable(s, k, asc, v);
    }
    SortedUnique(t, StableSort(s, k, asc), k, asc);
  }

  /** What the sort promises: a permutation, ordered by the comparator,
      and stable (records of equal key keep their order), in either direction. */
  lemma SortSpec(s: seq<Product>, k: SortKey, asc: bool)
    ensures multiset(StableSort(s, k, asc)) == multiset(s)
    ensures SortedBy(StableSort(s, k, asc), k, asc)
    ensures forall v :: WithKey(StableSort(s, k, asc), k, v) == WithKey(s, k, v)
  {
    SortPermutes(s, k, asc);
    SortOrders(s, k, asc);
    forall v ensures WithKey(StableSort(s, k, asc), k, v) == WithKey(s, k, v) {
      SortStable(s, k, asc, v);
    }
  }

  /** Where the insertion loop stops: x goes in at j when the record before j
      may precede it and none from j on may. */
  lemma {:induction false} PlaceAt(t: seq<Product>, x: Product, k: SortKey, asc: bool, j: nat)
    requires j <= |t|
    requires j > 0 ==> InOrder(k, asc, t[j - 1], x)
    requires forall m :: j <= m < |t| ==> !InOrder(k, asc, t[m], x)
    ensures Place(t, x, k, asc) == t[..j] + [x] + t[j..]
  {
    if j < |t| {
      var u := t[..|t| - 1];
      PlaceAt(u, x, k, asc, j);
      assert t[..j] == u[..j] && t[j..] == u[j..] + [t[|t| - 1]];
    }
  }

  /** One step of the insertion sort: a[i] moves left past every record
      of the sorted prefix a[..i] that may not precede it. */
  method InsertStep(a: array<Product>, i: nat, k: SortKey, asc: bool)
    requires i < a.Length
    modifies a
    ensures a[..] == Place(old(a[..i]), old(a[i]), k, asc) + old(a[i + 1..])
  {
    ghost var t := a[..i];
    var x := a[i];
    var j := i;
    while j > 0 && !InOrder(k, asc, a[j - 1], x)
      invariant 0 <= j <= i
      invariant a[..j] == t[..j]
      invariant a[j + 1..i + 1] == t[j..]
      invariant a[i + 1..] == old(a[i + 1..])
      invariant forall m :: j <= m < i ==> !InOrder(k, asc, t[m], x)
    {
      a[j] := a[j - 1];
      j := j - 1;
    }
    a[j] := x;
    PlaceAt(t, x, k, asc, j);
    assert a[..i + 1] == a[..j] + [x] + a[j + 1..i + 1];
    assert a[..] == a[..i + 1] + a[i + 1..];
  }

  /** The insertion sort of the first i + 1 records places the (i+1)-th
      record into the sort of the first i. */
  lemma SortPrefix(s: seq<Product>, i: nat, k: SortKey, asc: bool)
    requires i < |s|
    ensures StableSort(s[..i + 1], k, asc) == Place(StableSort(s[..i], k, asc), s[i], k, asc)
    ensures s[i..] == [s[i]] + s[i + 1..]
  {
    assert s[..i + 1][..i] == s[..i];
  }

  lemma {:induction false} SortLength(s: seq<Product>, k: SortKey, asc: bool)
    ensures |StableSort(s, k, asc)| == |s|
  {
    SortPermutes(s, k, asc);
    assert |multiset(StableSort(s, k, asc))| == |multiset(s)|;
  }

  /** One step of the insertion sort keeps "the first i records sorted,
      the rest as they were". */
  lemma SortStep(before: seq<Product>, after: seq<Product>, s: seq<Product>, i: nat, k: SortKey, asc: bool)
    requires i < |s| == |before| && before == StableSort(s[..i], k, asc) + s[i..]
    requires after == Place(before[..i], before[i], k, asc) + before[i + 1..]
    ensures after == StableSort(s[..i + 1], k, asc) + s[i + 1..]
  {
    SortLength(s[..i], k, asc);
    SortPrefix(s, i, k, asc);
    assert before == StableSort(s[..i], k, asc) + [s[i]] + s[i + 1..];
  }

  /** The callback sort of the projection, in place on the array it is given. */
  method SortInPlace(a: array<Product>, k: SortKey, asc: bool)
    modifies a
    ensures a[..] == StableSort(old(a[..]), k, asc)
  {
    ghost var s := a[..];
    var i := 0;
    while i < a.Length
      invariant 0 <= i <= a.Length
      invariant a[..] == StableSort(s[..i], k, asc) + s[i..]
    {
      ghost var before := a[..];
      InsertStep(a, i, k, asc);
      SortStep(before, a[..], s, i, k, asc);
      i := i + 1;
    }
    assert s[..a.Length] == s;
    assert a[..] == StableSort(s, k, asc) + [];
  }
}
