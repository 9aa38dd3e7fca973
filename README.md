# Online Classes storefront: view-model model

This project models the view-model of a small Vue storefront for booking
classes (`app.js`). It covers the following parts.

- **The cart.** A sequence of class ids, one entry per booked seat. Adding
  appends an id. `removeFromCart` splices out the first entry for an id.
  `removeAllFromCart` filters out every entry for an id.
- **Seat counting and the inventory guard.** `cartCount` and
  `canAddToCart`.
- **The page switch.** `showCheckout`, `backToClasses` and the order form's
  `submitForm`. The messages these show with `alert` are returned as an
  `Alert` value.
- **The catalog projection `filteredProducts`.** A case-insensitive
  substring filter over title, category and location. Then a stable sort
  by subject (category), location, availability or price, ascending or
  descending.
- **The cart summaries.** `getProduct`; `getCartTotal`; `cartItemCount`;
  and `cartItems`, which groups the cart by id into lines of
  product, quantity and subtotal.

Modules follow the structure of the program:

- `Text`: lower-casing, substring search and string comparison.
- `Catalog`: the class record, lookup by id, the search filter.
- `Ordering`: the four sort keys, the comparator, and the stable sort, both
  as a function and in place on an array.
- `Cart`: the cart as a sequence of ids.
- `Summary`: line items and totals.
- `Webstore`: the `ViewModel` class, whose fields are the Vue `data` fields
  and whose methods are the Vue methods and computed values.

Modelling choices:

- Prices are whole cents (`nat`). `toFixed(2)` is not modelled, so
  `getCartTotal` and the subtotals are numbers, not strings.
- `price * quantity` is written `Times(price, quantity)`, repeated
  addition; `Summary.TimesIsProduct` proves it equals the product.
- `Array.prototype.sort` is stable (ECMA-262, since the 2019 edition). It is
  modelled as insertion sort. `Ordering.SortIsUnique` proves that every
  sorted, stable arrangement equals this one. The model therefore does not
  depend on which stable algorithm the engine uses.
- `for (let id in itemMap)` visits integer keys in ascending numeric order.
  The model picks the smallest unvisited key at each step.
  `Summary.SortedKeys` is the order that results.
- With an empty query, `filteredProducts` sorts `this.products` itself
  (app.js:140 makes `filtered` the catalog array). The model keeps that
  in-place sort on the catalog array.

## Model

| member | source | states |
|---|---|---|
| Text.Lower | app.js:143-148 | `toLowerCase` on ASCII: the same length, capitals shifted to lower case, every other character kept |
| Text.Contains | app.js:146-148 | `includes`: true exactly when the query occurs as a contiguous block at some position |
| Text.LexCompare | app.js:157-161 | `localeCompare` without locale rules: -1, 0 or 1, and 0 exactly for equal strings |
| Text.LexCompareFlip | app.js:157-161 | swapping the operands negates the comparison (the comparator is antisymmetric) |
| Text.LexCompareTrans | app.js:157-161 | the comparison is transitive, so the string comparators are consistent orders |
| Catalog.Find | app.js:117-119 | `find`: the first record with the id when one exists; none exactly when no record has the id |
| Catalog.FindUnique | app.js:117-119 | with unique ids, looking up a record's own id returns that record |
| Catalog.Filter | app.js:144-150 | the filter keeps a record exactly when it is in the catalog and its lower-cased title, category or location contains the query |
| Catalog.FilterAppend | app.js:144-150 | the filter keeps catalog order: it distributes over concatenation |
| Catalog.FilterKeepsAll | app.js:144-150 | a catalog whose every record matches comes back unchanged |
| Catalog.EmptyQueryKeepsAll | app.js:140-151 | skipping the filter for an empty query gives the same records as filtering with it |
| Ordering.ParseSortKey | app.js:155-171 | each of the four `sortBy` strings selects exactly its key; any other string selects none |
| Ordering.CompareFlip | app.js:156-170 | swapping the records negates the comparator for every key |
| Ordering.InOrderTotal | app.js:156-170 | in either direction, any two records are in order one way or the other |
| Ordering.InOrderTrans | app.js:156-170 | "may stand before" is transitive for every key and direction |
| Ordering.InOrderTie | app.js:156-170 | two records are in order both ways exactly when their keys are equal |
| Ordering.PlacePermutes | app.js:156-170 | one insertion adds exactly the inserted record |
| Ordering.PlaceSorted | app.js:156-170 | inserting into a sorted sequence keeps it sorted |
| Ordering.PlaceStable | app.js:156-170 | inserting records of one key after those already placed keeps each key's records in order |
| Ordering.SortPermutes | app.js:156-170 | the sort is a permutation of its input |
| Ordering.SortOrders | app.js:156-170 | the sort's output is ordered by the key in the chosen direction |
| Ordering.SortStable | app.js:156-170 | records with equal keys keep their input order, ascending and descending alike |
| Ordering.SortSpec | app.js:153-171 | the three sort promises together: permutation, ordered, stable |
| Ordering.SortKeepsSorted | app.js:156-170 | an already sorted input comes back unchanged |
| Ordering.SortIdempotent | app.js:156-170 | sorting twice by the same key gives the same as sorting once |
| Ordering.SortedUnique | app.js:156-170 | two sorted sequences listing each key's records in the same order are equal |
| Ordering.SortIsUnique | app.js:156-170 | any sorted, stable arrangement of the input is the modelled sort, whatever stable algorithm produces it |
| Ordering.InsertStep | app.js:156-170 | one pass of the in-place insertion moves a[i] into the sorted prefix as the insertion function does, and leaves the rest alone |
| Ordering.SortInPlace | app.js:156-170 | the in-place sort leaves the array holding the stable sort of its old contents |
| Cart.Count | app.js:63-65 | `filter(...).length`: the number of entries for the id, its multiplicity in the cart |
| Cart.CountSnoc | app.js:59-65 | appending an id raises its count by one and leaves every other id's count alone |
| Cart.IndexOf | app.js:93 | `indexOf`: the first position holding the id, or -1 exactly when the id is absent |
| Cart.RemoveFirst | app.js:92-97 | one entry fewer for the id when present, every other entry kept, and no change when absent |
| Cart.SpliceRemovesFirst | app.js:93-95 | splicing out the entry at `indexOf` removes exactly the first occurrence |
| Cart.RemoveFirstKeepsOthers | app.js:92-97 | removing one seat leaves the other ids' entries in order and multiplicity |
| Cart.Without | app.js:99-101 | no entry for the id remains and every other id keeps its multiplicity |
| Cart.WithoutAppend | app.js:100 | removing an id keeps the others in their order: it distributes over concatenation |
| Cart.AppendKeepsOthers | app.js:59-61 | adding a seat for an id leaves the entries of every other id exactly as they were |
| Cart.WithoutIdempotent | app.js:99-101 | removing every seat for an id twice is the same as once |
| Cart.GuardedAddKeepsInventory | app.js:59-69 | adding only when `canAddToCart` holds keeps every record's booked seats within its inventory |
| Cart.RemovalKeepsInventory | app.js:92-101 | removing seats never takes a record over its inventory |
| Summary.TimesIsProduct | app.js:194 | the subtotal written as repeated addition equals price times quantity |
| Summary.SortedKeys | app.js:188 | the `for...in` visiting order: ascending, and holding exactly the keys |
| Summary.ItemFor | app.js:189-196 | one line for an id that resolves, none otherwise; the line carries the id's record, seat count and price times count |
| Summary.LineItemsAgree | app.js:176-199 | every line carries the record its id resolves to, that id's seat count and price times count |
| Summary.LineItemsAscending | app.js:188-197 | lines for ascending ids come in ascending id order |
| Summary.LineItemsCover | app.js:188-197 | a visited id has a line exactly when it resolves |
| Summary.CartLineItemsSpec | app.js:176-199 | `cartItems`: lines agree with count and price, their ids are cart ids in ascending order with none twice, and a cart id has a line exactly when it resolves |
| Summary.GroupedIsSum | app.js:179-185 | grouping entries by id and weighting by group size gives the per-entry sum |
| Summary.CartTotalIsSumOfSubtotals | app.js:121-130 | `getCartTotal` equals the sum of the `cartItems` subtotals |
| Summary.SeatsOfLineItems | app.js:135-137 | the line quantities add up to the entries that resolve, and to `cartItemCount` when all resolve |
| Webstore.ViewModel.constructor | app.js:6-28 | the initial data: class list shown, empty catalog and cart, sorted by subject ascending, empty name fields |
| Webstore.ViewModel.Load | app.js:51-53 | a fetched catalog replaces the current one |
| Webstore.ViewModel.AddToCart | app.js:59-61 | the cart becomes the old cart with the record's id appended |
| Webstore.ViewModel.CartCount | app.js:63-65 | the multiplicity of the id in the cart |
| Webstore.ViewModel.CanAddToCart | app.js:67-69 | true exactly when the booked seats are fewer than the record's inventory |
| Webstore.ViewModel.ShowCheckout | app.js:71-77 | toggles the page unless the class list is shown and the cart is empty, which shows the empty-cart message instead |
| Webstore.ViewModel.BackToClasses | app.js:79-81 | shows the class list |
| Webstore.ViewModel.RemoveFromCart | app.js:92-97 | the cart loses its first entry for the id, or is unchanged when none |
| Webstore.ViewModel.RemoveAllFromCart | app.js:99-101 | the cart loses every entry for the id and keeps the rest in order |
| Webstore.ViewModel.SubmitForm | app.js:103-115 | an empty cart changes nothing; both names given empties the cart and shows the class list; otherwise nothing changes; each with its message |
| Webstore.ViewModel.GetProduct | app.js:117-119 | the first catalog record with the id, or none exactly when no record has it |
| Webstore.ViewModel.GetCartTotal | app.js:121-130 | the loop's total is the sum of the resolved entries' prices |
| Webstore.ViewModel.CartItemCount | app.js:135-137 | the number of seats booked |
| Webstore.ViewModel.FilteredProducts | app.js:139-174 | the result is the filtered catalog, arranged by key and direction; with an empty query it is the catalog array itself, sorted in place; otherwise a fresh array, catalog untouched |
| Webstore.ViewModel.FilteredProductsCopy | app.js:139-174 | the same records in the same order, always in a fresh array, catalog untouched |
| Webstore.ViewModel.SeatsById | app.js:177-185 | the map's keys are the distinct cart ids, each mapped to its seat count |
| Webstore.ViewModel.LineFor | app.js:189-196 | the line for one id with its seat count, or none when the id does not resolve |
| Webstore.ViewModel.NextLine | app.js:188-196 | picks the smallest unvisited id and its line |
| Webstore.ViewModel.CartItems | app.js:176-199 | the lines built equal the specified `cartItems`, whose properties `Summary.CartLineItemsSpec` states |
| Webstore.Arrange | app.js:153-173 | a permutation; an unknown `sortBy` keeps the order; a known one orders stably by its key, ascending only for "ascending" |
| Webstore.ProjectionKeepsMatches | app.js:139-174 | the projection holds exactly the matching records; an empty query gives the whole catalog arranged |
| Webstore.EmptyQuerySortReordersCatalog | app.js:140-158 | for every catalog not already in subject order, the empty-query projection by subject, ascending, differs from the catalog |
| Webstore.EmptyQuerySortExample | app.js:140-158 | the catalog [Music class, Art class] is not in subject order and its projection is [Art class, Music class] |
| Webstore.EmptyQueryReordersViewModel | app.js:140-158 | after loading [Music class, Art class] into a fresh view-model, evaluating the projection leaves the view-model's own catalog array as [Art class, Music class] |

## Left out

- `mounted` (app.js:48-55): fetching the catalog is network I/O. Only its
  effect, replacing `products`, is modelled, as `ViewModel.Load`.
- `alert` is not shown. The methods return the message as an `Alert` value.
- `handleSignIn` (app.js:83-90) and the sign-in fields: a fixed credential
  comparison that none of the modelled operations read.
- `sitename`, `counties` and the address, city, zip and county fields of
  the order (app.js:7, 21-44): presentation data that no modelled operation reads.
- The description, image and rating of a class record: display data that no operation reads.
- Floating-point prices and `toFixed(2)` (app.js:129, 194): prices are whole
  cents and totals are numbers, not formatted strings.
- Text.LexCompare: plain code-point order stands in for `localeCompare`.
  Locale collation rules are not modelled.
- Text.Lower: only ASCII capitals are lower-cased. Unicode case mappings of
  `toLowerCase` are not modelled.
- Summary.SortedKeys: ids are natural numbers. `for...in` visits keys in
  ascending numeric order only for array-index keys (below 2^32 - 1). It
  visits other keys in insertion order, and the model does not capture
  that. The string keys of `itemMap` and `parseInt` are modelled by using
  the numbers directly.
- Vue reactivity: re-evaluating computed values, re-rendering, and the
  template bindings are not modelled.
- products.js: static catalog data, not part of this model.
- Well-formed records only: `Product` models only records that carry
  every field the operations read. In app.js a record without `title`, `category` or
  `location` makes `toLowerCase` or `localeCompare` throw (app.js:146-148,
  157, 161), one without `price` makes the total NaN (app.js:126), and one
  without `availableInventory` makes `canAddToCart` false (app.js:68).
- A computed value is expected to leave the data it reads untouched. With
  an empty query the code sorts the catalog array in place. The model
  follows the code; see Findings.

## Findings

| source | as written | input that shows it | evidently intended | confidence | as-written member | corrected member |
|---|---|---|---|---|---|---|
| app.js:140-158 | with an empty query, `filtered` is `this.products`, so the sort reorders the catalog itself inside a computed value | empty search, catalog [Music class, Art class], sort by subject ascending: the catalog becomes [Art, Music] | the projection returns a sorted copy and never reorders the catalog | medium, not executed | Webstore.EmptyQueryReordersViewModel | Webstore.ViewModel.FilteredProductsCopy |

An in-place sort does not change which records are shown or their order
for that evaluation; `ViewModel.FilteredProducts` and
`ViewModel.FilteredProductsCopy` return the same contents. The difference
shows later: the catalog's order, and with it the tie order of a later
sort by another key, depends on which sorts ran before.
