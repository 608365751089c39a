# star-burger: order matching, geocode cache and order intake in Dafny

This project models the core of the star-burger food-delivery backend, a
Django application. It has five parts:

- **The capability matcher and order queries** of `foodcartapp/models.py`:
  - `ProductQuerySet.available`;
  - `OrderQuerySet.with_amount`, which computes an order's sum of price × quantity in integer cents;
  - `OrderQuerySet.with_are_able_to_cook_restaurants`, which keeps the open orders that have an available item, orders them by responsible restaurant, and gives each the restaurants that can cook every item.
- **The geocode cache** of `places/`:
  - the Place table, whose address is unique;
  - the parsing tail of `fetch_coordinates`;
  - the batch resolver `get_serialized_places_and_coordinates`. It preloads stored rows, asks the geocoder about every other batch entry, stores found coordinates with `get_or_create` and returns a dictionary from address to coordinates.
- **The manager pages** of `restaurateur/views.py`:
  - `view_products` builds a grid of availability flags, one row per product and one column per restaurant, the columns in name order;
  - `view_orders` gives each selected order its amount and its capable restaurants, stably sorted by distance to the order's address.
- **The order intake** `register_order` of `foodcartapp/views.py`. It checks the payload in the view's own order (blank fields, list type, product-id bound, phone number), then creates one Order and tries to create one OrderItem per entry. As written, the first item fails (see Findings), so the Order row is stored without items.
- **Data migration 0049**, which clears `called_at` and `delivered_at` on every order in place.

Modules:

- `Records` holds the record shapes and the declared table constraints.
- `Collections` holds a stable insertion sort (the model of Python's `sorted`), string order and distinctness.
- `Queries` holds the querysets.
- `Places` holds the Place table as a class, the parsing functions and the resolver method.
- `Restaurateur` holds both manager views.
- `OrderStore` holds the Order and OrderItem tables as a class.
- `Intake` holds `register_order`.
- `Migration0049` holds the migration.

Several things become parameters:

- The HTTP geocoder: `geocoder(address, n)` is the answer to the n-th call of a run.
- The geodesic distance: a function `dist` on the resolver's entries.
- `phonenumbers.parse` with `is_valid_number`: a function from text to `Unparseable | Parsed(valid)`.
- The clock: `now`.

Each imperative piece of the source is a method proved against specification functions:

- `Resolve` is tied to `Misses` (the entries sent to the geocoder) and `ResolvedAs` (what each address maps to).
- `RankOrder` is tied to `Details` and the sort.
- `StoreItems` is tied to `PricedItems` and `FirstMissing`.
- `ClearCallAndDeliveryTimes` is tied to `ClearedTimes`.

The properties are then proved as lemmas about those functions.

In several places the code behaves differently from what a reader might expect, and the model follows the code:

- **Exceptions escape the resolver.** A failed HTTP call or a `pos` that does not split into exactly two parts raises. A `get_or_create` whose coordinates differ from the row an earlier lookup of the same address stored also raises, on the unique address. Nothing catches either, so the resolver aborts and the page is not shown. Such failures do not become None.
- **Repeated addresses are fetched again.** The batch is not deduplicated, so an address missing from the table is fetched once per occurrence.
- **Capability ignores availability.** The per-item restaurant lists read every menu item, whatever its availability flag.
- **Unresolved distances sort first.** Unresolved pairs get distance 0 and so come first in the ranking.
- **A cached row with NULL coordinates still counts as resolved.** A list is truthy, so its distance is computed, not replaced by 0.

## Model

| member | source | states |
|---|---|---|
| Queries.Available | foodcartapp/models.py:34-40 | a product is returned iff it is in the table and some menu item for it is available |
| Queries.Amount | foodcartapp/models.py:131-135 | the annotation is NULL iff the order has no items; otherwise it is the sum of price × quantity over the order's items |
| Queries.AmountOfAppended | foodcartapp/models.py:131-135 | items appended for a new order id make its amount exactly their own total |
| Queries.SelectedOrderMember | foodcartapp/models.py:138-141 | an order is selected iff it is stored, is Unprocessed or In_procces, and has an item whose product has an available menu item; a selected order has at least one item, so the intersection never gets an empty argument list |
| Queries.SelectedOrdersFacts | foodcartapp/models.py:138-142 | the selection is sorted by `responsible_restaurant_id` and is a permutation of the filtered orders |
| Queries.IntersectAllMember | foodcartapp/models.py:152 | a restaurant is in `set.intersection(*lists)` iff it is in every list |
| Queries.CommonMeansCanCookAll | foodcartapp/models.py:144-152 | when each list holds the restaurants with a menu item for that item's product, the intersection is exactly the restaurants that serve every product of the order |
| Queries.SetToSeq | foodcartapp/models.py:152 | `list(set)` has no repeats and the same members as the set |
| Queries.AbleToCook | foodcartapp/models.py:144-153 | the nested loops and the intersection give a repeat-free list holding exactly the restaurants that have a menu item, of any availability, for every item's product |
| Queries.WithAbleToCookRestaurants | foodcartapp/models.py:137-154 | one annotated order per selected order, in selection order, each with a repeat-free list of exactly the restaurants able to cook all its items |
| Collections.InsertByPermutes | restaurateur/views.py:127 | inserting one element into a list by key adds exactly that element |
| Collections.SortBySorted | restaurateur/views.py:127 | the sort by key is ordered by a total order and is a permutation of its input |
| Collections.SortByStable | restaurateur/views.py:127 | the elements sharing any one key keep their relative order (the sort is stable) |
| Collections.DistinctPermutation | restaurateur/views.py:125-128 | a permutation of a repeat-free list is repeat-free |
| Collections.StringLeTotal | restaurateur/views.py:72 | the code-point order on names is total, so sorting by name is well defined |
| Places.PlaceTable.GetOrCreate | places/views.py:37-41 | an absent address gets a new row with the given lon, lat and timestamp; an existing row is never changed and is returned iff its coordinates match, otherwise the unique address clashes |
| Places.SplitThenJoin | places/views.py:21 | the parts of `str.split(" ")` contain no space, and joining them with single spaces gives back the text |
| Places.JoinThenSplit | places/views.py:21 | splitting space-free parts joined by single spaces gives back the parts |
| Places.ParsePosOfPair | places/views.py:21-22 | `pos` made of two space-free texts joined by a space parses to that pair, lon first |
| Places.ParsePosFound | places/views.py:21-22 | a parsed pair is space-free and rebuilds `pos`; every other `pos` fails the unpacking |
| Places.FetchFound | places/views.py:16-22 | `fetch_coordinates` gives `(lon, lat)` iff the first feature's `pos` is `lon + " " + lat` with both parts space-free; it gives None iff there are no features |
| Places.MissesMember | places/views.py:28-33 | an address is sent to the geocoder iff it is in the batch and not preloaded |
| Places.MissesCount | places/views.py:28-33 | an address missing from the table that occurs k times in the batch is sent to the geocoder k times; a preloaded address is never sent |
| Places.LookUp | places/views.py:32-42 | one geocoder call: a found pair is stored and recorded as Fresh, None is recorded as Missing with no write; the call faults exactly when `Places.FaultOf` says so: the fetch raises, or it finds coordinates other than those the address's row already holds |
| Places.FirstFoundMeaning | places/views.py:33-41 | the coordinates a lookup stores for an address are those of its earliest lookup that found any, and that lookup exists exactly when some lookup of the address found coordinates |
| Places.CleanAppend | places/views.py:31-44 | a run of lookups none of which raises stays so when one more lookup does not raise |
| Places.PrefixNotClean | places/views.py:31-44 | a raising lookup among the first calls of a run makes the whole run raise |
| Places.ResolveEntry | places/views.py:31-44 | one batch entry: a preloaded address takes its stored row without a call and never faults; any other address makes exactly one call and faults exactly as that lookup does |
| Places.Resolve | places/views.py:25-46 | the resolver as a whole, described after this table |
| Restaurateur.ByNameFacts | restaurateur/views.py:72 | the restaurants are sorted by name and are a permutation of the table |
| Restaurateur.FlagOfMeaning | restaurateur/views.py:75-81 | under the unique (restaurant, product) constraint, a product's flag for a restaurant is true iff that restaurant has a menu item for it marked available; with no menu item it is false |
| Restaurateur.AvailabilityRow | restaurateur/views.py:75-82 | the row has one flag per restaurant, in the given order, each the merged default-False/menu value |
| Restaurateur.ViewProducts | restaurateur/views.py:71-91 | the columns are the restaurants in name order; there is one row per product in table order, one flag per column, each true iff that restaurant lists the product as available |
| Restaurateur.DetailsFacts | restaurateur/views.py:110-124 | the details dictionary has a key exactly for each capable restaurant, once each, with distance 0 when either address is unresolved and the oracle distance otherwise |
| Restaurateur.StoredNeverZeroed | restaurateur/views.py:112-117 | an address the table held beforehand maps to its stored row, NULL columns included, so a distance between two such addresses is never the 0 fallback |
| Restaurateur.ZeroDistancesFirst | restaurateur/views.py:117-128 | in the sorted details, every entry before a 0 distance is 0 too: unresolved entries come first |
| Restaurateur.RearrangedDetails | restaurateur/views.py:125-128 | any rearrangement of the details keeps every capable restaurant exactly once with its recorded distance |
| Restaurateur.RankOrder | restaurateur/views.py:110-128 | one order's ranking: sorted ascending by distance, a stable permutation of the details in insertion order, each capable restaurant exactly once and no other |
| Restaurateur.RankOrders | restaurateur/views.py:109-132 | one row per annotated order, in order, each with its ranking and its `with_amount` value |
| Restaurateur.BatchCovers | restaurateur/views.py:105-108 | the geocoding batch (order addresses, then all restaurant addresses) contains every address the ranking looks up |
| Restaurateur.CapableIsListed | restaurateur/views.py:106-111 | under the menu-to-restaurant foreign key, a restaurant able to cook an order is in the restaurant table, so its address is in the batch |
| Restaurateur.ShownRows | restaurateur/views.py:109-132 | the rows of the page, stated over the selected orders and the resolver's results |
| Restaurateur.ViewOrders | restaurateur/views.py:101-136 | the order page as a whole, described after this table |
| OrderStore.OrderTable.CreateOrder | foodcartapp/views.py:96-101 | one order is appended with the next id, the given name, phone text and address, and every other column at its default (Unprocessed, no comment, registered now, no times, payment Unknown, no restaurant); keys stay consistent |
| OrderStore.OrderTable.CreateItem | foodcartapp/views.py:103-107 | an item is stored iff it has a price (the column is NOT NULL) and its order exists (the foreign key); otherwise nothing changes |
| OrderStore.RewriteKeepsConsistent | foodcartapp/migrations/0049_auto_20220531_0958.py:11 | saving an order under its own id keeps ids unique and every item's order present |
| Intake.MissingFieldsMeaning | foodcartapp/views.py:65-69 | a field name is listed iff that field is absent, null or `[]`; the list has no repeats and its names come in the order products, firstname, lastname, phonenumber, address |
| Intake.MissingAmongOrdered | foodcartapp/views.py:67-69 | the loop over the field names appends in field order, so the names gathered so far are in strictly increasing field position |
| Intake.ScreenNotAList | foodcartapp/views.py:110-113 | when every field is given (the `isinstance` test of line 82), the 'not a list' error is given exactly when `products` is not a list |
| Intake.ScreenEmptyCatalogue | foodcartapp/views.py:84 | a list checked against an empty catalogue raises (`Product.objects.last()` is None), and nothing else raises that way |
| Intake.LastProduct | foodcartapp/views.py:84 | `Product.objects.last()` is None iff the catalogue is empty, otherwise the product with the largest id |
| Intake.ProductById | foodcartapp/views.py:105 | `Product.objects.get(id=...)` finds a product iff one has that id |
| Intake.FirstAbove | foodcartapp/views.py:83-87 | no id is reported iff every entry's id is at most the bound; otherwise the first entry above the bound is reported |
| Intake.ScreenReportsBlanks | foodcartapp/views.py:65-74 | the missing-fields error is given iff some field is blank, and it lists exactly the blank fields |
| Intake.ScreenNamesFirstAbove | foodcartapp/views.py:82-87 | the unknown-product error is given exactly when every field is given, `products` is a list, the catalogue is non-empty and some id exceeds its largest; it names the first such id |
| Intake.ScreenPhoneLast | foodcartapp/views.py:89-91 | an unparseable number raises exactly when every field is given, `products` is a list, the catalogue is non-empty and every id is within its largest |
| Intake.ScreenPhoneInvalid | foodcartapp/views.py:89-94 | the invalid-phone error is given exactly when the same earlier checks pass and the number parses but is empty or invalid; the error quotes the number |
| Intake.ScreenPassed | foodcartapp/views.py:65-95 | the checks pass iff all five fields are given, `products` is a non-empty list, the catalogue is non-empty, no id exceeds its largest, and the phone is non-empty and valid |
| Intake.ScreenDraft | foodcartapp/views.py:76-80 | a payload that passes hands its five values on unchanged, with a non-empty product list |
| Intake.ScreenAdmitsAbsentId | foodcartapp/views.py:84 | a payload naming an id below the largest that no product has passes the checks |
| Intake.ScreenPayload | foodcartapp/views.py:64-94 | the imperative checks (the field loop and the id loop with early returns) end exactly as the check function says |
| Intake.StopsAtFirstMissing | foodcartapp/views.py:102-107 | once an entry names no product, later entries add no item |
| Intake.PricedItemsMatch | foodcartapp/views.py:102-107 | when every id exists, there is one item per entry, in payload order, with that entry's product and quantity and the product's current price |
| Intake.PricedItemsFacts | foodcartapp/views.py:102-107 | the created items all belong to the new order and total the entries' value |
| Intake.NewOrderAmount | foodcartapp/views.py:96-107 | the new order's `with_amount` is the sum of the products' prices times the quantities |
| Intake.StoreItems | foodcartapp/views.py:102-107 | the item loop appends the priced items up to the first unknown id, and reports that id |
| Intake.RegisterOrder | foodcartapp/views.py:63-113 | the intake with item prices set, described after this table |
| Intake.RegisterOrderAsWritten | foodcartapp/views.py:96-109 | the intake as written, described after this table |
| Migration0049.ClearedTimes | foodcartapp/migrations/0049_auto_20220531_0958.py:8-11 | the table keeps its length, and each order keeps every column except `called_at` and `delivered_at`, which become NULL |
| Migration0049.ClearedTimesIdempotent | foodcartapp/migrations/0049_auto_20220531_0958.py:8-11 | running the migration twice gives what running it once does |
| Migration0049.SelectedOrdersCleared | foodcartapp/migrations/0049_auto_20220531_0958.py:6-11 | after the migration, the manager page selects the same orders in the same order, with the timestamps cleared |
| Migration0049.ClearCallAndDeliveryTimes | foodcartapp/migrations/0049_auto_20220531_0958.py:6-11 | the in-place loop leaves exactly the cleared table; items and the id sequence are unchanged and keys stay consistent |

Four members need more than one cell.

**Places.Resolve**
- The geocoder receives exactly the batch entries missing from the table, in order and repeats included. A stored address is never sent.
- Every batch address gets a key. A stored address maps to its stored row, even when lon and lat are NULL. Any other address maps to the outcome of its last lookup: `[(lon, lat)]` or None.
- Each Fresh entry matches a stored row.
- Rows that existed before are untouched.
- A new row exists exactly for an address that some lookup found, and it holds the coordinates of the first such lookup.
- The resolver aborts exactly when some lookup of the missing entries, made after the lookups before it, faults as `Places.FaultOf` says. On an abort, the last address sent is the first faulting one, its fault is the one reported, and the table facts above still hold.

**Restaurateur.ShownRows**
- Each row holds the selected order in selection order and its amount.
- Its details are sorted.
- The details hold exactly the restaurants able to cook all the order's items, once each.
- Each distance is the oracle distance, or 0 when either address is unresolved. Both addresses are taken as the resolver resolved them.

**Restaurateur.ViewOrders**
- The geocoder sees a prefix of the batch entries missing from the table, and all of them when the page is shown.
- If the page is shown, its rows are as Restaurateur.ShownRows describes.
- The page crashes exactly when the resolver aborts on the batch, and the crash carries the resolver's fault.
- In both cases the Place table is as Places.Resolve describes.

**The intake methods.** Both Intake.RegisterOrder and Intake.RegisterOrderAsWritten keep this behaviour:
- a refused payload gives a 400 with the check's error, and nothing is written;
- a raising check gives a server error, and nothing is written.

On a passing payload they differ:
- Intake.RegisterOrder appends one order, then one priced item per entry up to the first id that names no product. It answers 200 when every id names a product. Otherwise it gives a server error naming that id, because `Product.objects.get` raises.
- Intake.RegisterOrderAsWritten appends the order and then fails on the first item: `Product.objects.get` raises if the item's id names no product, and otherwise the item has no price. It never answers 200 and stores no item.

## Left out

- The HTTP call in `fetch_coordinates` (places/views.py:8-15). `requests.get`, `raise_for_status`, the Yandex API key and the JSON navigation are folded into the geocoder oracle, which answers features, no features, or failure.
- Geodesic distance, `round(km, 3)` and float coordinates (restaurateur/views.py:119-123, places/models.py:11-20). Coordinates are kept as the decimal text the geocoder returns. The distance is an oracle with natural-number values.
- Restaurateur.StoredNeverZeroed: geopy's (latitude, longitude) argument order is not modelled, and neither is what geopy does with a NULL coordinate or with the one-tuple list `[(lon, lat)]`. The oracle receives the resolver's entries as they are.
- `phonenumbers.parse` and `is_valid_number` (foodcartapp/views.py:89-90) are an oracle. Its `Unparseable` answer stands for the exception `parse` raises on garbage.
- The login and logout views, `is_manager`, `view_restaurants` and template rendering (restaurateur/views.py:18-67, 88-98, 134-136). These are authentication and presentation.
- `banners_list_api` and `product_list_api` (foodcartapp/views.py:11-60). These build static content and JSON. The latter's product set is Queries.Available.
- `foodcartapp/serializers.py` and the serializers at foodcartapp/models.py:271-282, which `register_order` does not use.
- Schema migrations 0039, 0040, 0046 and 0048. They are declarative or stamp the wall clock.
- Queries.SetToSeq: the iteration order of a Python set is not modelled. Any order of the members may come out.
- Queries.SelectedOrdersFacts: how the database orders NULL and equal `responsible_restaurant_id` values is not modelled. NULL is placed first and ties keep table order. Only sortedness and the permutation are claimed.
- Restaurateur.ByNameFacts: database collation is not modelled. Names are compared by code point.
- Intake.Screen: JSON values other than those the checks distinguish are not modelled:
  - a scalar field is null, `[]` or text;
  - `products` is null, a list, or anything else;
  - a product entry is taken to have integer `product` and `quantity` keys.

  A malformed entry, which would raise a `KeyError` or `TypeError`, is not modelled.
- OrderStore.OrderTable.CreateOrder: `PhoneNumberField` normalisation is not modelled. The field parses the value on assignment and stores a valid number in its database format (E.164 by default); the model stores the raw phone text.
- OrderStore.OrderTable.CreateItem: the `MinValueValidator(1)` on quantity is not modelled. `create` does not run validators, so the row is stored whatever the quantity.
- The wording of error messages is not modelled. A missing-fields error carries the list of names that the view joins with ", ".
- One `now` value stands for the clock in a whole request.
- Transactions, concurrency and races on `get_or_create` are not modelled, and neither is an all-or-nothing intake. The code writes the order before its items and has no transaction.

## Findings

| source | as written | input that shows it | evidently intended | confidence | as-written member | corrected member |
|---|---|---|---|---|---|---|
| foodcartapp/views.py:103-107 | `OrderItem.objects.create` sets no `price`. The column is a NOT NULL decimal with no default (foodcartapp/models.py:256-261), so the insert fails after the Order row was written. | any payload that passes every check, e.g. one entry `{"product": 1, "quantity": 2}` with product 1 in the catalogue and a valid phone | each item stores the product's current price, and the request answers 200 | not executed | Intake.RegisterOrderAsWritten | Intake.RegisterOrder |
