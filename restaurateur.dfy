/** The manager pages of restaurateur/views.py: the availability grid of
    `view_products`, and `view_orders`, which ranks the restaurants able to cook
    each open order by their distance to the order's address. Rendering and the
    staff check are left out; the pages are returned as values. */
module Restaurateur {
  import opened Records
  import opened Collections
  import opened Queries
  import opened Places

  function NameOf(r: Restaurant): string { r.name }

  /** `Restaurant.objects.order_by('name')` */
  function ByName(rs: seq<Restaurant>): seq<Restaurant> {
    SortBy(rs, NameOf, StringLe)
  }

  lemma ByNameFacts(rs: seq<Restaurant>)
    ensures SortedBy(ByName(rs), NameOf, StringLe)
    ensures multiset(ByName(rs)) == multiset(rs)
  {
    StringLeTotal();
    SortBySorted(rs, NameOf, StringLe);
  }

  /** The flag the merged dictionary of `view_products` holds for restaurant
      `rid`, given the product's menu rows: the last row of that restaurant wins,
      and without one the default False stays. */
  function FlagOf(productMenu: seq<MenuItem>, rid: nat): bool {
    if productMenu == [] then false
    else if productMenu[|productMenu| - 1].restaurant.id == rid then productMenu[|productMenu| - 1].availability
    else FlagOf(productMenu[..|productMenu| - 1], rid)
  }

  predicate DistinctRestaurants(productMenu: seq<MenuItem>) {
    forall i, j :: 0 <= i < j < |productMenu| ==> productMenu[i].restaurant.id != productMenu[j].restaurant.id
  }

  lemma {:induction false} FlagOfDistinct(productMenu: seq<MenuItem>, rid: nat)
    requires DistinctRestaurants(productMenu)
    ensures FlagOf(productMenu, rid) <==> exists m :: m in productMenu && m.restaurant.id == rid && m.availability
  {
    if productMenu != [] {
      var init := productMenu[..|productMenu| - 1];
      var last := productMenu[|productMenu| - 1];
      assert productMenu == init + [last];
      FlagOfDistinct(init, rid);
      if last.restaurant.id == rid {
        forall m | m in init ensures m.restaurant.id != rid {
          var k :| 0 <= k < |init| && init[k] == m;
          assert productMenu[k] == m;
        }
      }
    }
  }

  /** `unique_together` on the menu leaves one row per restaurant for a product. */
  lemma {:induction false} MenuOfDistinctRestaurants(menu: seq<MenuItem>, product: nat)
    requires UniqueMenuPairs(menu)
    ensures DistinctRestaurants(MenuOf(menu, product))
  {
    if menu != [] {
      assert UniqueMenuPairs(menu[1..]) by {
        forall i, j | 0 <= i < j < |menu[1..]|
          ensures menu[1..][i].restaurant.id != menu[1..][j].restaurant.id || menu[1..][i].product != menu[1..][j].product
        {
          assert menu[1..][i] == menu[i + 1] && menu[1..][j] == menu[j + 1];
        }
      }
      MenuOfDistinctRestaurants(menu[1..], product);
      MenuOfMembers(menu[1..], product);
      var rest := MenuOf(menu[1..], product);
      if menu[0].product == product {
        var pm := [menu[0]] + rest;
        forall i, j | 0 <= i < j < |pm| ensures pm[i].restaurant.id != pm[j].restaurant.id {
          if i == 0 {
            assert pm[j] == rest[j - 1] && pm[j] in menu[1..];
            var k :| 0 <= k < |menu[1..]| && menu[1..][k] == pm[j];
            assert menu[k + 1] == pm[j];
          } else {
            assert pm[i] == rest[i - 1] && pm[j] == rest[j - 1];
          }
        }
      } else {
        assert MenuOf(menu, product) == rest;
      }
    }
  }

  /** A grid cell is True exactly when the restaurant has a menu row for the
      product and that row is marked available. */
  lemma FlagOfMeaning(menu: seq<MenuItem>, product: nat, rid: nat)
    requires UniqueMenuPairs(menu)
    ensures FlagOf(MenuOf(menu, product), rid) <==>
              exists m :: m in menu && m.product == product && m.restaurant.id == rid && m.availability
  {
    MenuOfDistinctRestaurants(menu, product);
    MenuOfMembers(menu, product);
    FlagOfDistinct(MenuOf(menu, product), rid);
  }

  /** One line of the grid: a product and one flag per restaurant, in the
      restaurants' name order. */
  datatype ProductRow = ProductRow(product: Product, availability: seq<bool>)

  /** `view_products`: the restaurants by name, and for every product its row
      of flags, built from an all-False dictionary overwritten by the product's
      menu rows. */
  method ViewProducts(cat: Catalog) returns (restaurants: seq<Restaurant>, rows: seq<ProductRow>)
    ensures restaurants == ByName(cat.restaurants)
    ensures |rows| == |cat.products|
    ensures forall k :: 0 <= k < |rows| ==>
              rows[k].product == cat.products[k] && |rows[k].availability| == |restaurants|
    ensures forall k, j :: 0 <= k < |rows| && 0 <= j < |restaurants| ==>
              rows[k].availability[j] == FlagOf(MenuOf(cat.menuItems, cat.products[k].id), restaurants[j].id)
  {
    restaurants := ByName(cat.restaurants);
    var defaults: map<nat, bool> := map[];
    var j := 0;
    while j < |restaurants|
      invariant 0 <= j <= |restaurants|
      invariant forall t :: 0 <= t < j ==> restaurants[t].id in defaults
      invariant forall id :: id in defaults ==> !defaults[id]
    {
      defaults := defaults[restaurants[j].id := false];
      j := j + 1;
    }
    rows := [];
    var k := 0;
    while k < |cat.products|
      invariant 0 <= k <= |cat.products|
      invariant |rows| == k
      invariant forall q :: 0 <= q < k ==>
                  rows[q].product == cat.products[q] && |rows[q].availability| == |restaurants|
      invariant forall q, t :: 0 <= q < k && 0 <= t < |restaurants| ==>
                  rows[q].availability[t] == FlagOf(MenuOf(cat.menuItems, cat.products[q].id), restaurants[t].id)
    {
      var product := cat.products[k];
      var flags := AvailabilityRow(cat.menuItems, product, restaurants, defaults);
      rows := rows + [ProductRow(product, flags)];
      k := k + 1;
    }
  }

  /** One product's pass of `view_products`: copy the all-False dictionary,
      overwrite it with the product's menu rows in order, and read it out in
      restaurant order. */
  method AvailabilityRow(menu: seq<MenuItem>, product: Product, restaurants: seq<Restaurant>,
                         defaults: map<nat, bool>)
    returns (flags: seq<bool>)
    requires forall t :: 0 <= t < |restaurants| ==> restaurants[t].id in defaults
    requires forall id :: id in defaults ==> !defaults[id]
    ensures |flags| == |restaurants|
    ensures forall u :: 0 <= u < |restaurants| ==> flags[u] == FlagOf(MenuOf(menu, product.id), restaurants[u].id)
  {
    var productMenu := MenuOf(menu, product.id);
    var availability := defaults;
    var n := 0;
    while n < |productMenu|
      invariant 0 <= n <= |productMenu|
      invariant forall id :: id in defaults ==> id in availability && availability[id] == FlagOf(productMenu[..n], id)
    {
      assert productMenu[..n + 1][..n] == productMenu[..n];
      availability := availability[productMenu[n].restaurant.id := productMenu[n].availability];
      n := n + 1;
    }
    assert productMenu[..n] == productMenu;
    flags := [];
    var t := 0;
    while t < |restaurants|
      invariant 0 <= t <= |restaurants|
      invariant |flags| == t
      invariant forall u :: 0 <= u < t ==> flags[u] == FlagOf(productMenu, restaurants[u].id)
    {
      flags := flags + [availability[restaurants[t].id]];
      t := t + 1;
    }
  }

  /** An entry of `restaurants_details`: a capable restaurant and its distance
      to the order's address in metres (`round(km, 3)` kilometres). */
  datatype Detail = Detail(restaurant: Restaurant, distance: nat)

  function DistanceOf(d: Detail): int { d.distance }

  /** Python truthiness of a resolver entry: None is false, both list shapes are true. */
  predicate Truthy(c: Coords) { !c.Missing? }

  /** The distance the view records: 0 when either address has no coordinates,
      otherwise what the geodesic distance oracle gives. */
  function DistanceOrZero(from: Coords, to: Coords, dist: (Coords, Coords) -> nat): nat {
    if !Truthy(from) || !Truthy(to) then 0 else dist(from, to)
  }

  predicate HasKey(details: seq<Detail>, r: Restaurant) {
    exists k :: 0 <= k < |details| && details[k].restaurant == r
  }

  /** `restaurants_details` in insertion order. A restaurant listed twice would
      be re-assigned the same distance and keep its first position. */
  function Details(able: seq<Restaurant>, from: Coords, places: map<string, Coords>,
                   dist: (Coords, Coords) -> nat): seq<Detail>
    requires forall r :: r in able ==> r.address in places
  {
    if able == [] then []
    else
      var init := Details(able[..|able| - 1], from, places, dist);
      var r := able[|able| - 1];
      if HasKey(init, r) then init
      else init + [Detail(r, DistanceOrZero(from, places[r.address], dist))]
  }

  /** An address the table held before the run resolves to its stored row,
      which is a non-empty list even when lon and lat are NULL, so a distance
      between two such addresses never falls back to 0. */
  lemma StoredNeverZeroed(a: string, b: string, initial: map<string, Place>, calls: seq<string>,
                          geocoder: (string, nat) -> GeoResponse, dist: (Coords, Coords) -> nat)
    requires a in initial && b in initial
    ensures ResolvedAs(a, initial, calls, geocoder) == Cached(initial[a].lon, initial[a].lat)
    ensures DistanceOrZero(ResolvedAs(a, initial, calls, geocoder), ResolvedAs(b, initial, calls, geocoder), dist) ==
            dist(ResolvedAs(a, initial, calls, geocoder), ResolvedAs(b, initial, calls, geocoder))
  {
  }

  /** The dictionary holds every capable restaurant once, with its distance. */
  lemma {:induction false} DetailsFacts(able: seq<Restaurant>, from: Coords, places: map<string, Coords>,
                                        dist: (Coords, Coords) -> nat)
    requires forall r :: r in able ==> r.address in places
    ensures forall r :: HasKey(Details(able, from, places, dist), r) <==> r in able
    ensures Distinct(Details(able, from, places, dist))
    ensures forall k :: 0 <= k < |Details(able, from, places, dist)| ==>
              var d := Details(able, from, places, dist)[k];
              d.restaurant.address in places && d.distance == DistanceOrZero(from, places[d.restaurant.address], dist)
  {
    if able != [] {
      var init := able[..|able| - 1];
      var r := able[|able| - 1];
      assert able == init + [r];
      DetailsFacts(init, from, places, dist);
      var ds := Details(init, from, places, dist);
      if !HasKey(ds, r) {
        var e := ds + [Detail(r, DistanceOrZero(from, places[r.address], dist))];
        forall x | HasKey(e, x) ensures x in able {
          var k :| 0 <= k < |e| && e[k].restaurant == x;
          if k < |ds| { assert ds[k].restaurant == x; assert HasKey(ds, x); }
        }
        forall x | x in able ensures HasKey(e, x) {
          if x == r {
            assert e[|ds|].restaurant == x;
          } else {
            assert x in init;
            var k :| 0 <= k < |ds| && ds[k].restaurant == x;
            assert e[k].restaurant == x;
          }
        }
        forall i, j | 0 <= i < j < |e| ensures e[i] != e[j] {
          if j == |ds| { assert e[i] == ds[i]; }
        }
      } else {
        forall x | x in able ensures HasKey(ds, x) {
          if x != r { assert x in init; }
        }
      }
    }
  }

  /** Entries whose distance defaulted to 0 come first. */
  lemma ZeroDistancesFirst(details: seq<Detail>)
    requires SortedBy(details, DistanceOf, IntLe)
    ensures forall i, j :: 0 <= i <= j < |details| && details[j].distance == 0 ==> details[i].distance == 0
  {
    forall i, j | 0 <= i <= j < |details| && details[j].distance == 0 ensures details[i].distance == 0 {
      SortedByIntOrdered(details, DistanceOf, i, j);
    }
  }

  /** The entry an order row shows: the order, its capable restaurants nearest
      first, and its amount. */
  datatype OrderRow = OrderRow(order: Order, details: seq<Detail>, amount: Option<int>)

  /** The rendered orders, or the exception the resolver raised. */
  datatype OrdersPage = Shown(rows: seq<OrderRow>) | Crashed(fault: ResolveFault)

  /** One pass of the `view_orders` loop: the distance dictionary of an order,
      sorted by distance; `sorted` is stable, so ties keep the capable list's order. */
  method RankOrder(a: Annotated, places: map<string, Coords>, dist: (Coords, Coords) -> nat)
    returns (details: seq<Detail>)
    requires a.order.address in places
    requires forall r :: r in a.ableToCook ==> r.address in places
    ensures SortedBy(details, DistanceOf, IntLe)
    ensures multiset(details) == multiset(Details(a.ableToCook, places[a.order.address], places, dist))
    ensures forall d :: KeyFilter(details, DistanceOf, d) ==
                        KeyFilter(Details(a.ableToCook, places[a.order.address], places, dist), DistanceOf, d)
    ensures forall r :: HasKey(details, r) <==> r in a.ableToCook
    ensures forall i, j :: 0 <= i < j < |details| ==> details[i].restaurant != details[j].restaurant
    ensures forall k :: 0 <= k < |details| ==>
              details[k].restaurant in a.ableToCook &&
              details[k].distance ==
                DistanceOrZero(places[a.order.address], places[details[k].restaurant.address], dist)
  {
    var from := places[a.order.address];
    var unranked: seq<Detail> := [];
    var n := 0;
    while n < |a.ableToCook|
      invariant 0 <= n <= |a.ableToCook|
      invariant unranked == Details(a.ableToCook[..n], from, places, dist)
    {
      var r := a.ableToCook[n];
      assert a.ableToCook[..n + 1][..n] == a.ableToCook[..n];
      if !HasKey(unranked, r) {
        var km := DistanceOrZero(from, places[r.address], dist);
        unranked := unranked + [Detail(r, km)];
      }
      n := n + 1;
    }
    assert a.ableToCook[..n] == a.ableToCook;
    details := SortBy(unranked, DistanceOf, IntLe);
    IntLeTotal();
    SortBySorted(unranked, DistanceOf, IntLe);
    forall d ensures KeyFilter(details, DistanceOf, d) == KeyFilter(unranked, DistanceOf, d) {
      SortByStable(unranked, DistanceOf, IntLe, d);
    }
    DetailsFacts(a.ableToCook, from, places, dist);
    RearrangedDetails(a.ableToCook, from, places, dist, unranked, details);
  }

  /** A rearrangement of the distance dictionary keeps its keys, each once, and
      their distances. */
  lemma RearrangedDetails(able: seq<Restaurant>, from: Coords, places: map<string, Coords>,
                          dist: (Coords, Coords) -> nat, unranked: seq<Detail>, details: seq<Detail>)
    requires forall r :: r in able ==> r.address in places
    requires forall r :: HasKey(unranked, r) <==> r in able
    requires Distinct(unranked)
    requires forall k :: 0 <= k < |unranked| ==>
               unranked[k].restaurant.address in places &&
               unranked[k].distance == DistanceOrZero(from, places[unranked[k].restaurant.address], dist)
    requires multiset(details) == multiset(unranked)
    ensures forall r :: HasKey(details, r) <==> r in able
    ensures forall i, j :: 0 <= i < j < |details| ==> details[i].restaurant != details[j].restaurant
    ensures forall k :: 0 <= k < |details| ==>
              details[k].restaurant in able &&
              details[k].distance == DistanceOrZero(from, places[details[k].restaurant.address], dist)
  {
    DistinctPermutation(unranked, details);
    forall r ensures HasKey(details, r) <==> HasKey(unranked, r) {
      if HasKey(details, r) {
        var k :| 0 <= k < |details| && details[k].restaurant == r;
        assert details[k] in multiset(unranked);
        var q :| 0 <= q < |unranked| && unranked[q] == details[k];
      }
      if HasKey(unranked, r) {
        var k :| 0 <= k < |unranked| && unranked[k].restaurant == r;
        assert unranked[k] in multiset(details);
        var q :| 0 <= q < |details| && details[q] == unranked[k];
      }
    }
    forall k | 0 <= k < |details|
      ensures details[k].restaurant in able
      ensures details[k].distance == DistanceOrZero(from, places[details[k].restaurant.address], dist)
    {
      assert HasKey(details, details[k].restaurant);
      assert details[k] in multiset(unranked);
      var q :| 0 <= q < |unranked| && unranked[q] == details[k];
    }
    forall i, j | 0 <= i < j < |details| ensures details[i].restaurant != details[j].restaurant {
      assert details[i] != details[j];
      assert details[i].distance == DistanceOrZero(from, places[details[i].restaurant.address], dist);
      assert details[j].distance == DistanceOrZero(from, places[details[j].restaurant.address], dist);
    }
  }

  /** `[x.address for x in xs]`, for orders and restaurants alike. */
  function Addresses<T>(xs: seq<T>, address: T -> string): (r: seq<string>)
    ensures |r| == |xs| && forall k :: 0 <= k < |xs| ==> r[k] == address(xs[k])
  {
    if xs == [] then [] else [address(xs[0])] + Addresses(xs[1..], address)
  }

  function OrderAddress(o: Order): string { o.address }

  function RestaurantAddress(r: Restaurant): string { r.address }

  /** A restaurant able to cook an order with items serves one of its
      products, so the menu row's foreign key puts it in the restaurant table. */
  lemma CapableIsListed(cat: Catalog, own: seq<OrderItem>, r: Restaurant)
    requires MenuRestaurantsListed(cat)
    requires |own| > 0 && CanCookAll(r, own, cat.menuItems)
    ensures r in cat.restaurants
  {
    assert own[0] in own;
    assert Serves(cat.menuItems, r, own[0].product);
  }

  /** `details` ranks the restaurants of `able` by distance from `from`: sorted,
      each of them present, and each carrying the distance the view records. */
  ghost predicate RankedFor(details: seq<Detail>, able: seq<Restaurant>, from: Coords,
                      places: map<string, Coords>, dist: (Coords, Coords) -> nat)
  {
    SortedBy(details, DistanceOf, IntLe) &&
    (forall r :: HasKey(details, r) <==> r in able) &&
    (forall i, j :: 0 <= i < j < |details| ==> details[i].restaurant != details[j].restaurant) &&
    (forall q :: 0 <= q < |details| ==>
       details[q].restaurant in able && details[q].restaurant.address in places &&
       details[q].distance == DistanceOrZero(from, places[details[q].restaurant.address], dist))
  }

  /** The row the view shows for one annotated order. */
  ghost predicate RowFor(row: OrderRow, a: Annotated, items: seq<OrderItem>, places: map<string, Coords>,
                   dist: (Coords, Coords) -> nat)
  {
    row.order == a.order && row.amount == Amount(items, a.order.id) &&
    a.order.address in places && RankedFor(row.details, a.ableToCook, places[a.order.address], places, dist)
  }

  /** The `view_orders` loop: one row per annotated order, in order, each with
      its ranked restaurants and its amount. */
  method RankOrders(annotated: seq<Annotated>, items: seq<OrderItem>, places: map<string, Coords>,
                    dist: (Coords, Coords) -> nat)
    returns (rows: seq<OrderRow>)
    requires forall k :: 0 <= k < |annotated| ==> annotated[k].order.address in places
    requires forall k, r :: 0 <= k < |annotated| && r in annotated[k].ableToCook ==> r.address in places
    ensures |rows| == |annotated|
    ensures forall k :: 0 <= k < |rows| ==> RowFor(rows[k], annotated[k], items, places, dist)
  {
    rows := [];
    var k := 0;
    while k < |annotated|
      invariant 0 <= k <= |annotated|
      invariant |rows| == k
      invariant forall q :: 0 <= q < k ==> RowFor(rows[q], annotated[q], items, places, dist)
    {
      var a := annotated[k];
      var details := RankOrder(a, places, dist);
      RowIntro(a, details, items, places, dist);
      rows := rows + [OrderRow(a.order, details, Amount(items, a.order.id))];
      k := k + 1;
    }
  }

  /** The row for `a` built from what `RankOrder` promises. */
  lemma RowIntro(a: Annotated, details: seq<Detail>, items: seq<OrderItem>, places: map<string, Coords>,
                 dist: (Coords, Coords) -> nat)
    requires a.order.address in places
    requires forall r :: r in a.ableToCook ==> r.address in places
    requires SortedBy(details, DistanceOf, IntLe)
    requires forall r :: HasKey(details, r) <==> r in a.ableToCook
    requires forall i, j :: 0 <= i < j < |details| ==> details[i].restaurant != details[j].restaurant
    requires forall k :: 0 <= k < |details| ==>
               details[k].restaurant in a.ableToCook &&
               details[k].distance ==
                 DistanceOrZero(places[a.order.address], places[details[k].restaurant.address], dist)
    ensures RowFor(OrderRow(a.order, details, Amount(items, a.order.id)), a, items, places, dist)
  {
  }

  /** `view_orders` resolves every address it later reads: each selected order's
      own, and that of each restaurant able to cook it. */
  lemma BatchCovers(cat: Catalog, orders: seq<Order>, items: seq<OrderItem>, annotated: seq<Annotated>,
                    batch: seq<string>)
    requires MenuRestaurantsListed(cat)
    requires |annotated| == |SelectedOrders(orders, items, cat.menuItems)|
    requires forall k :: 0 <= k < |annotated| ==> annotated[k].order == SelectedOrders(orders, items, cat.menuItems)[k]
    requires forall k, r :: 0 <= k < |annotated| ==>
               (r in annotated[k].ableToCook <==> CanCookAll(r, ItemsOf(items, annotated[k].order.id), cat.menuItems))
    requires batch == Addresses(SelectedOrders(orders, items, cat.menuItems), OrderAddress) +
                      Addresses(cat.restaurants, RestaurantAddress)
    ensures forall k :: 0 <= k < |annotated| ==> annotated[k].order.address in batch
    ensures forall k, r :: 0 <= k < |annotated| && r in annotated[k].ableToCook ==> r.address in batch
  {
    var selected := SelectedOrders(orders, items, cat.menuItems);
    var head := Addresses(selected, OrderAddress);
    forall k | 0 <= k < |annotated| ensures annotated[k].order.address in batch {
      assert batch[k] == head[k];
    }
    forall k, r | 0 <= k < |annotated| && r in annotated[k].ableToCook ensures r.address in batch {
      SelectedOrderMember(orders, items, cat.menuItems, annotated[k].order);
      assert annotated[k].order in selected;
      CapableIsListed(cat, ItemsOf(items, annotated[k].order.id), r);
      var t :| 0 <= t < |cat.restaurants| && cat.restaurants[t] == r;
      assert batch[|head| + t] == r.address;
    }
  }

  /** `view_orders`: select and annotate the open orders, resolve the order
      addresses followed by every restaurant address, then rank each order's
      capable restaurants. */
  method ViewOrders(cat: Catalog, orders: seq<Order>, items: seq<OrderItem>, table: PlaceTable,
                    geocoder: (string, nat) -> GeoResponse, dist: (Coords, Coords) -> nat, now: int)
    returns (page: OrdersPage, lookups: seq<string>)
    requires table.Valid()
    requires MenuRestaurantsListed(cat)
    modifies table
    ensures table.Valid()
    ensures RowsLinked(old(table.rows), lookups, table.rows, geocoder, now)
    ensures lookups <= Misses(Addresses(SelectedOrders(orders, items, cat.menuItems), OrderAddress) +
                              Addresses(cat.restaurants, RestaurantAddress), old(table.rows).Keys)
    ensures page.Crashed? <==>
              !Clean(Misses(Addresses(SelectedOrders(orders, items, cat.menuItems), OrderAddress) +
                            Addresses(cat.restaurants, RestaurantAddress), old(table.rows).Keys), geocoder)
    ensures page.Crashed? ==>
              lookups != [] && Clean(lookups[..|lookups| - 1], geocoder) &&
              FaultOf(lookups[..|lookups| - 1], lookups[|lookups| - 1], geocoder) == Some(page.fault)
    ensures page.Shown? ==>
              lookups == Misses(Addresses(SelectedOrders(orders, items, cat.menuItems), OrderAddress) +
                                Addresses(cat.restaurants, RestaurantAddress), old(table.rows).Keys)
    ensures page.Shown? ==> |page.rows| == |SelectedOrders(orders, items, cat.menuItems)|
    ensures page.Shown? ==> forall k :: 0 <= k < |page.rows| ==>
              page.rows[k].order == SelectedOrders(orders, items, cat.menuItems)[k] &&
              page.rows[k].amount == Amount(items, page.rows[k].order.id) &&
              SortedBy(page.rows[k].details, DistanceOf, IntLe)
    ensures page.Shown? ==> forall k, r :: 0 <= k < |page.rows| ==>
              (HasKey(page.rows[k].details, r) <==>
                 CanCookAll(r, ItemsOf(items, page.rows[k].order.id), cat.menuItems))
    ensures page.Shown? ==> forall k, i, j :: 0 <= k < |page.rows| && 0 <= i < j < |page.rows[k].details| ==>
              page.rows[k].details[i].restaurant != page.rows[k].details[j].restaurant
    ensures page.Shown? ==> forall k, q :: 0 <= k < |page.rows| && 0 <= q < |page.rows[k].details| ==>
              page.rows[k].details[q].distance ==
                DistanceOrZero(ResolvedAs(page.rows[k].order.address, old(table.rows), lookups, geocoder),
                               ResolvedAs(page.rows[k].details[q].restaurant.address, old(table.rows), lookups, geocoder),
                               dist)
  {
    ghost var initial := table.rows;
    var annotated := WithAbleToCookRestaurants(orders, items, cat.menuItems);
    ghost var selected := SelectedOrders(orders, items, cat.menuItems);
    var orderAddresses := [];
    var n := 0;
    while n < |annotated|
      invariant 0 <= n <= |annotated|
      invariant orderAddresses == Addresses(selected[..n], OrderAddress)
      invariant table.rows == old(table.rows)
    {
      assert selected[..n + 1] == selected[..n] + [selected[n]];
      OrderAddressesAppend(selected[..n], selected[n]);
      orderAddresses := orderAddresses + [annotated[n].order.address];
      n := n + 1;
    }
    assert selected[..n] == selected;
    var batch := orderAddresses + Addresses(cat.restaurants, RestaurantAddress);
    BatchCovers(cat, orders, items, annotated, batch);
    var outcome;
    outcome, lookups := Resolve(table, batch, geocoder, now);
    if outcome.Aborted? {
      page := Crashed(outcome.fault);
      return;
    }
    var rows := RankOrders(annotated, items, outcome.places, dist);
    ShownRows(cat, orders, items, annotated, rows, outcome.places, initial, lookups, geocoder, dist);
    page := Shown(rows);
  }

  /** The ranked rows, read back in terms of the selected orders, their items
      and what the resolver made of each address. */
  lemma ShownRows(cat: Catalog, orders: seq<Order>, items: seq<OrderItem>, annotated: seq<Annotated>,
                  rows: seq<OrderRow>, places: map<string, Coords>, initial: map<string, Place>,
                  lookups: seq<string>, geocoder: (string, nat) -> GeoResponse, dist: (Coords, Coords) -> nat)
    requires |annotated| == |SelectedOrders(orders, items, cat.menuItems)|
    requires forall k :: 0 <= k < |annotated| ==> annotated[k].order == SelectedOrders(orders, items, cat.menuItems)[k]
    requires forall k, r :: 0 <= k < |annotated| ==>
               (r in annotated[k].ableToCook <==> CanCookAll(r, ItemsOf(items, annotated[k].order.id), cat.menuItems))
    requires forall a :: a in places ==> places[a] == ResolvedAs(a, initial, lookups, geocoder)
    requires |rows| == |annotated|
    requires forall k :: 0 <= k < |rows| ==> RowFor(rows[k], annotated[k], items, places, dist)
    ensures forall k :: 0 <= k < |rows| ==>
              rows[k].order == SelectedOrders(orders, items, cat.menuItems)[k] &&
              rows[k].amount == Amount(items, rows[k].order.id) &&
              SortedBy(rows[k].details, DistanceOf, IntLe)
    ensures forall k, r :: 0 <= k < |rows| ==>
              (HasKey(rows[k].details, r) <==> CanCookAll(r, ItemsOf(items, rows[k].order.id), cat.menuItems))
    ensures forall k, i, j :: 0 <= k < |rows| && 0 <= i < j < |rows[k].details| ==>
              rows[k].details[i].restaurant != rows[k].details[j].restaurant
    ensures forall k, q :: 0 <= k < |rows| && 0 <= q < |rows[k].details| ==>
              rows[k].details[q].distance ==
                DistanceOrZero(ResolvedAs(rows[k].order.address, initial, lookups, geocoder),
                               ResolvedAs(rows[k].details[q].restaurant.address, initial, lookups, geocoder),
                               dist)
  {
    forall k, q | 0 <= k < |rows| && 0 <= q < |rows[k].details|
      ensures rows[k].details[q].distance ==
                DistanceOrZero(ResolvedAs(rows[k].order.address, initial, lookups, geocoder),
                               ResolvedAs(rows[k].details[q].restaurant.address, initial, lookups, geocoder),
                               dist)
    {
      assert RowFor(rows[k], annotated[k], items, places, dist);
    }
  }

  lemma OrderAddressesAppend(orders: seq<Order>, o: Order)
    ensures Addresses(orders + [o], OrderAddress) == Addresses(orders, OrderAddress) + [o.address]
  {
  }
}
