/** The custom querysets of foodcartapp/models.py: `ProductQuerySet.available`,
    `OrderQuerySet.with_amount` and `OrderQuerySet.with_are_able_to_cook_restaurants`.
    Tables are sequences of rows in table order; the declarative filters and
    aggregates are functions, the Python loops of the capability matcher are a method. */
module Queries {
  import opened Records
  import opened Collections

  /** `product.menu_items.all()`: the menu rows of one product, in table order. */
  function MenuOf(menu: seq<MenuItem>, product: nat): seq<MenuItem> {
    if menu == [] then []
    else (if menu[0].product == product then [menu[0]] else []) + MenuOf(menu[1..], product)
  }

  lemma {:induction false} MenuOfMembers(menu: seq<MenuItem>, product: nat)
    ensures forall m :: m in MenuOf(menu, product) <==> m in menu && m.product == product
  {
    if menu != [] {
      MenuOfMembers(menu[1..], product);
      assert menu == [menu[0]] + menu[1..];
    }
  }

  /** Some menu row for `product` has `availability == True`. */
  predicate OffersAvailable(menu: seq<MenuItem>, product: nat) {
    exists m :: m in menu && m.product == product && m.availability
  }

  /** `ProductQuerySet.available()`: the products whose id is among the product
      ids of the available menu rows. */
  function Available(products: seq<Product>, menu: seq<MenuItem>): (r: set<Product>)
    ensures forall p :: p in r <==> p in products && OffersAvailable(menu, p.id)
  {
    var offered := set m | m in menu && m.availability :: m.product;
    set p | p in products && p.id in offered
  }

  /** `order.items.all()`: the item rows of one order, in table order. */
  function ItemsOf(items: seq<OrderItem>, order: nat): seq<OrderItem> {
    if items == [] then []
    else (if items[0].order == order then [items[0]] else []) + ItemsOf(items[1..], order)
  }

  lemma {:induction false} ItemsOfMembers(items: seq<OrderItem>, order: nat)
    ensures forall it :: it in ItemsOf(items, order) <==> it in items && it.order == order
  {
    if items != [] {
      ItemsOfMembers(items[1..], order);
      assert items == [items[0]] + items[1..];
    }
  }

  lemma {:induction false} ItemsOfAppend(a: seq<OrderItem>, b: seq<OrderItem>, order: nat)
    ensures ItemsOf(a + b, order) == ItemsOf(a, order) + ItemsOf(b, order)
  {
    if a == [] {
      assert a + b == b;
    } else {
      var c := a + b;
      assert c[0] == a[0] && c[1..] == a[1..] + b;
      ItemsOfAppend(a[1..], b, order);
      var f := if a[0].order == order then [a[0]] else [];
      assert ItemsOf(c, order) == f + ItemsOf(c[1..], order);
      assert ItemsOf(a, order) == f + ItemsOf(a[1..], order);
    }
  }

  /** Every row of `items` belongs to `order`, so all of them are its items. */
  lemma {:induction false} ItemsOfOwnRows(items: seq<OrderItem>, order: nat)
    requires forall it :: it in items ==> it.order == order
    ensures ItemsOf(items, order) == items
  {
    if items != [] {
      assert items[0] in items;
      assert forall it :: it in items[1..] ==> it in items;
      ItemsOfOwnRows(items[1..], order);
      assert items == [items[0]] + items[1..];
    }
  }

  /** Sum of price × quantity over `items`, in cents. */
  function Total(items: seq<OrderItem>): int {
    if items == [] then 0 else items[0].price * items[0].quantity + Total(items[1..])
  }

  lemma {:induction false} TotalAppend(a: seq<OrderItem>, b: seq<OrderItem>)
    ensures Total(a + b) == Total(a) + Total(b)
  {
    if a == [] {
      assert a + b == b;
    } else {
      var c := a + b;
      assert c[0] == a[0] && c[1..] == a[1..] + b;
      TotalAppend(a[1..], b);
    }
  }

  /** `OrderQuerySet.with_amount()`: `SUM(items.price * items.quantity)` per order.
      SQL's SUM over no rows is NULL, hence the option. */
  function Amount(items: seq<OrderItem>, order: nat): (r: Option<int>)
    ensures r.Some? <==> exists it :: it in items && it.order == order
    ensures r.Some? ==> r.value == Total(ItemsOf(items, order))
  {
    ItemsOfMembers(items, order);
    var own := ItemsOf(items, order);
    assert own != [] ==> own[0] in own;
    if own == [] then None else Some(Total(own))
  }

  /** No row of `items` belongs to `order`. */
  lemma {:induction false} ItemsOfForeignRows(items: seq<OrderItem>, order: nat)
    requires forall it :: it in items ==> it.order != order
    ensures ItemsOf(items, order) == []
  {
    if items != [] {
      assert items[0] in items;
      assert forall it :: it in items[1..] ==> it in items;
      ItemsOfForeignRows(items[1..], order);
    }
  }

  /** The amount of an order whose item rows, appended to a table holding none of
      its rows, are `added`: the sum of price × quantity over `added`. */
  lemma AmountOfAppended(before: seq<OrderItem>, added: seq<OrderItem>, order: nat)
    requires forall it :: it in before ==> it.order != order
    requires added != [] && forall it :: it in added ==> it.order == order
    ensures Amount(before + added, order) == Some(Total(added))
  {
    ItemsOfAppend(before, added, order);
    ItemsOfForeignRows(before, order);
    ItemsOfOwnRows(added, order);
    assert ItemsOf(before + added, order) == added;
  }

  /** Status `Unprocessed` or `In_procces`. */
  predicate IsOpen(o: Order) {
    o.status == Unprocessed || o.status == InProcess
  }

  /** The order has an item whose product has an available menu row: the
      condition `items__product__menu_items__availability=True`. */
  predicate HasAvailableItem(o: Order, items: seq<OrderItem>, menu: seq<MenuItem>) {
    exists it :: it in items && it.order == o.id && OffersAvailable(menu, it.product)
  }

  /** `filter(id__in=..., status__in=['Unprocessed', 'In_procces'])`, in table order. */
  function OpenWithAvailableItem(orders: seq<Order>, items: seq<OrderItem>, menu: seq<MenuItem>): seq<Order> {
    if orders == [] then []
    else (if IsOpen(orders[0]) && HasAvailableItem(orders[0], items, menu) then [orders[0]] else [])
         + OpenWithAvailableItem(orders[1..], items, menu)
  }

  lemma {:induction false} OpenWithAvailableItemMembers(orders: seq<Order>, items: seq<OrderItem>, menu: seq<MenuItem>)
    ensures forall o :: o in OpenWithAvailableItem(orders, items, menu) <==>
                        o in orders && IsOpen(o) && HasAvailableItem(o, items, menu)
  {
    if orders != [] {
      OpenWithAvailableItemMembers(orders[1..], items, menu);
      assert orders == [orders[0]] + orders[1..];
    }
  }

  /** `order_by('responsible_restaurant_id')`: unassigned orders (NULL) first, as
      SQLite orders NULLs; ties keep table order. */
  function ResponsibleKey(o: Order): int {
    match o.responsibleRestaurant
    case None => -1
    case Some(id) => id
  }

  /** The orders `with_are_able_to_cook_restaurants` returns, in the order it returns them. */
  function SelectedOrders(orders: seq<Order>, items: seq<OrderItem>, menu: seq<MenuItem>): seq<Order> {
    SortBy(OpenWithAvailableItem(orders, items, menu), ResponsibleKey, IntLe)
  }

  lemma SelectedOrdersFacts(orders: seq<Order>, items: seq<OrderItem>, menu: seq<MenuItem>)
    ensures SortedBy(SelectedOrders(orders, items, menu), ResponsibleKey, IntLe)
    ensures multiset(SelectedOrders(orders, items, menu)) == multiset(OpenWithAvailableItem(orders, items, menu))
  {
    IntLeTotal();
    SortBySorted(OpenWithAvailableItem(orders, items, menu), ResponsibleKey, IntLe);
  }

  /** Every returned order is open and has an item on sale somewhere, so its item
      list, and with it the argument list of the intersection, is not empty. */
  lemma SelectedOrderMember(orders: seq<Order>, items: seq<OrderItem>, menu: seq<MenuItem>, o: Order)
    ensures o in SelectedOrders(orders, items, menu) <==>
            o in orders && IsOpen(o) && HasAvailableItem(o, items, menu)
    ensures o in SelectedOrders(orders, items, menu) ==> ItemsOf(items, o.id) != []
  {
    SelectedOrdersFacts(orders, items, menu);
    OpenWithAvailableItemMembers(orders, items, menu);
    assert o in SelectedOrders(orders, items, menu) <==> o in OpenWithAvailableItem(orders, items, menu) by {
      assert o in SelectedOrders(orders, items, menu) <==> o in multiset(SelectedOrders(orders, items, menu));
    }
    if o in SelectedOrders(orders, items, menu) {
      var it :| it in items && it.order == o.id && OffersAvailable(menu, it.product);
      ItemsOfMembers(items, o.id);
      assert it in ItemsOf(items, o.id);
    }
  }

  /** `r` has a menu row, of any availability, for `product`. */
  predicate Serves(menu: seq<MenuItem>, r: Restaurant, product: nat) {
    exists m :: m in menu && m.restaurant == r && m.product == product
  }

  /** `r` has a menu row, of any availability, for the product of every item in `own`. */
  predicate CanCookAll(r: Restaurant, own: seq<OrderItem>, menu: seq<MenuItem>) {
    forall it :: it in own ==> Serves(menu, r, it.product)
  }

  /** `set.intersection(*map(set, lists))`; Python refuses an empty argument list. */
  function IntersectAll(lists: seq<seq<Restaurant>>): set<Restaurant>
    requires |lists| > 0
    decreases |lists|
  {
    var first := set r | r in lists[0];
    if |lists| == 1 then first else first * IntersectAll(lists[1..])
  }

  lemma {:induction false} IntersectAllMember(lists: seq<seq<Restaurant>>, r: Restaurant)
    requires |lists| > 0
    ensures r in IntersectAll(lists) <==> forall k :: 0 <= k < |lists| ==> r in lists[k]
    decreases |lists|
  {
    if |lists| > 1 {
      IntersectAllMember(lists[1..], r);
      assert forall k :: 1 <= k < |lists| ==> lists[k] == lists[1..][k - 1];
    }
  }

  /** The restaurants of a product's menu rows, listed row by row, are exactly
      the restaurants that serve it. */
  lemma RestaurantsOfMenu(menu: seq<MenuItem>, product: nat, restaurants: seq<Restaurant>)
    requires |restaurants| == |MenuOf(menu, product)|
    requires forall t :: 0 <= t < |restaurants| ==> restaurants[t] == MenuOf(menu, product)[t].restaurant
    ensures forall r :: r in restaurants <==> Serves(menu, r, product)
  {
    var productMenu := MenuOf(menu, product);
    MenuOfMembers(menu, product);
    forall r ensures r in restaurants <==> Serves(menu, r, product) {
      if r in restaurants {
        var t :| 0 <= t < |restaurants| && restaurants[t] == r;
        assert productMenu[t] in productMenu;
      }
      if Serves(menu, r, product) {
        var m :| m in menu && m.restaurant == r && m.product == product;
        var t :| 0 <= t < |productMenu| && productMenu[t] == m;
        assert restaurants[t] == r;
      }
    }
  }

  /** The intersection of the per-item restaurant lists holds exactly the
      restaurants that can cook every item. */
  lemma CommonMeansCanCookAll(available: seq<seq<Restaurant>>, own: seq<OrderItem>, menu: seq<MenuItem>, r: Restaurant)
    requires |own| > 0 && |available| == |own|
    requires forall t, x :: 0 <= t < |own| ==> (x in available[t] <==> Serves(menu, x, own[t].product))
    ensures r in IntersectAll(available) <==> CanCookAll(r, own, menu)
  {
    IntersectAllMember(available, r);
    if CanCookAll(r, own, menu) {
      forall t | 0 <= t < |available| ensures r in available[t] {
        assert own[t] in own;
      }
    } else {
      var it :| it in own && !Serves(menu, r, it.product);
      var t :| 0 <= t < |own| && own[t] == it;
      assert r !in available[t];
    }
  }

  /** An order as `with_are_able_to_cook_restaurants` hands it out, with its
      `are_able_to_cook_restaurants` attribute. */
  datatype Annotated = Annotated(order: Order, ableToCook: seq<Restaurant>)

  /** `list(s)`: the elements of a set, each once, in the set's iteration order,
      which the model leaves open. */
  method SetToSeq(s: set<Restaurant>) returns (r: seq<Restaurant>)
    ensures Distinct(r)
    ensures forall x :: x in r <==> x in s
  {
    r := [];
    var rest := s;
    while rest != {}
      invariant rest <= s
      invariant Distinct(r)
      invariant forall x :: x in r <==> x in s && x !in rest
      decreases |rest|
    {
      var x :| x in rest;
      r := r + [x];
      rest := rest - {x};
    }
  }

  /** `OrderQuerySet.with_are_able_to_cook_restaurants()`: the open orders with an
      item on sale somewhere, ordered by responsible restaurant, each with the
      restaurants that have a menu row (available or not) for every item's product. */
  method WithAbleToCookRestaurants(orders: seq<Order>, items: seq<OrderItem>, menu: seq<MenuItem>)
    returns (result: seq<Annotated>)
    ensures |result| == |SelectedOrders(orders, items, menu)|
    ensures forall k :: 0 <= k < |result| ==> result[k].order == SelectedOrders(orders, items, menu)[k]
    ensures forall k :: 0 <= k < |result| ==> Distinct(result[k].ableToCook)
    ensures forall k, r :: 0 <= k < |result| ==>
              (r in result[k].ableToCook <==> CanCookAll(r, ItemsOf(items, result[k].order.id), menu))
  {
    var selected := SelectedOrders(orders, items, menu);
    result := [];
    var k := 0;
    while k < |selected|
      invariant 0 <= k <= |selected|
      invariant |result| == k
      invariant forall t :: 0 <= t < k ==> result[t].order == selected[t]
      invariant forall t :: 0 <= t < k ==> Distinct(result[t].ableToCook)
      invariant forall t, r :: 0 <= t < k ==>
                  (r in result[t].ableToCook <==> CanCookAll(r, ItemsOf(items, result[t].order.id), menu))
    {
      var order := selected[k];
      SelectedOrderMember(orders, items, menu, order);
      var list := AbleToCook(ItemsOf(items, order.id), menu);
      result := result + [Annotated(order, list)];
      k := k + 1;
    }
  }

  /** The restaurants able to cook every item of `own`: per item, the
      restaurants of its product's menu rows, intersected over the items.
      `set.intersection` needs at least one set; a selected order has an item. */
  method AbleToCook(own: seq<OrderItem>, menu: seq<MenuItem>) returns (list: seq<Restaurant>)
    requires |own| > 0
    ensures Distinct(list)
    ensures forall r :: r in list <==> CanCookAll(r, own, menu)
  {
    var available: seq<seq<Restaurant>> := [];
    var i := 0;
    while i < |own|
      invariant 0 <= i <= |own|
      invariant |available| == i
      invariant forall t, r :: 0 <= t < i ==> (r in available[t] <==> Serves(menu, r, own[t].product))
    {
      var productMenu := MenuOf(menu, own[i].product);
      var restaurants: seq<Restaurant> := [];
      var j := 0;
      while j < |productMenu|
        invariant 0 <= j <= |productMenu|
        invariant |restaurants| == j
        invariant forall t :: 0 <= t < j ==> restaurants[t] == productMenu[t].restaurant
      {
        restaurants := restaurants + [productMenu[j].restaurant];
        j := j + 1;
      }
      RestaurantsOfMenu(menu, own[i].product, restaurants);
      available := available + [restaurants];
      i := i + 1;
    }
    var common := IntersectAll(available);
    list := SetToSeq(common);
    forall r ensures r in list <==> CanCookAll(r, own, menu) {
      CommonMeansCanCookAll(available, own, menu, r);
    }
  }
}
