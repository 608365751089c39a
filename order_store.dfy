/** The Order and OrderItem tables (foodcartapp/models.py) as one object that
    `register_order` and migration 0049 write to: the rows in table order and
    the next value of the order id sequence. */
module OrderStore {
  import opened Records

  /** The order a fresh `Order.objects.create(...)` stores: every other column
      takes its default. */
  function NewOrder(id: nat, firstname: string, lastname: string, phonenumber: string, address: string,
                    now: int): Order
  {
    Order(id, firstname, lastname, phonenumber, address, Unprocessed, "", now, None, None, UnknownPayment, None)
  }

  /** Primary keys are unique and below the sequence's next value; every item
      refers to a stored order (the foreign key). */
  ghost predicate Consistent(orders: seq<Order>, items: seq<OrderItem>, nextOrderId: nat) {
    (forall k :: 0 <= k < |orders| ==> orders[k].id < nextOrderId) &&
    (forall i, j :: 0 <= i < j < |orders| ==> orders[i].id != orders[j].id) &&
    (forall it :: it in items ==> exists o :: o in orders && o.id == it.order)
  }

  /** Rewriting one order's other columns keeps the keys consistent. */
  lemma RewriteKeepsConsistent(orders: seq<Order>, items: seq<OrderItem>, nextOrderId: nat, k: nat, o: Order)
    requires Consistent(orders, items, nextOrderId)
    requires k < |orders| && o.id == orders[k].id
    ensures Consistent(orders[k := o], items, nextOrderId)
  {
    var after := orders[k := o];
    forall it | it in items ensures exists p :: p in after && p.id == it.order {
      var p :| p in orders && p.id == it.order;
      var q :| 0 <= q < |orders| && orders[q] == p;
      assert after[q].id == p.id;
    }
  }

  class OrderTable {
    var orders: seq<Order>
    var items: seq<OrderItem>
    var nextOrderId: nat

    ghost predicate Valid()
      reads this
    {
      Consistent(orders, items, nextOrderId)
    }

    constructor ()
      ensures Valid() && orders == [] && items == [] && nextOrderId == 1
    {
      orders := [];
      items := [];
      nextOrderId := 1;
    }

    /** `Order.objects.create(firstname=..., lastname=..., phonenumber=..., address=...)`,
        registered at `now`. */
    method CreateOrder(firstname: string, lastname: string, phonenumber: string, address: string, now: int)
      returns (order: Order)
      requires Valid()
      modifies this
      ensures Valid()
      ensures order == NewOrder(old(nextOrderId), firstname, lastname, phonenumber, address, now)
      ensures orders == old(orders) + [order] && items == old(items)
      ensures nextOrderId == old(nextOrderId) + 1
    {
      order := NewOrder(nextOrderId, firstname, lastname, phonenumber, address, now);
      orders := orders + [order];
      nextOrderId := nextOrderId + 1;
    }

    /** `OrderItem.objects.create(order=..., product=..., quantity=..., price=...)`.
        A missing price violates the NOT NULL column and an unknown order the
        foreign key; either way the insert fails and nothing is stored. */
    method CreateItem(order: nat, product: nat, quantity: int, price: Option<int>) returns (stored: bool)
      requires Valid()
      modifies this
      ensures Valid()
      ensures stored <==> price.Some? && exists o :: o in old(orders) && o.id == order
      ensures stored ==> items == old(items) + [OrderItem(order, product, quantity, price.value)]
      ensures !stored ==> items == old(items)
      ensures orders == old(orders) && nextOrderId == old(nextOrderId)
    {
      stored := price.Some? && exists o :: o in orders && o.id == order;
      if stored {
        items := items + [OrderItem(order, product, quantity, price.value)];
      }
    }
  }
}
