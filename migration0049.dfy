/** Data migration 0049 of foodcartapp: every stored order gets `called_at`
    and `delivered_at` set to NULL and is saved again. */
module Migration0049 {
  import opened Records
  import opened Collections
  import opened Queries
  import opened OrderStore

  /** An order with both timestamps cleared. */
  function Cleared(o: Order): Order {
    o.(calledAt := None, deliveredAt := None)
  }

  /** The orders table after the migration. */
  function ClearedTimes(orders: seq<Order>): (r: seq<Order>)
    ensures |r| == |orders|
    ensures forall k :: 0 <= k < |orders| ==> r[k] == Cleared(orders[k])
  {
    if orders == [] then [] else [Cleared(orders[0])] + ClearedTimes(orders[1..])
  }

  /** Running the migration twice leaves what running it once does. */
  lemma {:induction false} ClearedTimesIdempotent(orders: seq<Order>)
    ensures ClearedTimes(ClearedTimes(orders)) == ClearedTimes(orders)
  {
    var once := ClearedTimes(orders);
    assert forall k :: 0 <= k < |once| ==> ClearedTimes(once)[k] == once[k];
  }

  lemma {:induction false} FilterCleared(orders: seq<Order>, items: seq<OrderItem>, menu: seq<MenuItem>)
    ensures OpenWithAvailableItem(ClearedTimes(orders), items, menu) ==
            ClearedTimes(OpenWithAvailableItem(orders, items, menu))
  {
    if orders != [] {
      FilterCleared(orders[1..], items, menu);
      var head := if IsOpen(orders[0]) && HasAvailableItem(orders[0], items, menu) then [orders[0]] else [];
      ClearedTimesAppend(head, OpenWithAvailableItem(orders[1..], items, menu));
    }
  }

  lemma {:induction false} ClearedTimesAppend(a: seq<Order>, b: seq<Order>)
    ensures ClearedTimes(a + b) == ClearedTimes(a) + ClearedTimes(b)
  {
    if a != [] {
      assert (a + b)[1..] == a[1..] + b;
      ClearedTimesAppend(a[1..], b);
    }
  }

  lemma {:induction false} InsertCleared(x: Order, s: seq<Order>)
    ensures InsertBy(Cleared(x), ClearedTimes(s), ResponsibleKey, IntLe) ==
            ClearedTimes(InsertBy(x, s, ResponsibleKey, IntLe))
  {
    if s != [] && !IntLe(ResponsibleKey(x), ResponsibleKey(s[0])) {
      InsertCleared(x, s[1..]);
    }
  }

  lemma {:induction false} SortCleared(s: seq<Order>)
    ensures SortBy(ClearedTimes(s), ResponsibleKey, IntLe) == ClearedTimes(SortBy(s, ResponsibleKey, IntLe))
  {
    if s != [] {
      SortCleared(s[1..]);
      InsertCleared(s[0], SortBy(s[1..], ResponsibleKey, IntLe));
    }
  }

  /** The manager page lists, after the migration, the same orders in the same
      order, only with the timestamps cleared: the selection reads status,
      items and responsible restaurant, none of which the migration touches. */
  lemma SelectedOrdersCleared(orders: seq<Order>, items: seq<OrderItem>, menu: seq<MenuItem>)
    ensures SelectedOrders(ClearedTimes(orders), items, menu) == ClearedTimes(SelectedOrders(orders, items, menu))
  {
    FilterCleared(orders, items, menu);
    SortCleared(OpenWithAvailableItem(orders, items, menu));
  }

  /** `add_called_at_delivered_at_to_orders`: the loop over all orders. */
  method ClearCallAndDeliveryTimes(table: OrderTable)
    requires table.Valid()
    modifies table
    ensures table.Valid()
    ensures table.orders == ClearedTimes(old(table.orders))
    ensures table.items == old(table.items) && table.nextOrderId == old(table.nextOrderId)
  {
    var k := 0;
    while k < |table.orders|
      invariant 0 <= k <= |table.orders| == |old(table.orders)|
      invariant forall q :: 0 <= q < k ==> table.orders[q] == Cleared(old(table.orders)[q])
      invariant forall q :: k <= q < |table.orders| ==> table.orders[q] == old(table.orders)[q]
      invariant table.items == old(table.items) && table.nextOrderId == old(table.nextOrderId)
      invariant table.Valid()
    {
      RewriteKeepsConsistent(table.orders, table.items, table.nextOrderId, k, Cleared(table.orders[k]));
      table.orders := table.orders[k := Cleared(table.orders[k])];
      k := k + 1;
    }
  }
}
