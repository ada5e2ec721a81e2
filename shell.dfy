/** The one menu action that joins the two stores: ordering a product by id.
    The product found in the catalog is the object the order workflow
    changes, so the stock change is visible through the catalog. */
module Shell {
  import opened Wrappers
  import opened Inventory
  import opened Ledger
  import opened OrderManagement

  /** What the order action reports. */
  datatype MenuResult = ProductNotFound | Ordered(outcome: Outcome)

  /** Looks the product up by id in the catalog and, when it exists, places
      the order against that product object. */
  method PlaceOrder(inv: InventoryManager, mgr: OrderManager, customerId: string, productId: string,
                    quantity: int, now: Timestamp) returns (result: MenuResult)
    modifies mgr`orderIdCounter, mgr.customers, inv.products
    ensures inv.products == old(inv.products) && mgr.customers == old(mgr.customers)
    ensures result == ProductNotFound <==> FindProduct(inv.products, productId).None?
    ensures result == ProductNotFound ==>
              && (forall q :: q in inv.products ==> q.quantity == old(q.quantity))
              && (forall c :: c in mgr.customers ==> c.orders == old(c.orders))
              && mgr.orderIdCounter == old(mgr.orderIdCounter)
    ensures result.Ordered? ==>
              var p := inv.products[FindProduct(inv.products, productId).value];
              && (result.outcome == CustomerNotFound <==> FindCustomer(mgr.customers, customerId).None?)
              && (result.outcome == NotEnoughStock <==>
                    FindCustomer(mgr.customers, customerId).Some? && old(p.quantity) < quantity)
              && (result.outcome.Placed? ==>
                    && result.outcome.order == Order(old(mgr.orderIdCounter), p.name, quantity,
                                                     p.price * quantity, now)
                    && p.quantity == old(p.quantity) - quantity
                    && mgr.orderIdCounter == old(mgr.orderIdCounter) + 1
                    && var t := mgr.customers[FindCustomer(mgr.customers, customerId).value];
                    && t.orders == old(t.orders) + [result.outcome.order]
                    && forall c :: c in mgr.customers && c != t ==> c.orders == old(c.orders))
              && (!result.outcome.Placed? ==>
                    && p.quantity == old(p.quantity)
                    && mgr.orderIdCounter == old(mgr.orderIdCounter)
                    && forall c :: c in mgr.customers ==> c.orders == old(c.orders))
              && forall q :: q in inv.products && q != p ==> q.quantity == old(q.quantity)
    ensures old(mgr.Valid()) ==> mgr.Valid()
    ensures old(mgr.Valid()) && old(mgr.IdsInOrder()) ==> mgr.IdsInOrder()
  {
    var product := inv.GetProductById(productId);
    if product == null {
      return ProductNotFound;
    }
    var outcome := mgr.CreateOrder(customerId, product, quantity, now);
    return Ordered(outcome);
  }

  /** A catalog holding 10 widgets at 2.50: ordering 3 succeeds with order
      id 1 and leaves 7 in the catalog; ordering 20 more is refused and
      changes nothing. */
  method WidgetScenario(now: Timestamp)
  {
    var inv := new InventoryManager();
    var widget := new Product("P1", "Widget", 10, 250);
    inv.AddProduct(widget);
    var mgr := new OrderManager();
    var c1 := new Customer("C1", "Ada");
    mgr.RegisterCustomer(c1);
    var r := PlaceOrder(inv, mgr, "C1", "P1", 3, now);
    assert r == Ordered(Placed(Order(1, "Widget", 3, 750, now)));
    assert inv.products[0].quantity == 7;
    assert c1.orders == [Order(1, "Widget", 3, 750, now)];
    r := PlaceOrder(inv, mgr, "C1", "P1", 20, now);
    assert r == Ordered(NotEnoughStock);
    assert inv.products[0].quantity == 7 && mgr.orderIdCounter == 2;
    assert c1.orders == [Order(1, "Widget", 3, 750, now)];
    r := PlaceOrder(inv, mgr, "C9", "P1", 1, now);
    assert r == Ordered(CustomerNotFound);
    r := PlaceOrder(inv, mgr, "C1", "P9", 1, now);
    assert r == ProductNotFound;
  }
}
