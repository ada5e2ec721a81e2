/** The order workflow: the customer roster, the order-id counter, order
    placement against a product object, and the bookkeeping of reloading the
    order history. */
module OrderManagement {
  import opened Wrappers
  import opened Inventory
  import opened Ledger

  /** What placing an order reports. */
  datatype Outcome = CustomerNotFound | NotEnoughStock | Placed(order: Order)

  class OrderManager {
    var customers: seq<Customer>
    var orderIdCounter: int

    /** The counter is positive and lies above every stored order id, so the
        next order placed gets an id no stored order has. */
    ghost predicate Valid()
      reads this, customers
    {
      && orderIdCounter >= 1
      && forall c :: c in customers ==> OrdersBelow(c, orderIdCounter)
    }

    /** Each customer's orders are in strictly increasing id order. Orders
        placed in a session keep this; a reload is not shown to keep it, as
        it appends the loaded orders in file order whatever their ids. */
    ghost predicate IdsInOrder()
      reads this, customers
    {
      forall c :: c in customers ==> IdsIncreasing(c.orders)
    }

    constructor ()
      ensures customers == [] && orderIdCounter == 1
      ensures Valid() && IdsInOrder()
    {
      customers := [];
      orderIdCounter := 1;
    }

    /** Appends without any uniqueness check. The invariant survives exactly
        when the customer's own orders lie below the counter, as they do for
        the newly created customers every caller passes. */
    method RegisterCustomer(c: Customer)
      modifies this`customers
      ensures customers == old(customers) + [c]
      ensures old(Valid()) ==> (Valid() <==> OrdersBelow(c, orderIdCounter))
    {
      customers := customers + [c];
    }

    /** The first customer in list order with the given id, or null. */
    method GetCustomerById(id: string) returns (r: Customer?)
      ensures r == null <==> forall j :: 0 <= j < |customers| ==> customers[j].customerId != id
      ensures r != null ==> exists i :: 0 <= i < |customers| && customers[i] == r && r.customerId == id &&
                                        forall j :: 0 <= j < i ==> customers[j].customerId != id
      ensures r != null <==> FindCustomer(customers, id).Some?
      ensures r != null ==> r == customers[FindCustomer(customers, id).value]
    {
      var k := 0;
      while k < |customers|
        invariant 0 <= k <= |customers|
        invariant forall j :: 0 <= j < k ==> customers[j].customerId != id
      {
        if customers[k].customerId == id {
          return customers[k];
        }
        k := k + 1;
      }
      return null;
    }

    /** Places an order of `quantity` units of `product` for the first
        customer with the given id. An unknown customer or too little stock
        changes nothing; otherwise the stock drops by the quantity, one order
        carrying the current counter is appended to that customer, and the
        counter moves on by one. */
    method CreateOrder(customerId: string, product: Product, quantity: int, now: Timestamp)
      returns (outcome: Outcome)
      modifies this`orderIdCounter, product`quantity, customers
      ensures customers == old(customers)
      ensures outcome == CustomerNotFound <==> FindCustomer(customers, customerId).None?
      ensures outcome == NotEnoughStock <==>
                FindCustomer(customers, customerId).Some? && old(product.quantity) < quantity
      ensures !outcome.Placed? ==>
                && product.quantity == old(product.quantity)
                && orderIdCounter == old(orderIdCounter)
                && forall c :: c in customers ==> c.orders == old(c.orders)
      ensures outcome.Placed? ==>
                var target := customers[FindCustomer(customers, customerId).value];
                && outcome.order == Order(old(orderIdCounter), product.name, quantity,
                                          product.price * quantity, now)
                && product.quantity == old(product.quantity) - quantity
                && product.quantity >= 0
                && target.orders == old(target.orders) + [outcome.order]
                && (forall c :: c in customers && c != target ==> c.orders == old(c.orders))
                && orderIdCounter == old(orderIdCounter) + 1
      ensures old(Valid()) ==> Valid()
      ensures old(Valid()) && outcome.Placed? ==>
                forall c, o :: c in customers && o in old(c.orders) ==> o.orderId < outcome.order.orderId
      ensures old(Valid()) && old(IdsInOrder()) ==> IdsInOrder()
    {
      var customer := GetCustomerById(customerId);
      if customer == null {
        return CustomerNotFound;
      }
      if product.quantity >= quantity {
        var total := product.price * quantity;
        var order := Order(orderIdCounter, product.name, quantity, total, now);
        product.UpdateStock(-quantity);
        customer.AddOrder(order);
        orderIdCounter := orderIdCounter + 1;
        outcome := Placed(order);
        assert forall c :: c in customers && c != customer ==> c.orders == old(c.orders);
      } else {
        outcome := NotEnoughStock;
      }
    }
    /** The bookkeeping for one line of the order file: the order goes to the
        first customer with the line's customer id, a customer is created
        under the line's name when there is none, and the counter is raised
        to one past the line's id when that is larger. */
    method LoadRecord(r: OrderRecord)
      modifies this, customers
      ensures orderIdCounter == Max(old(orderIdCounter), r.orderId + 1)
      ensures match FindCustomer(old(customers), r.customerId)
        case Some(_) => customers == old(customers)
        case None =>
          && |customers| == |old(customers)| + 1
          && customers[..|old(customers)|] == old(customers)
          && fresh(customers[|old(customers)|])
          && customers[|old(customers)|].customerId == r.customerId
          && customers[|old(customers)|].name == r.customerName
      ensures OrdersOf(customers) == AfterRecord(old(OrdersOf(customers)), customers, r)
      ensures old(Valid()) ==> Valid()
    {
      var customer := GetCustomerById(r.customerId);
      if customer == null {
        customer := new Customer(r.customerId, r.customerName);
        RegisterCustomer(customer);
      }
      customer.AddOrder(RecordOrder(r));
      orderIdCounter := Max(orderIdCounter, r.orderId + 1);
      ghost var was := old(OrdersOf(customers));
      forall j | 0 <= j < |customers|
        ensures OrdersOf(customers)[j] == AfterRecord(was, customers, r)[j]
      {
        if j < |was| {
          assert was[j] == old(customers[j].orders);
        }
      }
    }
    /** One turn of LoadOrders: LoadRecord on the next record, keeping the
        description of everything loaded since the start up to date. The
        ghost parameters name the start: the customer list, its ids, its
        order lists, and the records read so far. */
    method LoadNextRecord(r: OrderRecord, ghost start: seq<Customer>, ghost before: seq<seq<Order>>,
                          ghost done: seq<OrderRecord>)
      requires |start| <= |customers| && customers[..|start|] == start && |before| == |start|
      requires Registrations(customers[|start|..]) == NewCustomers(CustomerIds(start), done)
      requires OrdersOf(customers) == AfterRecords(before, customers, done)
      modifies this, customers
      ensures orderIdCounter == Max(old(orderIdCounter), r.orderId + 1)
      ensures |old(customers)| <= |customers| && customers[..|old(customers)|] == old(customers)
      ensures forall j :: |old(customers)| <= j < |customers| ==> fresh(customers[j])
      ensures Registrations(customers[|start|..]) == NewCustomers(CustomerIds(start), done + [r])
      ensures OrdersOf(customers) == AfterRecords(before, customers, done + [r])
      ensures old(Valid()) ==> Valid()
    {
      ghost var cs := customers;
      assert forall x :: x in done ==> FindCustomer(cs, x.customerId).Some? by {
        AllRecordsFound(CustomerIds(start), |start|, cs, done);
      }
      LoadRecord(r);
      RegistrationsStep(CustomerIds(start), |start|, cs, customers, done, r);
      AfterRecordsStep(before, cs, customers, done, r);
    }

    /** The bookkeeping of reloading the order history from lines already
        parsed into records, one record at a time in file order. */
    method LoadOrders(records: seq<OrderRecord>)
      modifies this, customers
      ensures orderIdCounter == CounterAfter(old(orderIdCounter), records)
      ensures |customers| >= |old(customers)| && customers[..|old(customers)|] == old(customers)
      ensures Registrations(customers[|old(customers)|..]) ==
                NewCustomers(CustomerIds(old(customers)), records)
      ensures forall k :: |old(customers)| <= k < |customers| ==> fresh(customers[k])
      ensures OrdersOf(customers) == AfterRecords(old(OrdersOf(customers)), customers, records)
      ensures forall r :: r in records ==> FindCustomer(customers, r.customerId).Some?
      ensures old(Valid()) ==> Valid()
    {
      ghost var start := customers;
      ghost var before := OrdersOf(customers);
      var k := 0;
      assert customers[|start|..] == [] && records[..0] == [];
      AfterNoRecords(before, customers);
      while k < |records|
        invariant 0 <= k <= |records|
        invariant orderIdCounter == CounterAfter(old(orderIdCounter), records[..k])
        invariant |start| <= |customers| && customers[..|start|] == start
        invariant Registrations(customers[|start|..]) == NewCustomers(CustomerIds(start), records[..k])
        invariant forall j :: |start| <= j < |customers| ==> fresh(customers[j])
        invariant OrdersOf(customers) == AfterRecords(before, customers, records[..k])
        invariant old(Valid()) ==> Valid()
      {
        ghost var cs := customers;
        assert records[..k + 1] == records[..k] + [records[k]];
        LoadNextRecord(records[k], start, before, records[..k]);
        forall j | |start| <= j < |customers| ensures fresh(customers[j]) {
          if j < |cs| {
            assert customers[j] == cs[j];
          }
        }
        k := k + 1;
      }
      assert records[..k] == records;
      assert forall x :: x in records ==> FindCustomer(customers, x.customerId).Some? by {
        AllRecordsFound(CustomerIds(start), |start|, customers, records);
      }
    }
  }
}
