/** Customers and their order histories, and the specification of how a
    list of already-parsed order-file lines is folded into them. */
module Ledger {
  import opened Wrappers
  import opened Inventory

  /** A point in time; the model never inspects it. */
  type Timestamp = int

  /** An order, immutable once created. The product is captured by name,
      not by reference. */
  datatype Order = Order(orderId: int, productName: string, quantity: int,
                         totalPrice: Cents, orderDate: Timestamp)

  /** A customer: an id and a name set once, and an ordered list of orders
      that only grows. */
  class Customer {
    const customerId: string
    const name: string
    var orders: seq<Order>

    constructor (customerId: string, name: string)
      ensures this.customerId == customerId && this.name == name
      ensures orders == []
    {
      this.customerId := customerId;
      this.name := name;
      orders := [];
    }

    method AddOrder(order: Order)
      modifies this`orders
      ensures orders == old(orders) + [order]
    {
      orders := orders + [order];
    }
  }

  /** The position of the first customer with the given id, if any. */
  function FindCustomer(cs: seq<Customer>, id: string): (r: Option<nat>)
    ensures r.Some? ==> r.value < |cs| && cs[r.value].customerId == id
    ensures r.Some? ==> forall j :: 0 <= j < r.value ==> cs[j].customerId != id
    ensures r.None? <==> forall j :: 0 <= j < |cs| ==> cs[j].customerId != id
  {
    if cs == [] then None
    else if cs[0].customerId == id then Some(0)
    else match FindCustomer(cs[1..], id)
      case None => None
      case Some(i) => Some(i + 1)
  }

  /** Appending customers does not change the first match of an id that is
      already present. */
  lemma FindCustomerExtend(cs: seq<Customer>, more: seq<Customer>, id: string)
    requires FindCustomer(cs, id).Some?
    ensures FindCustomer(cs + more, id) == FindCustomer(cs, id)
  {
    var i := FindCustomer(cs, id).value;
    assert (cs + more)[i] == cs[i];
    assert forall j :: 0 <= j < i ==> (cs + more)[j] == cs[j];
  }

  /** Whether `c` is the first customer with the given id. */
  predicate IsOwner(cs: seq<Customer>, id: string, c: Customer)
  {
    var f := FindCustomer(cs, id);
    f.Some? && cs[f.value] == c
  }

  /** One line of the order file, already split and converted. */
  datatype OrderRecord = OrderRecord(orderId: int, customerId: string, customerName: string,
                                     productName: string, quantity: int, totalPrice: Cents,
                                     orderDate: Timestamp)

  /** The order a record stands for, with its stored id and date. */
  function RecordOrder(r: OrderRecord): Order
  {
    Order(r.orderId, r.productName, r.quantity, r.totalPrice, r.orderDate)
  }

  /** The order counter after reading the records in order, each raising it
      to the record's id plus one when that is larger. */
  function CounterAfter(counter: int, rs: seq<OrderRecord>): int
    decreases |rs|
  {
    if rs == [] then counter
    else Max(CounterAfter(counter, rs[..|rs| - 1]), rs[|rs| - 1].orderId + 1)
  }

  /** After loading, the counter is the larger of its old value and one past
      the largest loaded id: it never decreases and exceeds every loaded id. */
  lemma {:induction false} CounterAfterIsMax(counter: int, rs: seq<OrderRecord>)
    ensures CounterAfter(counter, rs) >= counter
    ensures forall r :: r in rs ==> r.orderId < CounterAfter(counter, rs)
    ensures CounterAfter(counter, rs) == counter ||
            exists r :: r in rs && CounterAfter(counter, rs) == r.orderId + 1
  {
    if rs != [] {
      var init := rs[..|rs| - 1];
      CounterAfterIsMax(counter, init);
      assert rs == init + [rs[|rs| - 1]];
      forall r | r in rs ensures r.orderId < CounterAfter(counter, rs) {
        if r != rs[|rs| - 1] {
          assert r in init;
        }
      }
      if CounterAfter(counter, rs) != counter && CounterAfter(counter, rs) != rs[|rs| - 1].orderId + 1 {
        var r :| r in init && CounterAfter(counter, init) == r.orderId + 1;
        assert r in rs;
      }
    }
  }

  /** Loading two lists one after the other leaves the counter where
      loading their concatenation does. */
  lemma {:induction false} CounterAfterAppend(counter: int, a: seq<OrderRecord>, b: seq<OrderRecord>)
    ensures CounterAfter(counter, a + b) == CounterAfter(CounterAfter(counter, a), b)
    decreases |b|
  {
    if b == [] {
      assert a + b == a;
    } else {
      var binit := b[..|b| - 1];
      assert (a + b)[..|a + b| - 1] == a + binit;
      CounterAfterAppend(counter, a, binit);
    }
  }

  /** A customer created while loading, as an id and the name it gets. */
  datatype Registration = Registration(customerId: string, name: string)

  function CustomerIds(cs: seq<Customer>): seq<string>
  {
    seq(|cs|, i requires 0 <= i < |cs| => cs[i].customerId)
  }

  function RegisteredIds(regs: seq<Registration>): seq<string>
  {
    seq(|regs|, i requires 0 <= i < |regs| => regs[i].customerId)
  }

  /** The id and name of each customer, in list order. */
  function Registrations(cs: seq<Customer>): seq<Registration>
  {
    seq(|cs|, i requires 0 <= i < |cs| => Registration(cs[i].customerId, cs[i].name))
  }

  /** The ids of a customer list split into those of a prefix and the
      registrations of the rest. */
  lemma CustomerIdsSplit(cs: seq<Customer>, n: nat)
    requires n <= |cs|
    ensures CustomerIds(cs) == CustomerIds(cs[..n]) + RegisteredIds(Registrations(cs[n..]))
  {
  }

  /** An id has no first match exactly when no customer carries it. */
  lemma FindCustomerIds(cs: seq<Customer>, id: string)
    ensures FindCustomer(cs, id).None? <==> id !in CustomerIds(cs)
  {
    if id in CustomerIds(cs) {
      var m :| 0 <= m < |cs| && CustomerIds(cs)[m] == id;
      assert cs[m].customerId == id;
    }
    if FindCustomer(cs, id).Some? {
      assert CustomerIds(cs)[FindCustomer(cs, id).value] == id;
    }
  }

  /** The customers that reading the records creates, in creation order,
      given the ids already known: one for each record whose customer id is
      neither known nor created by an earlier record. */
  function NewCustomers(known: seq<string>, rs: seq<OrderRecord>): seq<Registration>
    decreases |rs|
  {
    if rs == [] then []
    else
      var prev := NewCustomers(known, rs[..|rs| - 1]);
      var r := rs[|rs| - 1];
      if r.customerId in known + RegisteredIds(prev) then prev
      else prev + [Registration(r.customerId, r.customerName)]
  }

  /** `reg` carries the id and the name of the first record with that id. */
  ghost predicate FirstRecordOf(rs: seq<OrderRecord>, reg: Registration)
  {
    exists j :: 0 <= j < |rs| && rs[j].customerId == reg.customerId && rs[j].customerName == reg.name &&
                forall j' :: 0 <= j' < j ==> rs[j'].customerId != reg.customerId
  }

  /** The customers created while loading are new, each id is created once,
      and afterwards every record's customer id is known. */
  lemma {:induction false} NewCustomersSpec(known: seq<string>, rs: seq<OrderRecord>)
    ensures forall k :: 0 <= k < |NewCustomers(known, rs)| ==>
              NewCustomers(known, rs)[k].customerId !in known
    ensures forall k, l :: 0 <= k < l < |NewCustomers(known, rs)| ==>
              NewCustomers(known, rs)[k].customerId != NewCustomers(known, rs)[l].customerId
    ensures forall r :: r in rs ==> r.customerId in known + RegisteredIds(NewCustomers(known, rs))
    decreases |rs|
  {
    if rs != [] {
      var init := rs[..|rs| - 1];
      var r := rs[|rs| - 1];
      var prev := NewCustomers(known, init);
      NewCustomersSpec(known, init);
      assert rs == init + [r];
      var now := NewCustomers(known, rs);
      if r.customerId !in known + RegisteredIds(prev) {
        assert now == prev + [Registration(r.customerId, r.customerName)];
        assert RegisteredIds(now) == RegisteredIds(prev) + [r.customerId];
        forall k, l | 0 <= k < l < |now| ensures now[k].customerId != now[l].customerId {
          if l == |prev| {
            assert now[k].customerId == RegisteredIds(prev)[k];
          }
        }
      }
      forall x | x in rs ensures x.customerId in known + RegisteredIds(now) {
        if x != r {
          assert x in init;
        }
      }
    }
  }

  /** Each customer created while loading takes its id and its name from the
      first record carrying that id; the names on later records are ignored. */
  lemma {:induction false} NewCustomersNamedByFirstRecord(known: seq<string>, rs: seq<OrderRecord>)
    ensures forall k :: 0 <= k < |NewCustomers(known, rs)| ==> FirstRecordOf(rs, NewCustomers(known, rs)[k])
    decreases |rs|
  {
    if rs != [] {
      var init := rs[..|rs| - 1];
      var r := rs[|rs| - 1];
      var prev := NewCustomers(known, init);
      NewCustomersNamedByFirstRecord(known, init);
      NewCustomersSpec(known, init);
      var now := NewCustomers(known, rs);
      forall k | 0 <= k < |prev| ensures FirstRecordOf(rs, prev[k]) {
        var j :| 0 <= j < |init| && init[j].customerId == prev[k].customerId &&
                 init[j].customerName == prev[k].name &&
                 forall j' :: 0 <= j' < j ==> init[j'].customerId != prev[k].customerId;
        assert rs[j] == init[j];
        assert forall j' :: 0 <= j' < j ==> rs[j'] == init[j'];
      }
      if r.customerId !in known + RegisteredIds(prev) {
        var reg := Registration(r.customerId, r.customerName);
        assert now == prev + [reg];
        forall j' | 0 <= j' < |rs| - 1 ensures rs[j'].customerId != r.customerId {
          assert rs[j'] == init[j'];
          assert init[j'] in init;
        }
        assert FirstRecordOf(rs, reg) by {
          assert rs[|rs| - 1] == r;
        }
      }
    }
  }

  /** The orders that reading the records appends to customer `c`: those of
      the records whose customer id first matches `c` in `cs`, in order. */
  function LoadedFor(cs: seq<Customer>, rs: seq<OrderRecord>, c: Customer): seq<Order>
    decreases |rs|
  {
    if rs == [] then []
    else
      var r := rs[|rs| - 1];
      LoadedFor(cs, rs[..|rs| - 1], c) + (if IsOwner(cs, r.customerId, c) then [RecordOrder(r)] else [])
  }

  /** Appending customers after all the records' customers are present does
      not redirect any record. */
  lemma {:induction false} LoadedForExtend(cs: seq<Customer>, more: seq<Customer>,
                                           rs: seq<OrderRecord>, c: Customer)
    requires forall r :: r in rs ==> FindCustomer(cs, r.customerId).Some?
    ensures LoadedFor(cs + more, rs, c) == LoadedFor(cs, rs, c)
    decreases |rs|
  {
    if rs != [] {
      var r := rs[|rs| - 1];
      var init := rs[..|rs| - 1];
      assert forall x :: x in init ==> x in rs;
      LoadedForExtend(cs, more, init, c);
      FindCustomerExtend(cs, more, r.customerId);
      var i := FindCustomer(cs, r.customerId).value;
      assert (cs + more)[i] == cs[i];
    }
  }

  /** One more record, read against a customer list that has meanwhile
      grown at its end, adds at most that record's order. */
  lemma LoadedForStep(cs: seq<Customer>, cs2: seq<Customer>, rs: seq<OrderRecord>,
                      r: OrderRecord, c: Customer)
    requires |cs| <= |cs2| && cs2[..|cs|] == cs
    requires forall x :: x in rs ==> FindCustomer(cs, x.customerId).Some?
    ensures LoadedFor(cs2, rs + [r], c) ==
              LoadedFor(cs, rs, c) + (if IsOwner(cs2, r.customerId, c) then [RecordOrder(r)] else [])
  {
    assert (rs + [r])[..|rs|] == rs;
    assert cs2 == cs + cs2[|cs|..];
    LoadedForExtend(cs, cs2[|cs|..], rs, c);
  }

  /** A customer that is not in the list receives none of the records. */
  lemma {:induction false} LoadedForAbsent(cs: seq<Customer>, rs: seq<OrderRecord>, c: Customer)
    requires c !in cs
    ensures LoadedFor(cs, rs, c) == []
    decreases |rs|
  {
    if rs != [] {
      LoadedForAbsent(cs, rs[..|rs| - 1], c);
    }
  }

  /** The ids of a list whose first `n` customers carry the ids `known`
      and whose others are the customers created while reading `rs` cover
      every id that `rs` mentions. */
  lemma AllRecordsFound(known: seq<string>, n: nat, cs: seq<Customer>, rs: seq<OrderRecord>)
    requires n <= |cs| && CustomerIds(cs[..n]) == known
    requires Registrations(cs[n..]) == NewCustomers(known, rs)
    ensures forall x :: x in rs ==> FindCustomer(cs, x.customerId).Some?
  {
    NewCustomersSpec(known, rs);
    CustomerIdsSplit(cs, n);
    forall x | x in rs ensures FindCustomer(cs, x.customerId).Some? {
      FindCustomerIds(cs, x.customerId);
    }
  }

  /** Reading one more record creates a customer exactly as NewCustomers
      says, when the list grows by the customer the record asks for. */
  lemma RegistrationsStep(known: seq<string>, n: nat, cs: seq<Customer>, cs2: seq<Customer>,
                          rs: seq<OrderRecord>, r: OrderRecord)
    requires n <= |cs| && CustomerIds(cs[..n]) == known
    requires Registrations(cs[n..]) == NewCustomers(known, rs)
    requires FindCustomer(cs, r.customerId).Some? ==> cs2 == cs
    requires FindCustomer(cs, r.customerId).None? ==>
               |cs2| == |cs| + 1 && cs2[..|cs|] == cs &&
               cs2[|cs|].customerId == r.customerId && cs2[|cs|].name == r.customerName
    ensures Registrations(cs2[n..]) == NewCustomers(known, rs + [r])
  {
    assert (rs + [r])[..|rs|] == rs;
    CustomerIdsSplit(cs, n);
    FindCustomerIds(cs, r.customerId);
    if FindCustomer(cs, r.customerId).None? {
      assert cs2[n..] == cs[n..] + [cs2[|cs|]];
    }
  }

  /** The order lists of the customers, position by position. */
  ghost function OrdersOf(cs: seq<Customer>): seq<seq<Order>>
    reads cs
  {
    seq(|cs|, j requires 0 <= j < |cs| reads cs => cs[j].orders)
  }

  /** The order lists after one more record: each customer keeps its list
      (a customer beyond `prev` starts empty) and the record's first match
      gets the record's order. */
  function AfterRecord(prev: seq<seq<Order>>, cs: seq<Customer>, r: OrderRecord): seq<seq<Order>>
  {
    seq(|cs|, j requires 0 <= j < |cs| =>
      (if j < |prev| then prev[j] else []) +
      (if IsOwner(cs, r.customerId, cs[j]) then [RecordOrder(r)] else []))
  }

  /** In AfterRecord the record's first match gets the record's order
      appended, and every other customer keeps its list. */
  lemma AfterRecordSpec(prev: seq<seq<Order>>, cs: seq<Customer>, r: OrderRecord)
    requires |prev| <= |cs|
    ensures |AfterRecord(prev, cs, r)| == |cs|
    ensures FindCustomer(cs, r.customerId).Some? ==>
              var i := FindCustomer(cs, r.customerId).value;
              AfterRecord(prev, cs, r)[i] == (if i < |prev| then prev[i] else []) + [RecordOrder(r)]
    ensures forall j :: 0 <= j < |cs| && !IsOwner(cs, r.customerId, cs[j]) ==>
              AfterRecord(prev, cs, r)[j] == (if j < |prev| then prev[j] else [])
  {
  }

  /** The order lists after all the records, from the lists `base` that the
      first customers had before. */
  function AfterRecords(base: seq<seq<Order>>, cs: seq<Customer>, rs: seq<OrderRecord>): seq<seq<Order>>
  {
    seq(|cs|, j requires 0 <= j < |cs| => (if j < |base| then base[j] else []) + LoadedFor(cs, rs, cs[j]))
  }

  lemma AppendAssoc<T>(a: seq<T>, b: seq<T>, c: seq<T>)
    ensures a + (b + c) == (a + b) + c
  {
  }

  /** Reading no records changes no order list. */
  lemma AfterNoRecords(base: seq<seq<Order>>, cs: seq<Customer>)
    requires |base| == |cs|
    ensures AfterRecords(base, cs, []) == base
  {
    forall j | 0 <= j < |cs| ensures AfterRecords(base, cs, [])[j] == base[j] {
      assert LoadedFor(cs, [], cs[j]) == [];
    }
  }

  /** One position of AfterRecordsStep. */
  lemma AfterRecordsStepAt(base: seq<seq<Order>>, cs: seq<Customer>, cs2: seq<Customer>,
                           rs: seq<OrderRecord>, r: OrderRecord, j: nat)
    requires |base| <= |cs| <= |cs2| && cs2[..|cs|] == cs
    requires forall x :: x in rs ==> FindCustomer(cs, x.customerId).Some?
    requires |cs| <= j < |cs2| ==> cs2[j] !in cs
    requires j < |cs2|
    ensures AfterRecords(base, cs2, rs + [r])[j] == AfterRecord(AfterRecords(base, cs, rs), cs2, r)[j]
  {
    var c := cs2[j];
    var owner := if IsOwner(cs2, r.customerId, c) then [RecordOrder(r)] else [];
    var b := if j < |base| then base[j] else [];
    var mid := AfterRecords(base, cs, rs);
    LoadedForStep(cs, cs2, rs, r, c);
    var loaded := LoadedFor(cs, rs, c);
    assert AfterRecords(base, cs2, rs + [r])[j] == b + (loaded + owner);
    if j < |cs| {
      assert cs[j] == c;
      assert mid[j] == b + loaded;
      AppendAssoc(b, loaded, owner);
    } else {
      LoadedForAbsent(cs, rs, c);
    }
  }

  /** Reading one more record against a list grown only by customers that
      were absent before is one AfterRecord step. */
  lemma AfterRecordsStep(base: seq<seq<Order>>, cs: seq<Customer>, cs2: seq<Customer>,
                         rs: seq<OrderRecord>, r: OrderRecord)
    requires |base| <= |cs| <= |cs2| && cs2[..|cs|] == cs
    requires forall x :: x in rs ==> FindCustomer(cs, x.customerId).Some?
    requires forall j :: |cs| <= j < |cs2| ==> cs2[j] !in cs
    ensures AfterRecords(base, cs2, rs + [r]) == AfterRecord(AfterRecords(base, cs, rs), cs2, r)
  {
    forall j | 0 <= j < |cs2|
      ensures AfterRecords(base, cs2, rs + [r])[j] == AfterRecord(AfterRecords(base, cs, rs), cs2, r)[j]
    {
      AfterRecordsStepAt(base, cs, cs2, rs, r, j);
    }
  }

  /** Order ids strictly increase along the list. */
  ghost predicate IdsIncreasing(os: seq<Order>)
  {
    forall i, j :: 0 <= i < j < |os| ==> os[i].orderId < os[j].orderId
  }

  /** Every stored order of `c` has an id below `bound`. */
  ghost predicate OrdersBelow(c: Customer, bound: int)
    reads c
  {
    forall o :: o in c.orders ==> o.orderId < bound
  }
}
