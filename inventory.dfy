/** The product catalog: products kept in insertion order, looked up by a
    first-match linear scan, with stock changed in place on the product
    objects themselves. */
module Inventory {
  import opened Wrappers

  /** A price in whole cents; the source keeps a floating-point value. */
  type Cents = int

  /** A product. Its id, name and price are set once; its stock is changed
      in place, also through every other reference to the same object. */
  class Product {
    const productId: string
    const name: string
    var quantity: int
    const price: Cents

    constructor (productId: string, name: string, quantity: int, price: Cents)
      ensures this.productId == productId && this.name == name
      ensures this.quantity == quantity && this.price == price
    {
      this.productId := productId;
      this.name := name;
      this.quantity := quantity;
      this.price := price;
    }

    /** Adds a signed amount to the stock; nothing checks the sign of the result. */
    method UpdateStock(amount: int)
      modifies this`quantity
      ensures quantity == old(quantity) + amount
    {
      quantity := quantity + amount;
    }
  }

  /** The position of the first product with the given id, if any. */
  function FindProduct(ps: seq<Product>, id: string): (r: Option<nat>)
    ensures r.Some? ==> r.value < |ps| && ps[r.value].productId == id
    ensures r.Some? ==> forall j :: 0 <= j < r.value ==> ps[j].productId != id
    ensures r.None? <==> forall j :: 0 <= j < |ps| ==> ps[j].productId != id
  {
    if ps == [] then None
    else if ps[0].productId == id then Some(0)
    else match FindProduct(ps[1..], id)
      case None => None
      case Some(i) => Some(i + 1)
  }

  /** The products whose id differs from `id`, in their original order. */
  function Remaining(ps: seq<Product>, id: string): (r: seq<Product>)
    ensures |r| <= |ps|
    ensures forall p :: p in r ==> p in ps && p.productId != id
    ensures forall p :: p in ps && p.productId != id ==> p in r
  {
    if ps == [] then []
    else if ps[0].productId == id then Remaining(ps[1..], id)
    else [ps[0]] + Remaining(ps[1..], id)
  }

  /** Filtering a concatenation filters each part and keeps them in order:
      together with the one-element cases this makes Remaining an
      order-preserving filter. */
  lemma {:induction false} RemainingAppend(a: seq<Product>, b: seq<Product>, id: string)
    ensures Remaining(a + b, id) == Remaining(a, id) + Remaining(b, id)
  {
    if a == [] {
      assert a + b == b;
    } else {
      assert (a + b)[1..] == a[1..] + b;
      RemainingAppend(a[1..], b, id);
    }
  }

  /** Deleting an id that no product carries leaves the list as it was. */
  lemma {:induction false} RemainingAbsent(ps: seq<Product>, id: string)
    requires forall j :: 0 <= j < |ps| ==> ps[j].productId != id
    ensures Remaining(ps, id) == ps
  {
    if ps != [] {
      RemainingAbsent(ps[1..], id);
    }
  }

  /** The list shrinks exactly when some product carries the id. */
  lemma {:induction false} RemainingShrinks(ps: seq<Product>, id: string)
    ensures |Remaining(ps, id)| < |ps| <==> FindProduct(ps, id).Some?
  {
    if ps != [] && ps[0].productId != id {
      RemainingShrinks(ps[1..], id);
    }
  }

  /** Deleting the same id twice is the same as deleting it once. */
  lemma RemainingIdempotent(ps: seq<Product>, id: string)
    ensures Remaining(Remaining(ps, id), id) == Remaining(ps, id)
  {
    var r := Remaining(ps, id);
    forall j | 0 <= j < |r| ensures r[j].productId != id {
      assert r[j] in r;
    }
    RemainingAbsent(r, id);
  }

  /** Deleting two ids gives the same list in either order. */
  lemma {:induction false} RemainingCommutes(ps: seq<Product>, a: string, b: string)
    ensures Remaining(Remaining(ps, a), b) == Remaining(Remaining(ps, b), a)
  {
    if ps != [] {
      RemainingCommutes(ps[1..], a, b);
      var rest := ps[1..];
      if ps[0].productId != a && ps[0].productId != b {
        RemainingAppend([ps[0]], Remaining(rest, a), b);
        RemainingAppend([ps[0]], Remaining(rest, b), a);
      } else if ps[0].productId == a && ps[0].productId != b {
        RemainingAppend([ps[0]], Remaining(rest, b), a);
      } else if ps[0].productId != a && ps[0].productId == b {
        RemainingAppend([ps[0]], Remaining(rest, a), b);
      }
    }
  }

  /** The catalog: an ordered list of products that may repeat an id. */
  class InventoryManager {
    var products: seq<Product>

    constructor ()
      ensures products == []
    {
      products := [];
    }

    /** Appends without any uniqueness check. */
    method AddProduct(p: Product)
      modifies this`products
      ensures products == old(products) + [p]
    {
      products := products + [p];
    }

    /** The first product in list order with the given id, or null. */
    method GetProductById(id: string) returns (r: Product?)
      ensures r == null <==> forall j :: 0 <= j < |products| ==> products[j].productId != id
      ensures r != null ==> exists i :: 0 <= i < |products| && products[i] == r && r.productId == id &&
                                        forall j :: 0 <= j < i ==> products[j].productId != id
      ensures r != null <==> FindProduct(products, id).Some?
      ensures r != null ==> r == products[FindProduct(products, id).value]
    {
      var k := 0;
      while k < |products|
        invariant 0 <= k <= |products|
        invariant forall j :: 0 <= j < k ==> products[j].productId != id
      {
        if products[k].productId == id {
          return products[k];
        }
        k := k + 1;
      }
      return null;
    }

    /** Changes the stock of the first product with the given id by a signed
        amount; reports whether such a product exists. */
    method UpdateProduct(id: string, quantityChange: int) returns (found: bool)
      modifies products
      ensures found <==> FindProduct(products, id).Some?
      ensures match FindProduct(products, id)
        case None =>
          forall p :: p in products ==> p.quantity == old(p.quantity)
        case Some(i) =>
          && products[i].quantity == old(products[i].quantity) + quantityChange
          && forall p :: p in products && p != products[i] ==> p.quantity == old(p.quantity)
    {
      var product := GetProductById(id);
      if product != null {
        product.UpdateStock(quantityChange);
        found := true;
      } else {
        found := false;
      }
    }

    /** Removes every product carrying the id, keeping the others in order. */
    method DeleteProduct(id: string)
      modifies this`products
      ensures products == Remaining(old(products), id)
      ensures forall p :: p in products ==> p.productId != id
    {
      products := Remaining(products, id);
    }
  }
}
