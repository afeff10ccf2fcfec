/**
 * Order placement against the product table: look the product up, refuse
 * when it is missing or holds less stock than requested, otherwise lower its
 * stock by the requested amount, save it, and record the order. Both refusals
 * are the same `null` reply. Calls are sequential: the read, the check and
 * the write of one call are not interleaved with another call.
 */
module OrdersService {
  import opened Wrappers
  import opened ProductsService

  /** A recorded order: who ordered, which product (by id), how many. */
  datatype Order = Order(customerName: string, product: ProductId, quantity: int)

  /** One `createOrder` call's arguments. */
  datatype OrderRequest = OrderRequest(customerName: string, product: ProductId, quantity: int)

  /** The product table after a `createOrder` call, and the order it recorded, if any. */
  datatype Placement = Placement(products: map<ProductId, Product>, order: Option<Order>)

  /** Specification of `createOrder` on the product table. */
  function PlaceOrder(products: map<ProductId, Product>, customerName: string, product: ProductId, quantity: int): (r: Placement)
    ensures r.order.Some? <==> product in products && quantity <= products[product].quantity
    ensures r.order.Some? ==> r.order.value == Order(customerName, product, quantity)
    ensures r.products.Keys == products.Keys
    ensures forall id :: id in products && id != product ==> r.products[id] == products[id]
    ensures product in products && r.order.None? ==> r.products[product] == products[product]
    ensures r.order.Some? ==> r.products[product].quantity == products[product].quantity - quantity
    ensures r.order.Some? ==> r.products[product] == products[product].(quantity := r.products[product].quantity)
    ensures NonNegativeStock(products) ==> NonNegativeStock(r.products)
  {
    if product !in products then Placement(products, None)
    else if products[product].quantity < quantity then Placement(products, None)
    else
      var p := products[product];
      Placement(products[product := p.(quantity := p.quantity - quantity)], Some(Order(customerName, product, quantity)))
  }

  /** The orders store beside the catalog it draws stock from. */
  class OrderBook {
    const catalog: Catalog
    var orders: seq<Order>

    constructor (catalog: Catalog)
      ensures this.catalog == catalog && orders == []
    {
      this.catalog := catalog;
      orders := [];
    }

    /** createOrder: the read-check-decrement-save-append sequence, one step at a time. */
    method CreateOrder(customerName: string, product: ProductId, quantity: int) returns (placed: Option<Order>)
      modifies this, catalog
      ensures placed == PlaceOrder(old(catalog.products), customerName, product, quantity).order
      ensures catalog.products == PlaceOrder(old(catalog.products), customerName, product, quantity).products
      ensures orders == old(orders) + (if placed.Some? then [placed.value] else [])
    {
      var existingProduct := catalog.GetProduct(product);
      if existingProduct.None? {
        return None;
      }
      var p := existingProduct.value;
      if p.quantity < quantity {
        return None;
      }
      p := p.(quantity := p.quantity - quantity);
      catalog.Save(product, p);
      var order := Order(customerName, product, quantity);
      orders := orders + [order];
      return Some(order);
    }

    /** listOrders: every recorded order, in the order they were placed. */
    method ListOrders() returns (r: seq<Order>)
      ensures r == orders
    {
      r := orders;
    }
  }

  /** The orders a sequence of `createOrder` calls records, and the table it leaves. */
  function Run(products: map<ProductId, Product>, requests: seq<OrderRequest>): (r: (map<ProductId, Product>, seq<Order>))
    ensures r.0.Keys == products.Keys
    ensures |r.1| <= |requests|
    ensures forall i :: 0 <= i < |r.1| ==> r.1[i].product in products
    ensures NonNegativeStock(products) ==> NonNegativeStock(r.0)
    decreases |requests|
  {
    if requests == [] then (products, [])
    else
      var req := requests[0];
      var step := PlaceOrder(products, req.customerName, req.product, req.quantity);
      var rest := Run(step.products, requests[1..]);
      (rest.0, (if step.order.Some? then [step.order.value] else []) + rest.1)
  }

  /** The total quantity the orders take of product `id`. */
  function OrderedQuantity(orders: seq<Order>, id: ProductId): int
  {
    if orders == [] then 0
    else (if orders[0].product == id then orders[0].quantity else 0) + OrderedQuantity(orders[1..], id)
  }

  lemma {:induction false} OrderedQuantityPrepend(o: Order, orders: seq<Order>, id: ProductId)
    ensures OrderedQuantity([o] + orders, id) == (if o.product == id then o.quantity else 0) + OrderedQuantity(orders, id)
  {
    assert ([o] + orders)[1..] == orders;
  }

  /**
   * No overselling, sequentially: over any run of calls, each product's final
   * stock is its initial stock minus the quantities ordered of it, and those
   * quantities never add up to more than the initial stock.
   */
  lemma {:induction false} NoOverselling(products: map<ProductId, Product>, requests: seq<OrderRequest>, id: ProductId)
    requires id in products && products[id].quantity >= 0
    ensures id in Run(products, requests).0
    ensures Run(products, requests).0[id].quantity == products[id].quantity - OrderedQuantity(Run(products, requests).1, id)
    ensures OrderedQuantity(Run(products, requests).1, id) <= products[id].quantity
    decreases |requests|
  {
    if requests != [] {
      var req := requests[0];
      var step := PlaceOrder(products, req.customerName, req.product, req.quantity);
      NoOverselling(step.products, requests[1..], id);
      var rest := Run(step.products, requests[1..]);
      if step.order.Some? {
        OrderedQuantityPrepend(step.order.value, rest.1, id);
      } else {
        assert Run(products, requests).1 == rest.1;
      }
    }
  }

  /** A call refused for lack of stock, repeated against the table it left, is refused again and changes nothing. */
  lemma RefusalIsStable(products: map<ProductId, Product>, customerName: string, product: ProductId, quantity: int)
    requires product in products && products[product].quantity < quantity
    ensures PlaceOrder(products, customerName, product, quantity) == Placement(products, None)
    ensures var again := PlaceOrder(PlaceOrder(products, customerName, product, quantity).products, customerName, product, quantity);
            again == Placement(products, None)
  {
  }

  /** Ten in stock, two orders of seven: the first is placed and leaves three, the second is refused. */
  lemma TwoOrdersOfSevenAgainstTen(p: Product, id: ProductId, first: string, second: string)
    requires p.quantity == 10
    ensures var products := map[id := p];
            var r := Run(products, [OrderRequest(first, id, 7), OrderRequest(second, id, 7)]);
            r.1 == [Order(first, id, 7)] && r.0[id].quantity == 3
  {
    var products := map[id := p];
    var s1 := PlaceOrder(products, first, id, 7);
    var s2 := PlaceOrder(s1.products, second, id, 7);
    var reqs := [OrderRequest(first, id, 7), OrderRequest(second, id, 7)];
    assert s2.order.None?;
    assert reqs[1..][1..] == [];
    assert s2.products == s1.products;
    assert Run(s1.products, reqs[1..]) == (s1.products, []);
    assert [Order(first, id, 7)] + [] == [Order(first, id, 7)];
    assert Run(products, reqs) == (s1.products, [Order(first, id, 7)]);
  }
}
