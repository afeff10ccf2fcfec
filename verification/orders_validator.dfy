/** The body rule for the createOrder route. */
module OrdersValidator {
  import opened Wrappers
  import opened RequestBody
  import opened ProductsService
  import opened OrdersService

  /** customerName and product are non-empty strings; quantity is a whole number of at least one. */
  predicate ValidCreateOrder(body: Body)
  {
    && "customerName" in body && IsString(body["customerName"])
    && "product" in body && IsString(body["product"])
    && "quantity" in body && IsIntegerAtLeast(body["quantity"], 1)
  }

  /** The createOrder arguments a valid body carries. */
  function OrderRequestOf(body: Body): (r: OrderRequest)
    requires ValidCreateOrder(body)
    ensures |r.customerName| >= 1 && r.customerName == body["customerName"].s
    ensures |r.product| >= 1 && r.product == body["product"].s
    ensures r.quantity >= 1 && r.quantity as real == body["quantity"].x
  {
    OrderRequest(body["customerName"].s, body["product"].s, IntegerOf(body["quantity"], 1))
  }

  /** A validated order that is placed strictly lowers the ordered product's stock. */
  lemma ValidatedOrderLowersStock(products: map<ProductId, Product>, body: Body)
    requires ValidCreateOrder(body)
    ensures var req := OrderRequestOf(body);
            var r := PlaceOrder(products, req.customerName, req.product, req.quantity);
            r.order.Some? ==> r.products[req.product].quantity < products[req.product].quantity
  {
  }
}
