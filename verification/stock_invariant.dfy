/**
 * Every write to a product's `quantity` goes through one of four routes:
 * create, update, delete or order, each behind its body rule. A body that
 * fails its rule is answered before the service runs and changes nothing.
 * Over any sequence of such requests no stored quantity becomes negative.
 */
module StockInvariant {
  import opened RequestBody
  import opened ProductsService
  import opened ProductsValidator
  import opened OrdersService
  import opened OrdersValidator

  /** A request that can write a product's stock; `repoFails` stands for a repository call that throws. */
  datatype StockWrite =
    | Create(id: ProductId, body: Body, repoFails: bool)
    | Update(id: ProductId, body: Body, repoFails: bool)
    | Delete(id: ProductId, repoFails: bool)
    | PlaceOrderRequest(body: Body)

  /** The product table after one request. */
  function Apply(products: map<ProductId, Product>, w: StockWrite): map<ProductId, Product>
  {
    match w
    case Create(id, body, repoFails) =>
      if ValidCreateProduct(body) then CreateStep(products, id, NewProduct(body), repoFails).products else products
    case Update(id, body, repoFails) =>
      if ValidUpdateProduct(body) then UpdateStep(products, id, UpdateOf(body), repoFails).products else products
    case Delete(id, repoFails) =>
      DeleteStep(products, id, repoFails).products
    case PlaceOrderRequest(body) =>
      if ValidCreateOrder(body) then
        var req := OrderRequestOf(body);
        PlaceOrder(products, req.customerName, req.product, req.quantity).products
      else products
  }

  /** The product table after a sequence of requests. */
  function ApplyAll(products: map<ProductId, Product>, ws: seq<StockWrite>): map<ProductId, Product>
    decreases |ws|
  {
    if ws == [] then products else ApplyAll(Apply(products, ws[0]), ws[1..])
  }

  lemma ApplyKeepsStock(products: map<ProductId, Product>, w: StockWrite)
    requires NonNegativeStock(products)
    ensures NonNegativeStock(Apply(products, w))
  {
    match w
    case Create(id, body, repoFails) =>
      if ValidCreateProduct(body) { ValidatedCreateKeepsStock(products, id, body, repoFails); }
    case Update(id, body, repoFails) =>
      if ValidUpdateProduct(body) { ValidatedUpdateKeepsStock(products, id, body, repoFails); }
    case Delete(_, _) =>
    case PlaceOrderRequest(_) =>
  }

  /** Stock never goes negative, whatever mix of validated requests arrives. */
  lemma {:induction false} StockNeverNegative(products: map<ProductId, Product>, ws: seq<StockWrite>)
    requires NonNegativeStock(products)
    ensures NonNegativeStock(ApplyAll(products, ws))
    decreases |ws|
  {
    if ws != [] {
      ApplyKeepsStock(products, ws[0]);
      StockNeverNegative(Apply(products, ws[0]), ws[1..]);
    }
  }
}
