/**
 * The body rules for the product routes. They are the only guard on a stored
 * `quantity`: the services write whatever they are given.
 */
module ProductsValidator {
  import opened Wrappers
  import opened RequestBody
  import opened ProductsService

  /** `joi.string().min(1).max(100)`: the bound is on the JavaScript length, in UTF-16 code units. */
  predicate IsName(v: Json)
  {
    IsString(v) && Utf16Length(v.s) <= 100
  }

  /** Fifty-one characters above U+FFFF are 102 code units: too long a name, though only 51 characters. */
  lemma AstralNameRefused()
    ensures |seq(51, _ => '\U{1F600}')| == 51
    ensures !IsName(JString(seq(51, _ => '\U{1F600}')))
  {
    Utf16LengthRepeat(51, '\U{1F600}');
  }

  /** `joi.number().greater(0)`. */
  predicate IsPrice(v: Json)
  {
    IsNumber(v) && v.x > 0.0
  }

  /** The createProduct body: every field required. */
  predicate ValidCreateProduct(body: Body)
  {
    && "name" in body && IsName(body["name"])
    && "description" in body && IsString(body["description"])
    && "price" in body && IsPrice(body["price"])
    && "category" in body && IsString(body["category"])
    && "quantity" in body && IsIntegerAtLeast(body["quantity"], 0)
  }

  /** The updateProduct body: `quantity` required, the other fields checked only when present. */
  predicate ValidUpdateProduct(body: Body)
  {
    && ("name" in body ==> IsName(body["name"]))
    && ("description" in body ==> IsString(body["description"]))
    && ("price" in body ==> IsPrice(body["price"]))
    && ("category" in body ==> IsString(body["category"]))
    && "quantity" in body && IsIntegerAtLeast(body["quantity"], 0)
  }

  /** The orderProduct body: a product id and a whole quantity of at least one. */
  predicate ValidOrderProduct(body: Body)
  {
    && "productId" in body && IsString(body["productId"])
    && "quantity" in body && IsIntegerAtLeast(body["quantity"], 1)
  }

  /** The product a valid createProduct body describes. */
  function NewProduct(body: Body): (p: Product)
    requires ValidCreateProduct(body)
    ensures 1 <= |p.name| <= Utf16Length(p.name) <= 100 && p.name == body["name"].s
    ensures |p.description| >= 1 && p.description == body["description"].s
    ensures p.price > 0.0 && p.price == body["price"].x
    ensures |p.category| >= 1 && p.category == body["category"].s
    ensures p.quantity >= 0 && p.quantity as real == body["quantity"].x
  {
    Product(body["name"].s, body["description"].s, body["price"].x, body["category"].s,
            IntegerOf(body["quantity"], 0))
  }

  function OptionalString(body: Body, key: string): Option<string>
  {
    if key in body && body[key].JString? then Some(body[key].s) else None
  }

  /** The update a valid updateProduct body asks for: absent fields stay absent. */
  function UpdateOf(body: Body): (u: ProductUpdate)
    requires ValidUpdateProduct(body)
    ensures u.quantity >= 0 && u.quantity as real == body["quantity"].x
    ensures u.name.Some? <==> "name" in body
    ensures u.name.Some? ==> 1 <= |u.name.value| <= Utf16Length(u.name.value) <= 100 && u.name.value == body["name"].s
    ensures u.description.Some? <==> "description" in body
    ensures u.description.Some? ==> |u.description.value| >= 1 && u.description.value == body["description"].s
    ensures u.price.Some? <==> "price" in body
    ensures u.price.Some? ==> u.price.value > 0.0 && u.price.value == body["price"].x
    ensures u.category.Some? <==> "category" in body
    ensures u.category.Some? ==> |u.category.value| >= 1 && u.category.value == body["category"].s
  {
    ProductUpdate(
      OptionalString(body, "name"),
      OptionalString(body, "description"),
      if "price" in body then Some(body["price"].x) else None,
      OptionalString(body, "category"),
      IntegerOf(body["quantity"], 0))
  }

  /** The quantity a valid orderProduct body asks for. */
  function OrderProductQuantity(body: Body): (q: int)
    requires ValidOrderProduct(body)
    ensures q >= 1 && q as real == body["quantity"].x
  {
    IntegerOf(body["quantity"], 1)
  }

  /** A body with a negative, fractional or missing quantity is refused by both product schemas. */
  lemma RefusedQuantities(body: Body)
    requires "quantity" !in body || !body["quantity"].JNumber? || body["quantity"].x < 0.0
             || body["quantity"].x != body["quantity"].x.Floor as real
    ensures !ValidCreateProduct(body) && !ValidUpdateProduct(body)
  {
  }

  /** A validated create keeps every stored quantity non-negative. */
  lemma ValidatedCreateKeepsStock(products: map<ProductId, Product>, id: ProductId, body: Body, repoFails: bool)
    requires NonNegativeStock(products) && ValidCreateProduct(body)
    ensures NonNegativeStock(CreateStep(products, id, NewProduct(body), repoFails).products)
  {
  }

  /**
   * A validated update of a stored product that the repository carries out
   * writes the body's quantity and every other field the body carries, and
   * keeps each stored field the body leaves out.
   */
  lemma ValidatedUpdateWritesBody(products: map<ProductId, Product>, id: ProductId, body: Body)
    requires ValidUpdateProduct(body) && id in products
    ensures var r := UpdateStep(products, id, UpdateOf(body), false);
            var was, now := products[id], r.products[id];
            && r.ok
            && now.quantity as real == body["quantity"].x
            && now.name == (if "name" in body then body["name"].s else was.name)
            && now.description == (if "description" in body then body["description"].s else was.description)
            && now.price == (if "price" in body then body["price"].x else was.price)
            && now.category == (if "category" in body then body["category"].s else was.category)
  {
  }

  /** A validated update keeps every stored quantity non-negative. */
  lemma ValidatedUpdateKeepsStock(products: map<ProductId, Product>, id: ProductId, body: Body, repoFails: bool)
    requires NonNegativeStock(products) && ValidUpdateProduct(body)
    ensures NonNegativeStock(UpdateStep(products, id, UpdateOf(body), repoFails).products)
  {
  }
}
