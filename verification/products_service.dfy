/**
 * The product catalog: the table of products keyed by id, and the service
 * operations that read it, add to it, rewrite an entry and remove one. Every
 * write first checks that the id exists (update, delete) and turns a failure
 * of the repository into a `null` reply, modelled here as `ok == false`.
 */
module ProductsService {
  import opened Wrappers

  type ProductId = string

  datatype Product = Product(name: string, description: string, price: real, category: string, quantity: int)

  /** The fields an update may carry; only `quantity` is always present. */
  datatype ProductUpdate = ProductUpdate(
    name: Option<string>,
    description: Option<string>,
    price: Option<real>,
    category: Option<string>,
    quantity: int)

  /** What a catalog write leaves behind: the new table and the service's reply. */
  datatype CatalogReply = CatalogReply(products: map<ProductId, Product>, ok: bool)

  /** The stock invariant: no stored quantity is negative. */
  ghost predicate NonNegativeStock(products: map<ProductId, Product>)
  {
    forall id :: id in products ==> products[id].quantity >= 0
  }

  /** A product after an update: each supplied field replaces the stored one, an absent field keeps it. */
  function Patched(p: Product, u: ProductUpdate): (r: Product)
    ensures r.quantity == u.quantity
    ensures r.name == (if u.name.Some? then u.name.value else p.name)
    ensures r.description == (if u.description.Some? then u.description.value else p.description)
    ensures r.price == (if u.price.Some? then u.price.value else p.price)
    ensures r.category == (if u.category.Some? then u.category.value else p.category)
  {
    Product(
      if u.name.Some? then u.name.value else p.name,
      if u.description.Some? then u.description.value else p.description,
      if u.price.Some? then u.price.value else p.price,
      if u.category.Some? then u.category.value else p.category,
      u.quantity)
  }

  /**
   * createProduct: the repository inserts the product under a new id. An
   * insert that throws (a failing store, or an id already taken) is caught and
   * answered with `null`; the table is then unchanged.
   */
  function CreateStep(products: map<ProductId, Product>, id: ProductId, p: Product, repoFails: bool): (r: CatalogReply)
    ensures r.ok <==> !repoFails && id !in products
    ensures r.ok ==> r.products.Keys == products.Keys + {id} && r.products[id] == p
    ensures forall k :: k in products ==> k in r.products && r.products[k] == products[k]
    ensures !r.ok ==> r.products == products
    ensures NonNegativeStock(products) && p.quantity >= 0 ==> NonNegativeStock(r.products)
  {
    if repoFails || id in products then CatalogReply(products, false)
    else CatalogReply(products[id := p], true)
  }

  /** updateProduct: refused for an unknown id; otherwise the supplied fields are written to that product only. */
  function UpdateStep(products: map<ProductId, Product>, id: ProductId, u: ProductUpdate, repoFails: bool): (r: CatalogReply)
    ensures r.ok <==> id in products && !repoFails
    ensures r.products.Keys == products.Keys
    ensures forall k :: k in products && k != id ==> r.products[k] == products[k]
    ensures id in products ==> r.products[id] == if r.ok then Patched(products[id], u) else products[id]
    ensures NonNegativeStock(products) && u.quantity >= 0 ==> NonNegativeStock(r.products)
  {
    if id !in products || repoFails then CatalogReply(products, false)
    else CatalogReply(products[id := Patched(products[id], u)], true)
  }

  /** deleteProduct: refused for an unknown id; otherwise exactly that id is removed. */
  function DeleteStep(products: map<ProductId, Product>, id: ProductId, repoFails: bool): (r: CatalogReply)
    ensures r.ok <==> id in products && !repoFails
    ensures r.products.Keys == if r.ok then products.Keys - {id} else products.Keys
    ensures forall k :: k in r.products ==> k in products && r.products[k] == products[k]
    ensures NonNegativeStock(products) ==> NonNegativeStock(r.products)
  {
    if id !in products || repoFails then CatalogReply(products, false)
    else CatalogReply(products - {id}, true)
  }

  class Catalog {
    var products: map<ProductId, Product>

    constructor ()
      ensures products == map[]
    {
      products := map[];
    }

    /** getProducts: every stored product. */
    function GetProducts(): (r: set<(ProductId, Product)>)
      reads this
      ensures forall id, p :: (id, p) in r <==> id in products && products[id] == p
    {
      set id | id in products :: (id, products[id])
    }

    /** getProduct: the stored record for a present id, nothing for an absent one. */
    function GetProduct(id: ProductId): (r: Option<Product>)
      reads this
      ensures r.Some? <==> id in products
      ensures r.Some? ==> r.value == products[id]
    {
      if id in products then Some(products[id]) else None
    }

    method CreateProduct(id: ProductId, name: string, description: string, price: real, category: string,
                         quantity: int, repoFails: bool) returns (ok: bool)
      modifies this
      ensures CatalogReply(products, ok) == CreateStep(old(products), id, Product(name, description, price, category, quantity), repoFails)
    {
      if repoFails || id in products {
        return false;
      }
      products := products[id := Product(name, description, price, category, quantity)];
      return true;
    }

    method UpdateProduct(id: ProductId, name: Option<string>, description: Option<string>, price: Option<real>,
                         category: Option<string>, quantity: int, repoFails: bool) returns (ok: bool)
      modifies this
      ensures CatalogReply(products, ok) == UpdateStep(old(products), id, ProductUpdate(name, description, price, category, quantity), repoFails)
    {
      var product := GetProduct(id);
      if product.None? {
        return false;
      }
      if repoFails {
        return false;
      }
      products := products[id := Patched(product.value, ProductUpdate(name, description, price, category, quantity))];
      return true;
    }

    method DeleteProduct(id: ProductId, repoFails: bool) returns (ok: bool)
      modifies this
      ensures CatalogReply(products, ok) == DeleteStep(old(products), id, repoFails)
    {
      var product := GetProduct(id);
      if product.None? {
        return false;
      }
      if repoFails {
        return false;
      }
      products := products - {id};
      return true;
    }

    /** A loaded product document's `save()`: the record is written back under its id. */
    method Save(id: ProductId, p: Product)
      requires id in products
      modifies this
      ensures products == old(products)[id := p]
      ensures products.Keys == old(products).Keys
    {
      products := products[id := p];
    }
  }
}
