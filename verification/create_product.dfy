/**
 * CreateProductHandler.Handle: persist a new product built from the command,
 * then start publishing the ProductCreatedEvent that mirrors it, without
 * waiting for the publish.
 */
module CreateProduct {
  import opened Primitives
  import opened Models

  /** new byte[8]: the RowVersion a new product starts with. */
  const InitialRowVersion: seq<byte> := seq(8, _ => 0)

  /** What a handler call does outside its own state, in the order it does it. */
  datatype Effect =
    | Saved(product: Product)                    // the Products table saved with the new row
    | PublishStarted(productEvent: ProductEvent) // a detached SendMessageAsync<ProductCreatedEvent> launched

  /** The ProductCreatedEvent built from a saved product: its Id, Name, Price and RowVersion. */
  function CreatedEvent(p: Product): (e: ProductEvent)
    ensures e.id == p.id && e.name == p.name && e.price == p.price && e.rowVersion == p.rowVersion
  {
    ProductEvent(p.id, p.name, p.price, p.rowVersion)
  }

  /** The handler, with the write-side Products table it reaches through its context factory. */
  class CreateProductHandler {
    var products: map<Int32, Product>
    var effects: seq<Effect>

    ghost predicate Valid()
      reads this
    {
      forall k :: k in products ==> products[k].id == k
    }

    constructor (initial: map<Int32, Product>)
      requires forall k :: k in initial ==> initial[k].id == k
      ensures Valid() && products == initial && effects == []
    {
      products := initial;
      effects := [];
    }

    /**
     * Handle: the saved row takes the command's Name and Price and an
     * all-zero 8-byte RowVersion, under the key the store generates (any key
     * it does not hold yet: generatedId). Only after the save is a publish of
     * the event carrying the row's four values started; the Id returned is
     * that row's, whatever becomes of the publish.
     */
    method Handle(request: CreateProductCommand, generatedId: Int32) returns (id: Int32)
      requires Valid()
      requires generatedId !in products
      modifies this
      ensures Valid()
      ensures id == generatedId
      ensures products.Keys == old(products).Keys + {id}
      ensures products[id].id == id && products[id].name == request.name && products[id].price == request.price
      ensures |products[id].rowVersion| == 8 && forall i :: 0 <= i < 8 ==> products[id].rowVersion[i] == 0
      ensures forall k :: k in old(products) ==> products[k] == old(products)[k]
      ensures effects == old(effects) + [Saved(products[id]), PublishStarted(CreatedEvent(products[id]))]
      ensures effects[|effects| - 1].productEvent.id == id
    {
      var product := Product(0, request.name, request.price, []);
      product := product.(rowVersion := InitialRowVersion);
      // Add, then SaveChangesAsync: the store gives the row its generated key.
      product := product.(id := generatedId);
      products := products[product.id := product];
      effects := effects + [Saved(product)];
      var productEvent := CreatedEvent(product);
      effects := effects + [PublishStarted(productEvent)];
      id := product.id;
    }
  }
}
