/**
 * The path end to end: a write-side create publishes an envelope that the
 * consumer routes to the matching handler and projects into the read-side
 * table; and what the consumer does with messages that arrive again or out
 * of order.
 */
module Pipeline {
  import opened Primitives
  import opened Models
  import opened Envelope
  import opened Publisher
  import opened Consumer
  import opened CreateProduct

  /** The consumer's handler for each event record type. */
  function HandlerFor(t: EventType): Handler {
    match t
    case ProductCreatedEvent => CreateHandler
    case ProductUpdatedEvent => UpdateHandler
  }

  /**
   * The tag the publisher writes is the one the consumer compares with, so an
   * envelope published for T reaches T's handler with the wrapper intact.
   */
  lemma EnvelopeRoutesToItsHandler(t: EventType, e: ProductEvent)
    ensures Route(DeserializeWrapper(CreateMessage(t, e).body)) == Dispatch(HandlerFor(t), WrapEvent(t, e))
  {
    assert TypeName(ProductCreatedEvent) == CreatedEventName;
    assert TypeName(ProductUpdatedEvent) == UpdatedEventName;
  }

  /**
   * A published ProductCreatedEvent for a product the read side does not
   * hold yet adds a read-only row with the product's Id, Name, Price and
   * RowVersion, and the message is completed.
   */
  lemma PublishedCreateIsProjected(p: Product, table: ReadTable)
    requires p.id !in table
    ensures var r := Process(table, CreateMessage(ProductCreatedEvent, CreatedEvent(p)));
      && r.completed && r.outcome == Returned
      && r.table == table[p.id := ProductReadOnly(p.id, p.name, p.price, p.rowVersion)]
  {
    EnvelopeRoutesToItsHandler(ProductCreatedEvent, CreatedEvent(p));
  }

  /**
   * A published ProductUpdatedEvent for a row the read side holds sets that
   * row's Name, Price and RowVersion, and the message is completed.
   */
  lemma PublishedUpdateIsProjected(e: ProductEvent, table: ReadTable)
    requires e.id in table
    ensures var r := Process(table, CreateMessage(ProductUpdatedEvent, e));
      && r.completed && r.outcome == Returned
      && r.table == table[e.id := ProductReadOnly(table[e.id].id, e.name, e.price, e.rowVersion)]
  {
    EnvelopeRoutesToItsHandler(ProductUpdatedEvent, e);
  }

  /**
   * An update that arrives before its create is left uncompleted, so the
   * broker delivers it again; once the create has been consumed the same
   * message succeeds and the row carries the update's values.
   */
  lemma UpdateBeforeCreateSucceedsOnRedelivery(p: Product, u: ProductEvent, table: ReadTable)
    requires p.id !in table && u.id == p.id
    ensures var update := CreateMessage(ProductUpdatedEvent, u);
      Process(table, update) == Step(table, Threw(KeyNotFoundException), false)
    ensures var afterCreate := Process(table, CreateMessage(ProductCreatedEvent, CreatedEvent(p))).table;
      var r := Process(afterCreate, CreateMessage(ProductUpdatedEvent, u));
      && r.completed
      && r.table == table[p.id := ProductReadOnly(p.id, u.name, u.price, u.rowVersion)]
  {
    EnvelopeRoutesToItsHandler(ProductUpdatedEvent, u);
    PublishedCreateIsProjected(p, table);
    var afterCreate := table[p.id := ProductReadOnly(p.id, p.name, p.price, p.rowVersion)];
    PublishedUpdateIsProjected(u, afterCreate);
  }

  /**
   * Two updates of one row leave the second one's values, whatever the
   * order of their row versions: the consumer compares no versions.
   */
  lemma LaterUpdateWins(u1: ProductEvent, u2: ProductEvent, table: ReadTable)
    requires u1.id in table && u2.id == u1.id
    ensures var t1 := Process(table, CreateMessage(ProductUpdatedEvent, u1)).table;
      var r := Process(t1, CreateMessage(ProductUpdatedEvent, u2));
      && r.completed
      && r.table == table[u1.id := ProductReadOnly(table[u1.id].id, u2.name, u2.price, u2.rowVersion)]
  {
    PublishedUpdateIsProjected(u1, table);
    var t1 := table[u1.id := ProductReadOnly(table[u1.id].id, u1.name, u1.price, u1.rowVersion)];
    PublishedUpdateIsProjected(u2, t1);
  }

  /**
   * A create delivered a second time finds its row already saved: the save
   * fails, the row keeps whatever it holds, and the message is not completed.
   */
  lemma RedeliveredCreateNotCompleted(p: Product, table: ReadTable)
    requires p.id in table
    ensures Process(table, CreateMessage(ProductCreatedEvent, CreatedEvent(p))) == Step(table, Threw(SaveFailed), false)
  {
    EnvelopeRoutesToItsHandler(ProductCreatedEvent, CreatedEvent(p));
  }

  /** A map that gained one key and kept every other entry is the old map updated at that key. */
  lemma GainedOneKey<K, V>(before: map<K, V>, after: map<K, V>, k: K)
    requires after.Keys == before.Keys + {k} && k in after
    requires forall j :: j in before ==> after[j] == before[j]
    ensures after == before[k := after[k]]
  {
  }

  /**
   * A create handled on the write side, its event published and consumed:
   * the read side then holds a row with the new Id, the command's Name and
   * Price and the initial RowVersion, and the message was completed once.
   */
  method CreateThenConsume(handler: CreateProductHandler, consumer: ServiceBusConsumer,
                           request: CreateProductCommand, generatedId: Int32)
    returns (id: Int32, completions: nat)
    requires handler.Valid() && consumer.Valid()
    requires generatedId !in handler.products && generatedId !in consumer.productsReadOnly
    modifies handler, consumer
    ensures handler.Valid() && consumer.Valid()
    ensures id == generatedId && completions == 1
    ensures consumer.productsReadOnly == old(consumer.productsReadOnly)[id := ProductReadOnly(id, request.name, request.price, InitialRowVersion)]
    ensures handler.products == old(handler.products)[id := Product(id, request.name, request.price, InitialRowVersion)]
    ensures handler.effects == old(handler.effects) + [Saved(handler.products[id]), PublishStarted(CreatedEvent(handler.products[id]))]
    ensures var w, r := handler.products[id], consumer.productsReadOnly[id];
      r.id == w.id && r.name == w.name && r.price == w.price && r.rowVersion == w.rowVersion
  {
    ghost var before := handler.products;
    id := handler.Handle(request, generatedId);
    ghost var products, effects := handler.products, handler.effects;
    assert handler.products[id].rowVersion == InitialRowVersion;
    GainedOneKey(before, products, id);
    var launched := handler.effects[|handler.effects| - 1].productEvent;
    var message := CreateMessage(ProductCreatedEvent, launched);
    var args := new ProcessMessageEventArgs(message);
    PublishedCreateIsProjected(handler.products[id], consumer.productsReadOnly);
    var outcome := consumer.MessageHandlerAsync(args);
    completions := args.completions;
    assert handler.products == products && handler.effects == effects;
  }
}
