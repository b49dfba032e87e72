/**
 * ServiceBusConsumer: the message handler that decodes an envelope, routes it
 * on its EventType tag to the create or update handler, applies the event to
 * the ProductsReadOnly table, and completes the message only when the routed
 * handler returned normally.
 */
module Consumer {
  import opened Primitives
    import opened Models
  import Events
  import opened Envelope

  /** nameof(ProductCreatedEvent): the tag routed to the create handler. */
  const CreatedEventName: string := "ProductCreatedEvent"

  /** nameof(ProductUpdatedEvent): the tag routed to the update handler. */
  const UpdatedEventName: string := "ProductUpdatedEvent"

  /** The exceptions a message handler can end with. */
  datatype Exception =
    | JsonException          // the body or the payload could not be read, or bound to null
    | KeyNotFoundException   // an update names an Id the table does not hold
    | SaveFailed             // the store refuses the insert of a row whose key it already holds

  /** How a handler call ends: it returns, or it throws. */
  datatype Outcome = Returned | Threw(exception: Exception)

  /** The handler a wrapper is routed to; NoHandler for any other tag. */
  datatype Handler = CreateHandler | UpdateHandler | NoHandler

  /** What the message handler does with a decoded body. */
  datatype Decision =
    | Fail(exception: Exception)                      // deserializing the wrapper threw
    | Abandon                                         // return at once, the message not completed
    | Dispatch(handler: Handler, wrapper: MessageWrapper)

  /**
   * The routing branch of the message handler: a null wrapper or an
   * Undefined payload returns at once; otherwise the tag picks the handler,
   * comparing with the two event names and nothing else.
   */
  function Route(d: Decoded): (r: Decision)
    ensures r.Fail? <==> d.DecodeThrew?
    ensures r.Fail? ==> r.exception == JsonException
    ensures r.Abandon? <==> d.NullWrapper? || (d.Wrapper? && d.wrapper.payload.Undefined?)
    ensures r.Dispatch? ==> d.Wrapper? && r.wrapper == d.wrapper && r.wrapper.payload.Element?
    ensures r.Dispatch? ==> (r.handler == CreateHandler <==> r.wrapper.eventType == Some(CreatedEventName))
    ensures r.Dispatch? ==> (r.handler == UpdateHandler <==> r.wrapper.eventType == Some(UpdatedEventName))
  {
    match d
    case DecodeThrew => Fail(JsonException)
    case NullWrapper => Abandon
    case Wrapper(w) =>
      if w.payload.Undefined? then Abandon
      else if w.eventType == Some(CreatedEventName) then Dispatch(CreateHandler, w)
      else if w.eventType == Some(UpdatedEventName) then Dispatch(UpdateHandler, w)
      else Dispatch(NoHandler, w)
  }

  /** How a routed handler ends: with the saved table, or with an exception. */
  datatype HandlerResult = Done(table: ReadTable) | Raised(exception: Exception)

  /**
   * HandleProductCreateEvent: bind the payload to a ProductCreatedEvent
   * (null or unreadable throws), then add a read-only row with the event's
   * four values and save. The handler does not look for an existing row;
   * the save of a second row under the same key fails.
   */
  function ApplyCreate(table: ReadTable, w: MessageWrapper): (r: HandlerResult)
    ensures (r.Raised? && r.exception == JsonException) <==> !Events.Deserialize(w.payload).Bound?
    ensures (r.Raised? && r.exception == SaveFailed) <==>
      Events.Deserialize(w.payload).Bound? && Events.Deserialize(w.payload).event.id in table
    ensures r.Done? <==> Events.Deserialize(w.payload).Bound? && Events.Deserialize(w.payload).event.id !in table
    ensures r.Done? ==> var e := Events.Deserialize(w.payload).event;
      && r.table.Keys == table.Keys + {e.id}
      && r.table[e.id].id == e.id && r.table[e.id].name == e.name
      && r.table[e.id].price == e.price && r.table[e.id].rowVersion == e.rowVersion
      && (forall k :: k in table ==> r.table[k] == table[k])
  {
    match Events.Deserialize(w.payload)
    case Bound(e) =>
      if e.id in table then Raised(SaveFailed)
      else Done(table[e.id := ProductReadOnly(e.id, e.name, e.price, e.rowVersion)])
    case _ => Raised(JsonException)
  }

  /**
   * HandleProductUpdatedEvent: bind the payload to a ProductUpdatedEvent
   * (null or unreadable throws), find the row by the event's Id (absent
   * throws KeyNotFoundException), overwrite its Name, Price and RowVersion
   * with the event's, whatever the stored RowVersion, and save.
   */
  function ApplyUpdate(table: ReadTable, w: MessageWrapper): (r: HandlerResult)
    ensures (r.Raised? && r.exception == JsonException) <==> !Events.Deserialize(w.payload).Bound?
    ensures (r.Raised? && r.exception == KeyNotFoundException) <==>
      Events.Deserialize(w.payload).Bound? && Events.Deserialize(w.payload).event.id !in table
    ensures r.Done? <==> Events.Deserialize(w.payload).Bound? && Events.Deserialize(w.payload).event.id in table
    ensures r.Done? ==> var e := Events.Deserialize(w.payload).event;
      && r.table.Keys == table.Keys
      && r.table[e.id].id == table[e.id].id && r.table[e.id].name == e.name
      && r.table[e.id].price == e.price && r.table[e.id].rowVersion == e.rowVersion
      && (forall k :: k in table && k != e.id ==> r.table[k] == table[k])
  {
    match Events.Deserialize(w.payload)
    case Bound(e) =>
      if e.id !in table then Raised(KeyNotFoundException)
      else
        var existing := table[e.id];
        Done(table[e.id := existing.(name := e.name, price := e.price, rowVersion := e.rowVersion)])
    case _ => Raised(JsonException)
  }

  /** One call of the message handler: the table after it, how it ended, and whether it completed the message. */
  datatype Step = Step(table: ReadTable, outcome: Outcome, completed: bool)

  /**
   * MessageHandlerAsync on one message: decode, route, run the routed
   * handler, and complete the message if (and only if) that returned. The
   * table changes only on a completed message, and rows stay under their Id.
   */
  function Process(table: ReadTable, m: Message): (r: Step)
    ensures r.completed ==> r.outcome == Returned
    ensures !r.completed ==> r.table == table
    ensures r.completed <==> Route(DeserializeWrapper(m.body)).Dispatch? && r.outcome == Returned
    ensures KeyedById(table) ==> KeyedById(r.table)
  {
    match Route(DeserializeWrapper(m.body))
    case Fail(e) => Step(table, Threw(e), false)
    case Abandon => Step(table, Returned, false)
    case Dispatch(h, w) =>
      var result :=
        match h
        case CreateHandler => ApplyCreate(table, w)
        case UpdateHandler => ApplyUpdate(table, w)
        case NoHandler => Done(table);
      match result
      case Done(t) => Step(t, Returned, true)
      case Raised(e) => Step(table, Threw(e), false)
  }

  /** ServiceBusProcessorOptions: the knobs the listener is created with. */
  datatype ProcessorOptions = ProcessorOptions(autoCompleteMessages: bool, maxConcurrentCalls: nat, prefetchCount: nat)

  /** The options StartListening passes: no auto-completion, 5 concurrent calls, prefetch 10. */
  const ListenerOptions: ProcessorOptions := ProcessorOptions(false, 5, 10)

  /**
   * Whether a message ends completed: the handler completed it, or the
   * processor completes it itself after a normal return when auto-completion
   * is on. Abandoning or dead-lettering, the other ways Service Bus settles a
   * message, never happen in this consumer.
   */
  predicate EndsCompleted(options: ProcessorOptions, step: Step): (completed: bool)
    ensures !step.completed && step.outcome.Threw? ==> !completed
    ensures !options.autoCompleteMessages ==> (completed <==> step.completed)
  {
    step.completed || (options.autoCompleteMessages && step.outcome == Returned)
  }

  /**
   * With the listener's options only the handler's own completion settles a
   * message: a null wrapper or Undefined payload, which returns normally
   * without completing, is not completed, where auto-completion would have
   * completed it.
   */
  lemma OnlyHandlerCompletes(table: ReadTable, m: Message)
    ensures EndsCompleted(ListenerOptions, Process(table, m)) <==> Process(table, m).completed
    ensures Route(DeserializeWrapper(m.body)).Abandon? ==>
      && !EndsCompleted(ListenerOptions, Process(table, m))
      && EndsCompleted(ListenerOptions.(autoCompleteMessages := true), Process(table, m))
  {
  }

  /** A body that does not deserialize throws; nothing changes and nothing is completed. */
  lemma UndecodableBodyThrows(table: ReadTable, m: Message)
    requires DeserializeWrapper(m.body).DecodeThrew?
    ensures Process(table, m) == Step(table, Threw(JsonException), false)
  {
  }

  /** A null wrapper, or one without a payload, returns without completing and changes nothing. */
  lemma EmptyEnvelopeNotCompleted(table: ReadTable, m: Message)
    requires var d := DeserializeWrapper(m.body);
      d.NullWrapper? || (d.Wrapper? && d.wrapper.payload.Undefined?)
    ensures Process(table, m) == Step(table, Returned, false)
  {
  }

  /** A tag other than the two event names changes nothing, and the message is completed. */
  lemma UnknownEventTypeCompleted(table: ReadTable, m: Message)
    requires var d := DeserializeWrapper(m.body);
      && d.Wrapper? && d.wrapper.payload.Element?
      && d.wrapper.eventType != Some(CreatedEventName)
      && d.wrapper.eventType != Some(UpdatedEventName)
    ensures Process(table, m) == Step(table, Returned, true)
  {
  }

  /**
   * A create envelope whose payload binds adds one row holding the event's
   * Id, Name, Price and RowVersion, keeps every other row, and is completed.
   */
  lemma CreateAddsRow(table: ReadTable, m: Message)
    requires var d := DeserializeWrapper(m.body);
      && d.Wrapper? && d.wrapper.eventType == Some(CreatedEventName)
      && Events.Deserialize(d.wrapper.payload).Bound?
      && Events.Deserialize(d.wrapper.payload).event.id !in table
    ensures var e := Events.Deserialize(DeserializeWrapper(m.body).wrapper.payload).event;
      var r := Process(table, m);
      && r.completed && r.outcome == Returned
      && r.table == table[e.id := ProductReadOnly(e.id, e.name, e.price, e.rowVersion)]
  {
  }

  /** A create whose Id is already a row: the save fails, nothing changes, the message is not completed. */
  lemma DuplicateCreateNotCompleted(table: ReadTable, m: Message)
    requires var d := DeserializeWrapper(m.body);
      && d.Wrapper? && d.wrapper.eventType == Some(CreatedEventName)
      && Events.Deserialize(d.wrapper.payload).Bound?
      && Events.Deserialize(d.wrapper.payload).event.id in table
    ensures Process(table, m) == Step(table, Threw(SaveFailed), false)
  {
  }

  /** A create or update payload that binds to null, or not at all, throws; nothing changes or completes. */
  lemma UnboundPayloadThrows(table: ReadTable, m: Message)
    requires var d := DeserializeWrapper(m.body);
      && d.Wrapper? && d.wrapper.payload.Element?
      && (d.wrapper.eventType == Some(CreatedEventName) || d.wrapper.eventType == Some(UpdatedEventName))
      && !Events.Deserialize(d.wrapper.payload).Bound?
    ensures Process(table, m) == Step(table, Threw(JsonException), false)
  {
  }

  /** An update for an Id with no row throws KeyNotFoundException; nothing changes or completes. */
  lemma UpdateOfMissingRowThrows(table: ReadTable, m: Message)
    requires var d := DeserializeWrapper(m.body);
      && d.Wrapper? && d.wrapper.eventType == Some(UpdatedEventName)
      && Events.Deserialize(d.wrapper.payload).Bound?
      && Events.Deserialize(d.wrapper.payload).event.id !in table
    ensures Process(table, m) == Step(table, Threw(KeyNotFoundException), false)
  {
  }

  /**
   * An update for an existing row sets its Name, Price and RowVersion to the
   * event's, with no comparison of row versions; its Id and every other row
   * stay as they were, and the message is completed.
   */
  lemma UpdateOverwritesRow(table: ReadTable, m: Message)
    requires var d := DeserializeWrapper(m.body);
      && d.Wrapper? && d.wrapper.eventType == Some(UpdatedEventName)
      && Events.Deserialize(d.wrapper.payload).Bound?
      && Events.Deserialize(d.wrapper.payload).event.id in table
    ensures var e := Events.Deserialize(DeserializeWrapper(m.body).wrapper.payload).event;
      var r := Process(table, m);
      && r.completed && r.outcome == Returned
      && r.table == table[e.id := ProductReadOnly(table[e.id].id, e.name, e.price, e.rowVersion)]
  {
  }

  /** The arguments of one ProcessMessageAsync call: the message and its settlement. */
  class ProcessMessageEventArgs {
    const message: Message
    /** How many times CompleteMessageAsync was called for the message. */
    var completions: nat

    constructor (message: Message)
      ensures this.message == message && completions == 0
    {
      this.message := message;
      completions := 0;
    }

    /** CompleteMessageAsync(args.Message): settles the message with the broker. */
    method CompleteMessageAsync()
      modifies this
      ensures completions == old(completions) + 1
    {
      completions := completions + 1;
    }
  }

  /** The listener, with the ProductsReadOnly table it writes through its context factory. */
  class ServiceBusConsumer {
    var productsReadOnly: ReadTable

    ghost predicate Valid()
      reads this
    {
      KeyedById(productsReadOnly)
    }

    constructor (initial: ReadTable)
      requires KeyedById(initial)
      ensures Valid() && productsReadOnly == initial
    {
      productsReadOnly := initial;
    }

    /**
     * MessageHandlerAsync: the table and the outcome are those of Process, and
     * the message is completed once when Process completes it, else not at all.
     */
    method MessageHandlerAsync(args: ProcessMessageEventArgs) returns (outcome: Outcome)
      requires Valid()
      modifies this, args
      ensures Valid()
      ensures var step := Process(old(productsReadOnly), args.message);
        && productsReadOnly == step.table
        && outcome == step.outcome
        && args.completions == old(args.completions) + (if step.completed then 1 else 0)
    {
      var decoded := DeserializeWrapper(args.message.body);
      match Route(decoded) {
        case Fail(e) =>
          outcome := Threw(e);
        case Abandon =>
          outcome := Returned;
        case Dispatch(handler, wrapper) =>
          if handler == CreateHandler {
            outcome := HandleProductCreateEvent(wrapper);
          } else if handler == UpdateHandler {
            outcome := HandleProductUpdatedEvent(wrapper);
          } else {
            outcome := Returned;
          }
          if outcome.Returned? {
            args.CompleteMessageAsync();
          }
      }
    }

    /** HandleProductCreateEvent, with the table and the outcome ApplyCreate gives. */
    method HandleProductCreateEvent(wrapper: MessageWrapper) returns (outcome: Outcome)
      requires Valid()
      modifies this
      ensures Valid()
      ensures ApplyCreate(old(productsReadOnly), wrapper).Done? ==>
        outcome == Returned && productsReadOnly == ApplyCreate(old(productsReadOnly), wrapper).table
      ensures ApplyCreate(old(productsReadOnly), wrapper).Raised? ==>
        outcome == Threw(ApplyCreate(old(productsReadOnly), wrapper).exception) && productsReadOnly == old(productsReadOnly)
    {
      var productEvent := Events.Deserialize(wrapper.payload);
      if !productEvent.Bound? {
        return Threw(JsonException);
      }
      var e := productEvent.event;
      var product := ProductReadOnly(e.id, e.name, e.price, e.rowVersion);
      if product.id in productsReadOnly {
        return Threw(SaveFailed);
      }
      productsReadOnly := productsReadOnly[product.id := product];
      outcome := Returned;
    }

    /** HandleProductUpdatedEvent, with the table and the outcome ApplyUpdate gives. */
    method HandleProductUpdatedEvent(wrapper: MessageWrapper) returns (outcome: Outcome)
      requires Valid()
      modifies this
      ensures Valid()
      ensures ApplyUpdate(old(productsReadOnly), wrapper).Done? ==>
        outcome == Returned && productsReadOnly == ApplyUpdate(old(productsReadOnly), wrapper).table
      ensures ApplyUpdate(old(productsReadOnly), wrapper).Raised? ==>
        outcome == Threw(ApplyUpdate(old(productsReadOnly), wrapper).exception) && productsReadOnly == old(productsReadOnly)
    {
      var productEvent := Events.Deserialize(wrapper.payload);
      if !productEvent.Bound? {
        return Threw(JsonException);
      }
      var e := productEvent.event;
      if e.id !in productsReadOnly {
        return Threw(KeyNotFoundException);
      }
      var existingProduct := productsReadOnly[e.id];
      existingProduct := existingProduct.(name := e.name);
      existingProduct := existingProduct.(price := e.price);
      existingProduct := existingProduct.(rowVersion := e.rowVersion);
      productsReadOnly := productsReadOnly[e.id := existingProduct];
      outcome := Returned;
    }
  }
}
