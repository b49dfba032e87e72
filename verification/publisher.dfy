/**
 * ServiceBusPublisher.SendMessageAsync<T>: the envelope and the message it
 * builds for an event of record type T. Opening the client and the send
 * itself are not part of this module.
 */
module Publisher {
  import opened Primitives
  import opened Json
  import opened Models
  import Events
  import opened Envelope

  /** typeof(T).Name: the simple name of the event record type. */
  function TypeName(t: EventType): (name: string)
    ensures name == "ProductCreatedEvent" <==> t == ProductCreatedEvent
    ensures name == "ProductUpdatedEvent" <==> t == ProductUpdatedEvent
  {
    match t
    case ProductCreatedEvent => "ProductCreatedEvent"
    case ProductUpdatedEvent => "ProductUpdatedEvent"
  }

  /** The ContentType every published message carries. */
  const ApplicationJson: string := "application/json"

  /**
   * The wrapper for an event: tagged with its type's name, the payload the
   * event's JSON tree (serialized, then parsed back to a JsonElement).
   */
  function WrapEvent(t: EventType, e: ProductEvent): (w: MessageWrapper)
    ensures w.eventType == Some(TypeName(t))
    ensures w.payload.Element?
    ensures Events.Deserialize(w.payload) == Events.Bound(e)
  {
    Events.DeserializeSerialize(e);
    MessageWrapper(Some(TypeName(t)), Element(Events.Serialize(e)))
  }

  /**
   * The message SendMessageAsync<T> hands to the sender: the UTF-8 text of
   * the serialized wrapper, with ContentType "application/json". Reading its
   * body back gives exactly the wrapper.
   */
  function CreateMessage(t: EventType, e: ProductEvent): (m: Message)
    ensures m.contentType == "application/json"
    ensures DeserializeWrapper(m.body) == Wrapper(WrapEvent(t, e))
  {
    var w := WrapEvent(t, e);
    DeserializeSerializeWrapper(w);
    Message(Utf8Json(SerializeWrapper(w)), ApplicationJson)
  }

  /** Distinct event record types get distinct tags. */
  lemma TypeNameInjective(a: EventType, b: EventType)
    ensures TypeName(a) == TypeName(b) <==> a == b
  {
  }
}
