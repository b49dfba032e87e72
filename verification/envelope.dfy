/**
 * The MessageWrapper envelope, {EventType, Payload}, and the message body
 * that carries it: how the publisher writes it and how the consumer reads it
 * back with JsonSerializer.Deserialize<MessageWrapper>.
 */
module Envelope {
  import opened Primitives
  import opened Json

  /**
   * MessageWrapper: a required EventType string (None when the JSON member
   * is null, which the deserializer lets through) and a JsonElement payload,
   * Undefined when the JSON object has no Payload member.
   */
  datatype MessageWrapper = MessageWrapper(eventType: Option<string>, payload: JsonElement)

  /**
   * A message body: the UTF-8 text of a JSON document, given by the
   * document's tree, or bytes that do not parse as JSON.
   */
  datatype Body = Utf8Json(document: JsonValue) | NotJson(raw: seq<byte>)

  /** A Service Bus message: its body and its ContentType property. */
  datatype Message = Message(body: Body, contentType: string)

  /** What JsonSerializer.Deserialize<MessageWrapper> yields for a body. */
  datatype Decoded =
    | DecodeThrew               // a JsonException
    | NullWrapper               // the document is JSON null
    | Wrapper(wrapper: MessageWrapper)

  /**
   * JsonSerializer.Serialize(wrapper) as a tree: an object with the two
   * properties under their names. A wrapper whose Payload is Undefined
   * cannot be serialized.
   */
  function SerializeWrapper(w: MessageWrapper): (j: JsonValue)
    requires w.payload.Element?
    ensures j.Object? && j.members.Keys == {"EventType", "Payload"}
    ensures j.members["Payload"] == w.payload.value
    ensures j.members["EventType"].String? <==> w.eventType.Some?
  {
    Object(map[
      "EventType" := (match w.eventType case Some(t) => String(t) case None => Null),
      "Payload" := w.payload.value])
  }

  /**
   * JsonSerializer.Deserialize<MessageWrapper>(body): null for the document
   * null; a wrapper for an object whose EventType member is present and is a
   * string or null; a throw for unparseable text, any other document, or a
   * missing or mistyped EventType. Members other than the two are ignored.
   */
  function DeserializeWrapper(body: Body): (r: Decoded)
    ensures r.NullWrapper? <==> body == Utf8Json(Null)
    ensures r.Wrapper? <==>
      && body.Utf8Json? && body.document.Object?
      && "EventType" in body.document.members
      && (body.document.members["EventType"].String? || body.document.members["EventType"].Null?)
    ensures r.Wrapper? ==> (r.wrapper.payload.Undefined? <==> "Payload" !in body.document.members)
    ensures r.Wrapper? ==>
      r.wrapper.eventType == (if body.document.members["EventType"].String? then Some(body.document.members["EventType"].s) else None)
    ensures r.Wrapper? && "Payload" in body.document.members ==>
      r.wrapper.payload == Element(body.document.members["Payload"])
  {
    match body
    case NotJson(_) => DecodeThrew
    case Utf8Json(Null) => NullWrapper
    case Utf8Json(Object(m)) =>
      if "EventType" !in m then DecodeThrew
      else
        var tag := m["EventType"];
        if tag.String? || tag.Null? then
          Wrapper(MessageWrapper(
            if tag.String? then Some(tag.s) else None,
            if "Payload" in m then Element(m["Payload"]) else Undefined))
        else DecodeThrew
    case Utf8Json(_) => DecodeThrew
  }

  /** Reading back a serialized wrapper gives the same wrapper. */
  lemma DeserializeSerializeWrapper(w: MessageWrapper)
    requires w.payload.Element?
    ensures DeserializeWrapper(Utf8Json(SerializeWrapper(w))) == Wrapper(w)
  {
  }
}
