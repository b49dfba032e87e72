/**
 * How a product event record becomes a JSON payload (JsonSerializer.Serialize
 * followed by a re-parse to a JsonElement) and how a payload is bound back
 * to an event record (JsonElement.Deserialize<T>).
 */
module Events {
  import opened Primitives
  import opened Json
  import opened Models
  import Base64

  /**
   * The JSON tree of an event: one member per property, under the
   * property's name; the Id and Price as numbers, the Name as a string,
   * and the RowVersion byte[] as its base64 text.
   */
  function Serialize(e: ProductEvent): (j: JsonValue)
    ensures j.Object? && j.members.Keys == {"Id", "Name", "Price", "RowVersion"}
  {
    Object(map[
      "Id" := Number(e.id as real),
      "Name" := String(e.name),
      "Price" := Number(e.price),
      "RowVersion" := String(Base64.Encode(e.rowVersion))])
  }

  /** The outcome of binding a payload to an event record. */
  datatype Binding =
    | Bound(event: ProductEvent)  // an event record
    | BoundNull                   // the payload is JSON null, so the record is null
    | BindingThrew                // the deserializer throws a JsonException

  /** A JSON number read as an int: integral and within Int32's range. */
  function AsInt32(j: JsonValue): (r: Option<Int32>)
    ensures r.Some? ==> j == Number(r.value as real)
  {
    if j.Number? && j.n.Floor as real == j.n && InInt32Range(j.n.Floor) then Some(j.n.Floor as Int32) else None
  }

  /** A JSON string read as a byte[]: base64 text. */
  function AsBytes(j: JsonValue): Option<seq<byte>> {
    if j.String? then Base64.Decode(j.s) else None
  }

  /**
   * JsonElement.Deserialize<T>() for T a product event record: null for a
   * JSON null, a record when every member is present and of its type,
   * otherwise a throw (an Undefined element cannot be read at all).
   */
  function Deserialize(p: JsonElement): (r: Binding)
    ensures r.BoundNull? <==> p == Element(Null)
    ensures r.Bound? ==> p.Element? && p.value.Object?
    ensures r.Bound? ==> var m := p.value.members;
      && "Id" in m && m["Id"] == Number(r.event.id as real)
      && "Name" in m && m["Name"] == String(r.event.name)
      && "Price" in m && m["Price"] == Number(r.event.price)
      && "RowVersion" in m && m["RowVersion"].String? && Base64.Decode(m["RowVersion"].s) == Some(r.event.rowVersion)
  {
    match p
    // Not reached from the consumer, which returns before binding an
    // Undefined payload; the library throws InvalidOperationException here.
    case Undefined => BindingThrew
    case Element(Null) => BoundNull
    case Element(Object(m)) =>
      if "Id" in m && "Name" in m && "Price" in m && "RowVersion" in m then
        match (AsInt32(m["Id"]), m["Name"], m["Price"], AsBytes(m["RowVersion"]))
        case (Some(id), String(name), Number(price), Some(rowVersion)) =>
          Bound(ProductEvent(id, name, price, rowVersion))
        case _ => BindingThrew
      else BindingThrew
    case Element(_) => BindingThrew
  }

  /**
   * An object whose Id is an integral number in int range, whose Name is a
   * string, whose Price is a number and whose RowVersion is base64 text binds
   * to the event with those values, whatever other members it has.
   */
  lemma DeserializeBinds(m: map<string, JsonValue>, id: Int32, name: string, price: Decimal, rowVersion: seq<byte>)
    requires "Id" in m && m["Id"] == Number(id as real)
    requires "Name" in m && m["Name"] == String(name)
    requires "Price" in m && m["Price"] == Number(price)
    requires "RowVersion" in m && m["RowVersion"].String? && Base64.Decode(m["RowVersion"].s) == Some(rowVersion)
    ensures Deserialize(Element(Object(m))) == Bound(ProductEvent(id, name, price, rowVersion))
  {
    assert AsInt32(Number(id as real)) == Some(id);
  }

  /** Binding the serialized tree of an event gives the same event back. */
  lemma DeserializeSerialize(e: ProductEvent)
    ensures Deserialize(Element(Serialize(e))) == Bound(e)
  {
    Base64.DecodeEncode(e.rowVersion);
    assert AsInt32(Number(e.id as real)) == Some(e.id);
  }

  /**
   * Two different events never share a payload, so the consumer can never
   * project one product's row from another product's event.
   */
  lemma SerializeInjective(e1: ProductEvent, e2: ProductEvent)
    ensures Serialize(e1) == Serialize(e2) ==> e1 == e2
  {
    DeserializeSerialize(e1);
    DeserializeSerialize(e2);
  }
}
