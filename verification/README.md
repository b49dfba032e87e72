# Product event envelope: publish, route, project

This project models the event path of the CqrsWithMediatR service. A product
create on the write side is published as a `MessageWrapper` envelope on a
Service Bus queue. The `ServiceBusConsumer` reads the envelope, routes it on
its `EventType` tag, and applies it to the read-side `ProductsReadOnly`
table. The model covers three parts:

- **Envelope construction** (`ServiceBusPublisher.SendMessageAsync<T>`). The
  tag is `typeof(T).Name`. The payload is the JSON tree of the event. The body
  is the serialized wrapper and the ContentType is `application/json`.
- **Consumer decision and projection** (`ServiceBusConsumer.MessageHandlerAsync`
  and its two handlers). Routing is a pure function on the decoded wrapper.
  Each handler is a method on a class that holds the table as a
  `map<Int32, ProductReadOnly>`. The message's completion is a counter on the
  per-message arguments object. Each method is proved against a specification
  function (`Route`, `ApplyCreate`, `ApplyUpdate`, `Process`), and the
  behaviour is stated as lemmas about those functions.
- **Write-side create** (`CreateProductHandler.Handle`). It builds and saves
  the product, then starts publishing the `ProductCreatedEvent` without
  awaiting it. The effects are recorded in order, so "publish only after the
  save" is part of the contract.

JSON is an abstract tree (`Json.JsonValue`, plus `Json.JsonElement` for a
payload that may be Undefined). A `byte[]` travels as its base64 text
(section 4 of RFC 4648), which is what System.Text.Json writes for that type;
its round trip is proved.

The model follows the code, not the intent of a version-checked,
poison-dropping consumer. Four consequences:

- An update overwrites `RowVersion` without comparing versions.
- A body that does not deserialize throws, and the message is not completed.
- A null wrapper or an absent payload returns without completing the message.
- The create handler never looks for an existing row. A create delivered
  again fails at the save, which is an opaque store failure here, and is not
  completed.

Files: `primitives.dfy`, `base64.dfy`, `json.dfy`, `models.dfy`,
`events.dfy`, `envelope.dfy`, `publisher.dfy`, `consumer.dfy`,
`create_product.dfy`, `pipeline.dfy`. There is one module per file.

## Model

| member | source | states |
|---|---|---|
| `Base64.Encode` | ServiceBus/Services/ServiceBusPublisher.cs:32 | the text is empty exactly when the byte string is, and otherwise holds at least one 4-character group |
| `Base64.EncodeLength` | ServiceBus/Services/ServiceBusPublisher.cs:32 | the base64 text of n bytes has 4·⌈n/3⌉ characters |
| `Base64.EncodePadBitsZeroOne` | ServiceBus/Services/ServiceBusPublisher.cs:32 | after one trailing byte the text ends in "==" preceded by a digit whose four unfilled low bits are zero (the canonical form of section 3.5 of RFC 4648) |
| `Base64.EncodePadBitsZeroTwo` | ServiceBus/Services/ServiceBusPublisher.cs:32 | after two trailing bytes the text ends in "=" preceded by a digit whose two unfilled low bits are zero |
| `Base64.EncodeExamples` | ServiceBus/Services/ServiceBusPublisher.cs:32 | "f", "fo" and "foo" encode to "Zg==", "Zm8=" and "Zm9v", the one-group test vectors of section 10 of RFC 4648 |
| `Base64.EncodeHighDigits` | ServiceBus/Services/ServiceBusPublisher.cs:32 | the digit values 63 and 62 are written "/" and "+": FF FF FF encodes to "////" and FB EF BE to "++++" |
| `Base64.Decode` | ServiceBus/Services/ServiceBusConsumer.cs:75 | text that decodes has a length that is a multiple of 4, decodes to no bytes only when it is empty, and never yields more bytes than it has characters |
| `Base64.DecodeEncode` | ServiceBus/Services/ServiceBusPublisher.cs:32-35 | reading back the base64 text written for a RowVersion byte[] gives the same bytes, for every byte string |
| `Events.Serialize` | ServiceBus/Services/ServiceBusPublisher.cs:32-35 | an event's payload is a JSON object with exactly the members Id, Name, Price and RowVersion |
| `Events.Deserialize` | ServiceBus/Services/ServiceBusConsumer.cs:75-79 | binding gives null exactly for a JSON null payload; a bound event's Id, Name and Price are the payload's members and its RowVersion is what the member's base64 text decodes to |
| `Events.DeserializeBinds` | ServiceBus/Services/ServiceBusConsumer.cs:75 | an object whose Id is an integral number in Int32 range, whose Name is a string, whose Price is a number and whose RowVersion is base64 text binds to the event with exactly those values |
| `Events.DeserializeSerialize` | ServiceBus/Services/ServiceBusPublisher.cs:32-40 | binding the payload the publisher built recovers the event, all four fields |
| `Events.SerializeInjective` | ServiceBus/Services/ServiceBusPublisher.cs:32 | two different events never produce the same payload |
| `Envelope.SerializeWrapper` | ServiceBus/Services/ServiceBusPublisher.cs:43 | the serialized wrapper is an object with exactly EventType and Payload; Payload is the wrapper's element, EventType a string iff the tag is set |
| `Envelope.DeserializeWrapper` | ServiceBus/Services/ServiceBusConsumer.cs:52-53 | null wrapper iff the document is null; a wrapper iff the document is an object whose required EventType member is a string or null; Payload is Undefined iff the member is absent, and otherwise is that member's value; EventType is the member's string, or unset when the member is null |
| `Envelope.DeserializeSerializeWrapper` | ServiceBus/Models/MessageWrapper.cs:5-9 | a wrapper with a defined payload reads back from its serialized form unchanged |
| `Publisher.WrapEvent` | ServiceBus/Services/ServiceBusPublisher.cs:37-41 | the envelope's EventType is typeof(T).Name and its payload binds back to the event |
| `Publisher.CreateMessage` | ServiceBus/Services/ServiceBusPublisher.cs:43-47 | the message's ContentType is "application/json" and its body reads back as exactly the wrapper |
| `Publisher.TypeName` | ServiceBus/Services/ServiceBusPublisher.cs:39 | the tag is "ProductCreatedEvent" exactly for the created event type and "ProductUpdatedEvent" exactly for the updated one |
| `Publisher.TypeNameInjective` | ServiceBus/Services/ServiceBusPublisher.cs:39 | distinct event record types get distinct tags |
| `Consumer.Route` | ServiceBus/Services/ServiceBusConsumer.cs:55-68 | a decode throw fails with JsonException; a null wrapper or Undefined payload returns at once; otherwise the create handler is chosen iff the tag is "ProductCreatedEvent", the update handler iff it is "ProductUpdatedEvent" |
| `Consumer.ApplyCreate` | ServiceBus/Services/ServiceBusConsumer.cs:73-96 | a payload that is null or unbindable throws JsonException; a bound event whose Id is already a row fails the save; otherwise exactly one row is added, holding the event's Id, Name, Price and RowVersion, and every other row is kept |
| `Consumer.ApplyUpdate` | ServiceBus/Services/ServiceBusConsumer.cs:98-121 | null or unbindable throws JsonException; an absent Id throws KeyNotFoundException; otherwise the row's Name, Price and RowVersion become the event's, its Id and all other rows are kept, and the key set is unchanged |
| `Consumer.Process` | ServiceBus/Services/ServiceBusConsumer.cs:50-71 | the message is completed only when it was routed and the handler returned; the table changes only on a completed message; rows stay under their own Id |
| `Consumer.EndsCompleted` | ServiceBus/Services/ServiceBusConsumer.cs:37-42 | with AutoCompleteMessages false a message ends completed exactly when the handler completed it; a handler that threw without completing never leaves it completed |
| `Consumer.OnlyHandlerCompletes` | ServiceBus/Services/ServiceBusConsumer.cs:37-42 | under the listener's options (AutoCompleteMessages false) a message ends completed iff the handler completed it; a null wrapper or Undefined payload returns without the message being completed, where auto-completion would have completed it |
| `Consumer.UndecodableBodyThrows` | ServiceBus/Services/ServiceBusConsumer.cs:52-53 | a body that does not deserialize throws; the table is unchanged and the message is not completed |
| `Consumer.EmptyEnvelopeNotCompleted` | ServiceBus/Services/ServiceBusConsumer.cs:55-59 | a null wrapper or one with an Undefined payload returns, the table is unchanged, the message is not completed |
| `Consumer.UnknownEventTypeCompleted` | ServiceBus/Services/ServiceBusConsumer.cs:61-70 | an envelope with any other tag leaves the table unchanged and is completed |
| `Consumer.CreateAddsRow` | ServiceBus/Services/ServiceBusConsumer.cs:83-92 | a create with a bound event for a new Id adds that one row with the event's four values and is completed |
| `Consumer.DuplicateCreateNotCompleted` | ServiceBus/Services/ServiceBusConsumer.cs:91-92 | a create for an Id already in the table fails at the save; the table is unchanged and the message is not completed |
| `Consumer.UnboundPayloadThrows` | ServiceBus/Services/ServiceBusConsumer.cs:75-79 | a create or update payload that binds to null or does not bind throws JsonException; the table is unchanged, not completed |
| `Consumer.UpdateOfMissingRowThrows` | ServiceBus/Services/ServiceBusConsumer.cs:108-112 | an update for an Id not in the table throws KeyNotFoundException; the table is unchanged, not completed |
| `Consumer.UpdateOverwritesRow` | ServiceBus/Services/ServiceBusConsumer.cs:114-117 | an update for an existing Id sets Name, Price and RowVersion to the event's with no version comparison, keeps the Id and every other row, and is completed |
| `Consumer.ProcessMessageEventArgs.CompleteMessageAsync` | ServiceBus/Services/ServiceBusConsumer.cs:70 | completing the message adds one to its completion count |
| `Consumer.ServiceBusConsumer.MessageHandlerAsync` | ServiceBus/Services/ServiceBusConsumer.cs:50-71 | the new table and the outcome are those of Process; the message is completed once if Process completes it, otherwise not at all; rows stay keyed by Id |
| `Consumer.ServiceBusConsumer.HandleProductCreateEvent` | ServiceBus/Services/ServiceBusConsumer.cs:73-96 | the new table and the outcome are those of ApplyCreate; on a throw the table is unchanged |
| `Consumer.ServiceBusConsumer.HandleProductUpdatedEvent` | ServiceBus/Services/ServiceBusConsumer.cs:98-121 | the new table and the outcome are those of ApplyUpdate; on a throw the table is unchanged |
| `CreateProduct.CreatedEvent` | Features/Commands/CreateProductHandler.cs:43 | the published event carries the saved product's Id, Name, Price and RowVersion |
| `CreateProduct.CreateProductHandler.Handle` | Features/Commands/CreateProductHandler.cs:26-53 | the saved row has the command's Name and Price, an all-zero 8-byte RowVersion and a fresh key; other rows are kept; the save is followed by starting a publish of the event carrying the row's four values; the returned Id is the event's Id |
| `Pipeline.EnvelopeRoutesToItsHandler` | ServiceBus/Services/ServiceBusConsumer.cs:61-68 | an envelope published for ProductCreatedEvent or ProductUpdatedEvent reaches that type's handler with the wrapper intact |
| `Pipeline.PublishedCreateIsProjected` | Features/Commands/CreateProductHandler.cs:43-49 | a published create for a new Id yields a read-only row with the product's Id, Name, Price and RowVersion, and is completed |
| `Pipeline.PublishedUpdateIsProjected` | ServiceBus/Services/ServiceBusConsumer.cs:98-121 | a published update for an existing row sets its Name, Price and RowVersion, and is completed |
| `Pipeline.UpdateBeforeCreateSucceedsOnRedelivery` | ServiceBus/Services/ServiceBusConsumer.cs:108-112 | an update consumed before its create is not completed and changes nothing; after the create it succeeds |
| `Pipeline.LaterUpdateWins` | ServiceBus/Services/ServiceBusConsumer.cs:114-117 | of two updates to one row the later one's values remain, whatever their row versions |
| `Pipeline.RedeliveredCreateNotCompleted` | ServiceBus/Services/ServiceBusConsumer.cs:83-92 | a create delivered again after its row exists leaves the table unchanged and is not completed |
| `Pipeline.CreateThenConsume` | Features/Commands/CreateProductHandler.cs:26-53 | handling a create and consuming its published message adds exactly one product under the new Id (the command's Name and Price, the initial RowVersion) and records its save followed by the start of its publish; the read side gains one row under that Id equal in all four values to the saved product; the message is completed exactly once |

## Left out

- Text and bytes: JSON text rendering and UTF-8 encoding are not modelled. A body is the tree of the JSON document it holds, or bytes that do not parse.
- Parsing edge cases: duplicate member names, number formats and System.Text.Json's case rules are left out.
- `Events.Deserialize`: a missing member, or a null Name or RowVersion, counts as a binding failure. System.Text.Json would instead bind a record with default or null values. `Events.Deserialize` is therefore weaker than the library on such payloads.
- Base64 decoding: how System.Text.Json treats non-zero pad bits and whitespace is left out. The model ignores pad bits.
- Numbers: `decimal` is its exact value, without its 28-digit range or scale. An Id must be integral and within `Int32`'s range.
- `CreateProduct.CreateProductHandler.Handle`: the Id is generated by the EF Core store. Here it is any key the table does not hold (`generatedId`). The key generator and change tracking are left out. The `CancellationToken` passed to the save (Features/Commands/CreateProductHandler.cs:26, 40) is not modelled, and neither is a save that throws: in the source such a failure ends `Handle` before any publish starts, while the model's `Handle` always saves and then starts the publish.
- Duplicate create: a duplicate key is refused by the store. This is modelled as the opaque failure `SaveFailed` at the consumer's insert, with no table change.
- Key configuration: how `ProductReadOnly`'s key is configured (value generation on Id 0) is not part of this model.
- Values, not references: the product, the read-only row and their `byte[]` RowVersion are values. The event shares the product's array, but nothing writes it afterwards, so the aliasing is not modelled.
- Tracked entity: the update handler's in-place field writes followed by a save become a replacement of the row value.
- Publish is fire-and-forget: the `Task.Run` is modelled as the effect `PublishStarted`. Its outcome, the send itself, the per-call client and the sender are network I/O, so they are left out.
- Publisher log: the console log line after the send is left out.
- Processor: `StartListening` creates the processor, with parallelism 5 and prefetch 10. These settings are recorded as constants only. Concurrent handler calls and the broker's redelivery are not modelled.
- Error logging: `ErrorHandler` console logging is left out.
- Handler logging: the create and update handlers' console lines after a save (ServiceBus/Services/ServiceBusConsumer.cs:94 and :119) are left out.
- Settlement failure: a failing `CompleteMessageAsync` (for example, a lost lock) is not modelled.
- Configuration: `KeyVaultService` (environment-variable lookup), the queue name, the namespace, dependency-injection wiring and host startup in `Program.cs` are process I/O. They are not part of this model.
- Other commands and queries: `UpdateProductCommand` and the query records are declarations whose handlers are not part of this model. `ServiceBus/Events`, `Models/Product.cs` and `Models/ProductReadOnly.cs` are not part of this model either. Their shapes are taken from how the handlers construct and read them.
