/**
 * The entities the event path carries: the create command, the write-side
 * product, the read-side product, and the two product event records.
 */
module Models {
  import opened Primitives

  /** CreateProductCommand(Name, Price): the request a create handles. */
  datatype CreateProductCommand = CreateProductCommand(name: string, price: Decimal)

  /** A row of the write-side Products table. */
  datatype Product = Product(id: Int32, name: string, price: Decimal, rowVersion: seq<byte>)

  /** A row of the read-side ProductsReadOnly table. */
  datatype ProductReadOnly = ProductReadOnly(id: Int32, name: string, price: Decimal, rowVersion: seq<byte>)

  /**
   * The four members that ProductCreatedEvent and ProductUpdatedEvent both
   * declare; which of the two records a value is, is its EventType.
   */
  datatype ProductEvent = ProductEvent(id: Int32, name: string, price: Decimal, rowVersion: seq<byte>)

  /** The event record types, the T of a generic publish. */
  datatype EventType = ProductCreatedEvent | ProductUpdatedEvent

  /** The ProductsReadOnly table, by primary key. */
  type ReadTable = map<Int32, ProductReadOnly>

  /** Every row sits under its own Id. */
  predicate KeyedById(t: ReadTable) {
    forall k :: k in t ==> t[k].id == k
  }
}
