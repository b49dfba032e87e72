/** Value types of the .NET runtime that the product events and tables are built from. */
module Primitives {

  /** A value that may be absent (a .NET null). */
  datatype Option<+T> = None | Some(value: T)

  /** A .NET byte (System.Byte). */
  newtype byte = x: int | 0 <= x < 0x100

  /** A .NET int (System.Int32), the type of every product Id. */
  newtype Int32 = x: int | -0x8000_0000 <= x < 0x8000_0000

  predicate InInt32Range(x: int) {
    -0x8000_0000 <= x < 0x8000_0000
  }

  /** A .NET decimal, as the exact value it denotes. */
  type Decimal = real
}
