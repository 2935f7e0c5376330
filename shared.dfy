/** Types shared by the routing layer and the storage adapters. */
module Shared {

  import opened Wrappers

  const LONG_MIN: int := -0x8000_0000_0000_0000
  const LONG_MAX: int := 0x7FFF_FFFF_FFFF_FFFF
  const INT_MAX: int := 0x7FFF_FFFF

  /** Java's 64-bit `long`. */
  type Long = x: int | LONG_MIN <= x <= LONG_MAX

  /** The value types a column may carry. */
  datatype DataType = BOOLEAN | INTEGER | LONG | FLOAT | DOUBLE | BINARY

  /** A half-open interval over the key (time) axis. */
  datatype KeyInterval = KeyInterval(startKey: Long, endKey: Long)

  /**
   * A half-open interval over path names; a missing bound stands for Java's null
   * (both bounds are null when a backend holds no keys at all).
   */
  datatype ColumnsInterval = ColumnsInterval(startPath: Option<string>, endPath: Option<string>)

  /**
   * A key range carried by a delete. The inclusive bounds `actualBeginKey` and
   * `actualEndKey` are computed by the range class itself, which is not part of this model.
   */
  datatype KeyRange = KeyRange(beginKey: Long, endKey: Long, actualBeginKey: Long, actualEndKey: Long)
}
