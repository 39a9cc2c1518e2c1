/**
 * The cell: one versioned key, as the comparators see it.  Row, family and
 * qualifier are byte segments; timestamp and sequence id are Java longs; the
 * type is one byte.  An array-backed cell and a buffer-backed cell expose
 * the same segments, so one datatype serves for both.
 */
module Cells {
  import opened Bytes
  import opened Longs

  /** A type code as the comparator reads it: the type byte taken unsigned (`& 0xff`). */
  type TypeCode = x: int | 0 <= x <= 255

  /** `KeyValue.Type.Minimum`: sorts after every other type. */
  const TYPE_MINIMUM: TypeCode := 0
  /** `KeyValue.Type.Maximum`: sorts before every other type. */
  const TYPE_MAXIMUM: TypeCode := 255

  datatype Cell = Cell(
    row: Segment,
    family: Segment,
    qualifier: Segment,
    timestamp: Long,
    typeByte: TypeCode,
    sequenceId: Long)
  {
    predicate Valid() {
      row.Valid() && family.Valid() && qualifier.Valid()
    }

    /**
     * A cell with no column and type Minimum: the synthetic key that sorts
     * after every real cell of its row, used as the upper bound of a row.
     */
    predicate IsLastOnRow() {
      family.length + qualifier.length == 0 && typeByte == TYPE_MINIMUM
    }
  }
}
