/**
 * `CellComparatorImpl`: the total order on cells.  A comparison looks at the
 * row, then the column (family, then qualifier), then the timestamp
 * (newest first), then the type (highest code first), then the sequence id
 * (newest first).  The catalog comparator differs only in how it compares
 * rows; `Comparator` names which of the two singletons is in use.
 */
module CellComparatorImpl {
  import opened Bytes
  import opened Longs
  import opened Cells
  import MetaCellComparator

  /** The two singletons: `COMPARATOR` and `META_COMPARATOR`. */
  datatype Comparator = Standard | Meta

  /** `compare(a, b)`: the full comparison, sequence id included. */
  function Compare(cmp: Comparator, a: Cell, b: Cell): (r: int)
    requires a.Valid() && b.Valid()
    ensures r == CompareCells(cmp, a, b, false)
  {
    CompareCells(cmp, a, b, false)
  }

  /**
   * `compare(a, b, ignoreSequenceid)`: rows first, then everything but the
   * row, then (unless told to ignore it) the sequence id, higher first.
   */
  function CompareCells(cmp: Comparator, a: Cell, b: Cell, ignoreSequenceId: bool): (r: int)
    requires a.Valid() && b.Valid()
    ensures RowOrder(cmp, a, b) != 0 ==> r == RowOrder(cmp, a, b)
    ensures RowOrder(cmp, a, b) == 0 && CompareWithoutRow(a, b) != 0 ==> r == CompareWithoutRow(a, b)
    ensures r == 0 <==>
      RowOrder(cmp, a, b) == 0 && CompareWithoutRow(a, b) == 0 && (ignoreSequenceId || a.sequenceId == b.sequenceId)
    ensures RowOrder(cmp, a, b) == 0 && CompareWithoutRow(a, b) == 0 && !ignoreSequenceId ==>
      (r == -1 <==> a.sequenceId > b.sequenceId) && (r == 1 <==> a.sequenceId < b.sequenceId)
  {
    var c := RowOrder(cmp, a, b);
    if c != 0 then c
    else
      var c' := CompareWithoutRow(a, b);
      if c' != 0 then c'
      else if !ignoreSequenceId then
        // the higher sequence id, the newer edit, goes first
        Longs.Compare(b.sequenceId, a.sequenceId)
      else c'
  }

  /** The row step, as overridden by the comparator in use. */
  function RowOrder(cmp: Comparator, left: Cell, right: Cell): (r: int)
    requires left.Valid() && right.Valid()
  {
    match cmp
    case Standard => CompareRows(left, right)
    case Meta => MetaCellComparator.CompareRows(left, right)
  }

  /** `compareColumns`: family first, then qualifier. */
  function CompareColumns(left: Cell, right: Cell): (r: int)
    requires left.Valid() && right.Valid()
    ensures -1 <= r <= 1
    ensures r == 0 <==> left.family.Bytes() == right.family.Bytes() && left.qualifier.Bytes() == right.qualifier.Bytes()
    ensures r == -1 <==>
      || Precedes(left.family.Bytes(), right.family.Bytes())
      || (left.family.Bytes() == right.family.Bytes() && Precedes(left.qualifier.Bytes(), right.qualifier.Bytes()))
  {
    var diff := CompareFamilies(left, right);
    if diff != 0 then diff else CompareQualifiers(left, right)
  }

  /**
   * `compareFamilies`: unsigned comparison of the family bytes.  All four
   * backing pairings compare left against right in that order.
   */
  function CompareFamilies(left: Cell, right: Cell): (r: int)
    requires left.Valid() && right.Valid()
    ensures OrdersAs(r, left.family.Bytes(), right.family.Bytes())
  {
    CompareToOrders(left.family, right.family);
    CompareTo(left.family, right.family)
  }

  /** `compareQualifiers`: unsigned comparison of the qualifier bytes. */
  function CompareQualifiers(left: Cell, right: Cell): (r: int)
    requires left.Valid() && right.Valid()
    ensures OrdersAs(r, left.qualifier.Bytes(), right.qualifier.Bytes())
  {
    CompareToOrders(left.qualifier, right.qualifier);
    CompareTo(left.qualifier, right.qualifier)
  }

  /**
   * `compareRows(Cell, Cell)`: 0 at once for the same cell, otherwise the
   * unsigned comparison of the row bytes.  The shortcut never changes the
   * answer.
   */
  function CompareRows(left: Cell, right: Cell): (r: int)
    requires left.Valid() && right.Valid()
    ensures left == right ==> r == 0
    ensures r == CompareTo(left.row, right.row)
    ensures OrdersAs(r, left.row.Bytes(), right.row.Bytes())
  {
    // the same cell needs no byte comparison
    CompareToOrders(left.row, right.row);
    if left == right then 0
    else CompareTo(left.row, right.row)
  }

  /** `compareRows(Cell, byte[], int, int)`: a cell's row against a plain byte range. */
  function CompareRowToBytes(left: Cell, right: Segment): (r: int)
    requires left.Valid() && right.Valid()
    ensures OrdersAs(r, left.row.Bytes(), right.Bytes())
  {
    CompareToOrders(left.row, right);
    CompareTo(left.row, right)
  }

  /**
   * `compareWithoutRow`: the column, timestamp and type steps.  An
   * empty-column Minimum cell sorts after everything (the left one is
   * tested first); differing family lengths let the family decide alone.
   */
  function CompareWithoutRow(left: Cell, right: Cell): (r: int)
    requires left.Valid() && right.Valid()
    ensures left.IsLastOnRow() ==> r == 1
    ensures !left.IsLastOnRow() && right.IsLastOnRow() ==> r == -1
    ensures -255 <= r <= 255
  {
    var lFamLength := left.family.length;
    var rFamLength := right.family.length;
    var lQualLength := left.qualifier.length;
    var rQualLength := right.qualifier.length;
    if lFamLength + lQualLength == 0 && left.typeByte == TYPE_MINIMUM then
      // a left sentinel goes after the right cell, whatever that is
      1
    else if rFamLength + rQualLength == 0 && right.typeByte == TYPE_MINIMUM then
      -1
    else if lFamLength != rFamLength then
      // families of different lengths differ, so the family decides
      CompareFamilies(left, right)
    else
      var diff := CompareColumns(left, right);
      if diff != 0 then diff
      else
        var diff' := CompareCellTimestamps(left, right);
        if diff' != 0 then diff'
        // the higher type code goes first
        else (right.typeByte as int) - (left.typeByte as int)
  }

  /** The two cells agree on everything `CompareWithoutRow` looks at. */
  ghost predicate SameKeyButRow(left: Cell, right: Cell)
    requires left.Valid() && right.Valid()
  {
    && left.family.Bytes() == right.family.Bytes()
    && left.qualifier.Bytes() == right.qualifier.Bytes()
    && left.timestamp == right.timestamp
    && left.typeByte == right.typeByte
  }

  /** `compareTimestamps(Cell, Cell)`: the cells' timestamps, newest first. */
  function CompareCellTimestamps(left: Cell, right: Cell): (r: int)
    ensures r == 1 <==> left.timestamp < right.timestamp
    ensures r == -1 <==> left.timestamp > right.timestamp
    ensures r == 0 <==> left.timestamp == right.timestamp
  {
    CompareTimestamps(left.timestamp, right.timestamp)
  }

  /**
   * `compareTimestamps(long, long)`: descending order, so that newer
   * versions are met first; it is `Longs.compare` with the operands swapped.
   */
  function CompareTimestamps(ltimestamp: Long, rtimestamp: Long): (r: int)
    ensures r == 1 <==> ltimestamp < rtimestamp
    ensures r == -1 <==> ltimestamp > rtimestamp
    ensures r == 0 <==> ltimestamp == rtimestamp
    ensures r == Longs.Compare(rtimestamp, ltimestamp)
  {
    if ltimestamp < rtimestamp then 1
    else if ltimestamp > rtimestamp then -1
    else 0
  }
}
