/**
 * What the cell comparators promise as orders.  Each step of a comparison
 * is given an independent reference definition (`RowStep`, `KeyStep`,
 * `SentinelStep`), the comparators are shown to be the lexicographic chain
 * of those steps, and from that: antisymmetry, reflexivity and
 * transitivity, with the exact exception the Minimum sentinel makes.
 */
module CellOrder {
  import opened Wrappers
  import opened Bytes
  import opened ThreeWay
  import opened Longs
  import opened Cells
  import opened CatalogRow
  import opened CellComparatorImpl
  import MetaCellComparator

  /** The row step each comparator means: unsigned row bytes, or the catalog row's parts in turn. */
  ghost function RowStep(cmp: Comparator, a: Cell, b: Cell): (r: int)
    requires a.Valid() && b.Valid()
  {
    match cmp
    case Standard => CompareUnsigned(a.row.Bytes(), b.row.Bytes())
    case Meta => CompareRowParts(SplitRow(a.row.Bytes()), SplitRow(b.row.Bytes()))
  }

  /** An empty-column Minimum cell sorts after every other cell of its row. */
  function SentinelStep(a: Cell, b: Cell): (r: int) {
    (if a.IsLastOnRow() then 1 else 0) - (if b.IsLastOnRow() then 1 else 0)
  }

  /**
   * The column, timestamp and type steps as one lexicographic order, with no
   * family-length shortcut: family bytes, qualifier bytes, timestamp newest
   * first, type code highest first.
   */
  ghost function KeyStep(a: Cell, b: Cell): (r: int)
    requires a.Valid() && b.Valid()
  {
    Then(CompareUnsigned(a.family.Bytes(), b.family.Bytes()), QualifierStep(a, b))
  }

  /** From the qualifier on. */
  ghost function QualifierStep(a: Cell, b: Cell): (r: int)
    requires a.Valid() && b.Valid()
  {
    Then(CompareUnsigned(a.qualifier.Bytes(), b.qualifier.Bytes()), TimestampStep(a, b))
  }

  /** From the timestamp on: newest first, then the highest type code first. */
  function TimestampStep(a: Cell, b: Cell): (r: int) {
    Then(CompareTimestamps(a.timestamp, b.timestamp), (b.typeByte as int) - (a.typeByte as int))
  }

  /** The sequence-id step: the higher id first, or a tie when it is ignored. */
  function SequenceStep(a: Cell, b: Cell, ignoreSequenceId: bool): (r: int) {
    if ignoreSequenceId then 0 else Longs.Compare(b.sequenceId, a.sequenceId)
  }

  /** Everything after the row: the sentinel rule, the key, the sequence id. */
  ghost function AfterRowStep(a: Cell, b: Cell, ignoreSequenceId: bool): (r: int)
    requires a.Valid() && b.Valid()
  {
    Then(Then(SentinelStep(a, b), KeyStep(a, b)), SequenceStep(a, b, ignoreSequenceId))
  }

  /** The order the comparators are built to give, sequence id last unless ignored. */
  ghost function CellOrderOf(cmp: Comparator, a: Cell, b: Cell, ignoreSequenceId: bool): (r: int)
    requires a.Valid() && b.Valid()
  {
    Then(RowStep(cmp, a, b), AfterRowStep(a, b, ignoreSequenceId))
  }

  /** Both comparators' row step is the row step they mean, whatever backs the rows. */
  lemma RowOrderIsRowStep(cmp: Comparator, a: Cell, b: Cell)
    requires a.Valid() && b.Valid()
    ensures RowOrder(cmp, a, b) == RowStep(cmp, a, b)
  {
  }

  /**
   * Between two cells that are not sentinels, the family-length shortcut
   * gives the same answer as comparing family, then qualifier: when the
   * lengths differ the families differ, and the family alone decides.
   */
  lemma CompareWithoutRowIsKeyStep(a: Cell, b: Cell)
    requires a.Valid() && b.Valid() && !a.IsLastOnRow() && !b.IsLastOnRow()
    ensures CompareWithoutRow(a, b) == KeyStep(a, b)
    ensures a.family.length != b.family.length ==> CompareWithoutRow(a, b) == CompareFamilies(a, b) != 0
  {
    if a.family.length != b.family.length {
      assert |a.family.Bytes()| != |b.family.Bytes()|;
    }
  }

  /**
   * The sentinel rule: the left side is tested first, so two sentinels
   * compare as 1 both ways; otherwise `CompareWithoutRow` is the sentinel
   * step followed by the key step.
   */
  lemma CompareWithoutRowSentinels(a: Cell, b: Cell)
    requires a.Valid() && b.Valid()
    ensures a.IsLastOnRow() && b.IsLastOnRow() ==> CompareWithoutRow(a, b) == 1 == CompareWithoutRow(b, a)
    ensures !(a.IsLastOnRow() && b.IsLastOnRow()) ==>
      CompareWithoutRow(a, b) == Then(SentinelStep(a, b), KeyStep(a, b))
  {
    if !a.IsLastOnRow() && !b.IsLastOnRow() {
      CompareWithoutRowIsKeyStep(a, b);
    }
  }

  /** The key step ties exactly on the fields `CompareWithoutRow` reads, and swapping negates it. */
  lemma KeyStepAntisymmetric(a: Cell, b: Cell)
    requires a.Valid() && b.Valid()
    ensures KeyStep(a, b) == -KeyStep(b, a)
    ensures KeyStep(a, b) == 0 <==> SameKeyButRow(a, b)
  {
    CompareUnsignedAntisymmetric(a.family.Bytes(), b.family.Bytes());
    CompareUnsignedAntisymmetric(a.qualifier.Bytes(), b.qualifier.Bytes());
  }

  /** Each step of the key chains, so the key step does. */
  lemma KeyStepChains(a: Cell, b: Cell, c: Cell)
    requires a.Valid() && b.Valid() && c.Valid()
    ensures Chains(KeyStep(a, b), KeyStep(b, c), KeyStep(a, c))
  {
    QualifierStepChains(a, b, c);
    CompareUnsignedChains(a.family.Bytes(), b.family.Bytes(), c.family.Bytes());
    ThenChains(CompareUnsigned(a.family.Bytes(), b.family.Bytes()),
               CompareUnsigned(b.family.Bytes(), c.family.Bytes()),
               CompareUnsigned(a.family.Bytes(), c.family.Bytes()),
               QualifierStep(a, b), QualifierStep(b, c), QualifierStep(a, c));
  }

  lemma QualifierStepChains(a: Cell, b: Cell, c: Cell)
    requires a.Valid() && b.Valid() && c.Valid()
    ensures Chains(QualifierStep(a, b), QualifierStep(b, c), QualifierStep(a, c))
  {
    TimestampStepChains(a, b, c);
    CompareUnsignedChains(a.qualifier.Bytes(), b.qualifier.Bytes(), c.qualifier.Bytes());
    ThenChains(CompareUnsigned(a.qualifier.Bytes(), b.qualifier.Bytes()),
               CompareUnsigned(b.qualifier.Bytes(), c.qualifier.Bytes()),
               CompareUnsigned(a.qualifier.Bytes(), c.qualifier.Bytes()),
               TimestampStep(a, b), TimestampStep(b, c), TimestampStep(a, c));
  }

  lemma TimestampStepChains(a: Cell, b: Cell, c: Cell)
    ensures Chains(TimestampStep(a, b), TimestampStep(b, c), TimestampStep(a, c))
  {
    var x, y, z := a.typeByte as int, b.typeByte as int, c.typeByte as int;
    CompareTimestampsChains(a.timestamp, b.timestamp, c.timestamp);
    DifferenceChains(x, y, z);
    ThenChains(CompareTimestamps(a.timestamp, b.timestamp), CompareTimestamps(b.timestamp, c.timestamp),
               CompareTimestamps(a.timestamp, c.timestamp), y - x, z - y, z - x);
  }

  lemma CompareTimestampsChains(x: Long, y: Long, z: Long)
    ensures Chains(CompareTimestamps(x, y), CompareTimestamps(y, z), CompareTimestamps(x, z))
  {
  }

  /** A descending comparison by subtraction, as the type step is, chains. */
  lemma DifferenceChains(x: int, y: int, z: int)
    ensures Chains(y - x, z - y, z - x)
  {
  }

  /** The row step of either comparator is antisymmetric, ties exactly on equal row bytes, and chains. */
  lemma RowStepChains(cmp: Comparator, a: Cell, b: Cell, c: Cell)
    requires a.Valid() && b.Valid() && c.Valid()
    ensures RowStep(cmp, a, b) == -RowStep(cmp, b, a)
    ensures RowStep(cmp, a, b) == 0 <==> a.row.Bytes() == b.row.Bytes()
    ensures Chains(RowStep(cmp, a, b), RowStep(cmp, b, c), RowStep(cmp, a, c))
  {
    var x, y, z := a.row.Bytes(), b.row.Bytes(), c.row.Bytes();
    match cmp
    case Standard =>
      CompareUnsignedAntisymmetric(x, y);
      CompareUnsignedChains(x, y, z);
    case Meta =>
      var px, py, pz := SplitRow(x), SplitRow(y), SplitRow(z);
      CompareRowPartsAntisymmetric(px, py);
      CompareRowPartsAntisymmetric(py, pz);
      CompareRowPartsZeroIffSameRow(x, y);
      CompareRowPartsZeroIffSameRow(x, z);
      if CompareRowParts(px, py) <= 0 && CompareRowParts(py, pz) <= 0 {
        CompareRowPartsTransitive(px, py, pz);
      }
  }

  /**
   * `compare(a, b, ignoreSequenceid)` is the intended lexicographic order,
   * except for two sentinels on rows that tie, which compare as 1.
   */
  lemma CompareCellsIsCellOrder(cmp: Comparator, a: Cell, b: Cell, ignoreSequenceId: bool)
    requires a.Valid() && b.Valid()
    ensures RowStep(cmp, a, b) == 0 && a.IsLastOnRow() && b.IsLastOnRow() ==>
      CompareCells(cmp, a, b, ignoreSequenceId) == 1
    ensures !(RowStep(cmp, a, b) == 0 && a.IsLastOnRow() && b.IsLastOnRow()) ==>
      CompareCells(cmp, a, b, ignoreSequenceId) == CellOrderOf(cmp, a, b, ignoreSequenceId)
  {
    RowOrderIsRowStep(cmp, a, b);
    CompareWithoutRowSentinels(a, b);
  }

  /** Ignoring the sequence id only turns its final step into a tie. */
  lemma IgnoringSequenceId(cmp: Comparator, a: Cell, b: Cell)
    requires a.Valid() && b.Valid()
    ensures CompareCells(cmp, a, b, false) == Then(CompareCells(cmp, a, b, true), Longs.Compare(b.sequenceId, a.sequenceId))
    ensures CellComparatorImpl.Compare(cmp, a, b) == 0 ==> CompareCells(cmp, a, b, true) == 0
  {
  }

  /**
   * Swapping the cells negates the comparison, unless both are sentinels on
   * rows that tie: then both orders give 1.
   */
  lemma CompareAntisymmetric(cmp: Comparator, a: Cell, b: Cell, ignoreSequenceId: bool)
    requires a.Valid() && b.Valid()
    ensures !(a.IsLastOnRow() && b.IsLastOnRow() && a.row.Bytes() == b.row.Bytes()) ==>
      CompareCells(cmp, a, b, ignoreSequenceId) == -CompareCells(cmp, b, a, ignoreSequenceId)
    ensures a.IsLastOnRow() && b.IsLastOnRow() && a.row.Bytes() == b.row.Bytes() ==>
      CompareCells(cmp, a, b, ignoreSequenceId) == 1 == CompareCells(cmp, b, a, ignoreSequenceId)
  {
    RowStepChains(cmp, a, b, b);
    KeyStepAntisymmetric(a, b);
    CompareCellsIsCellOrder(cmp, a, b, ignoreSequenceId);
    CompareCellsIsCellOrder(cmp, b, a, ignoreSequenceId);
  }

  /** A cell compares equal to itself, except a sentinel, which sorts after itself. */
  lemma CompareReflexive(cmp: Comparator, a: Cell, ignoreSequenceId: bool)
    requires a.Valid()
    ensures !a.IsLastOnRow() ==> CompareCells(cmp, a, a, ignoreSequenceId) == 0
    ensures a.IsLastOnRow() ==> CompareCells(cmp, a, a, ignoreSequenceId) == 1
  {
    RowStepChains(cmp, a, a, a);
    KeyStepAntisymmetric(a, a);
    CompareCellsIsCellOrder(cmp, a, a, ignoreSequenceId);
  }

  /** The whole chain of steps behind `CellOrderOf` chains. */
  lemma CellOrderChains(cmp: Comparator, a: Cell, b: Cell, c: Cell, ignoreSequenceId: bool)
    requires a.Valid() && b.Valid() && c.Valid()
    ensures Chains(CellOrderOf(cmp, a, b, ignoreSequenceId), CellOrderOf(cmp, b, c, ignoreSequenceId),
                   CellOrderOf(cmp, a, c, ignoreSequenceId))
  {
    RowStepChains(cmp, a, b, c);
    AfterRowStepChains(a, b, c, ignoreSequenceId);
    ThenChains(RowStep(cmp, a, b), RowStep(cmp, b, c), RowStep(cmp, a, c),
               AfterRowStep(a, b, ignoreSequenceId), AfterRowStep(b, c, ignoreSequenceId),
               AfterRowStep(a, c, ignoreSequenceId));
  }

  lemma AfterRowStepChains(a: Cell, b: Cell, c: Cell, ignoreSequenceId: bool)
    requires a.Valid() && b.Valid() && c.Valid()
    ensures Chains(AfterRowStep(a, b, ignoreSequenceId), AfterRowStep(b, c, ignoreSequenceId),
                   AfterRowStep(a, c, ignoreSequenceId))
  {
    KeyStepChains(a, b, c);
    ThenChains(SentinelStep(a, b), SentinelStep(b, c), SentinelStep(a, c), KeyStep(a, b), KeyStep(b, c), KeyStep(a, c));
    ThenChains(Then(SentinelStep(a, b), KeyStep(a, b)), Then(SentinelStep(b, c), KeyStep(b, c)),
               Then(SentinelStep(a, c), KeyStep(a, c)),
               SequenceStep(a, b, ignoreSequenceId), SequenceStep(b, c, ignoreSequenceId),
               SequenceStep(a, c, ignoreSequenceId));
  }

  /** "Sorts no later than" is transitive, for both comparators, with or without the sequence id. */
  lemma CompareTransitive(cmp: Comparator, a: Cell, b: Cell, c: Cell, ignoreSequenceId: bool)
    requires a.Valid() && b.Valid() && c.Valid()
    requires CompareCells(cmp, a, b, ignoreSequenceId) <= 0 && CompareCells(cmp, b, c, ignoreSequenceId) <= 0
    ensures CompareCells(cmp, a, c, ignoreSequenceId) <= 0
  {
    CompareCellsIsCellOrder(cmp, a, b, ignoreSequenceId);
    CompareCellsIsCellOrder(cmp, b, c, ignoreSequenceId);
    CompareCellsIsCellOrder(cmp, a, c, ignoreSequenceId);
    CellOrderChains(cmp, a, b, c, ignoreSequenceId);
    if a.IsLastOnRow() && c.IsLastOnRow() {
      // a sentinel sorts no later than b only through a smaller row, so a's row sorts before c's
      RowStepDecides(cmp, a, b, ignoreSequenceId);
      RowStepDecides(cmp, b, c, ignoreSequenceId);
      RowStepChains(cmp, a, b, c);
    }
  }

  /** A cell sorts no later than another only if its row does; a sentinel only if its row sorts first. */
  lemma RowStepDecides(cmp: Comparator, a: Cell, b: Cell, ignoreSequenceId: bool)
    requires a.Valid() && b.Valid() && CompareCells(cmp, a, b, ignoreSequenceId) <= 0
    ensures RowStep(cmp, a, b) <= 0
    ensures a.IsLastOnRow() ==> RowStep(cmp, a, b) < 0
  {
    RowOrderIsRowStep(cmp, a, b);
  }

  /**
   * `compareRows(cell, byte[], off, len)` agrees with comparing against any
   * cell whose row is that range, for both comparators.
   */
  lemma RowToBytesAgrees(left: Cell, right: Segment, c: Cell)
    requires left.Valid() && right.Valid() && c.Valid() && c.row == right
    ensures CompareRowToBytes(left, right) == CompareRows(left, c)
    ensures MetaCellComparator.CompareRowToBytes(left, right) == MetaCellComparator.CompareRows(left, c)
  {
  }

  /**
   * In the catalog order a table part that is a proper prefix of the other
   * sorts first, even where the plain byte order puts the row after: "a,z"
   * before "a!,z", although ',' is above '!'.
   */
  lemma MetaTablePrefixSortsFirst()
    ensures var left, right := Segment([0x61, 0x2C, 0x7A], 0, 3), Segment([0x61, 0x21, 0x2C, 0x7A], 0, 4);
            && MetaCellComparator.CompareRowBytes(left, right) == -1
            && CompareTo(left, right) == 1
  {
    var left, right := Segment([0x61, 0x2C, 0x7A], 0, 3), Segment([0x61, 0x21, 0x2C, 0x7A], 0, 4);
    MetaCellComparator.SplitsAs(left, RowParts([0x61], Some([0x7A]), None));
    MetaCellComparator.SplitsAs(right, RowParts([0x61, 0x21], Some([0x7A]), None));
    MetaCellComparator.TableStage(left, right);
    assert CompareUnsigned([0x61], [0x61, 0x21]) == -1;
    assert CompareUnsigned(left.Bytes(), right.Bytes()) == 1;
  }
}
