/**
 * The structure of a catalog (`hbase:meta`) row key: a table part, then,
 * after the first delimiter, a middle part, then, after the last delimiter,
 * a row id.  `SplitRow` and `JoinRow` convert between a row's bytes and its
 * parts, and `CompareRowParts` is the order the catalog comparator is meant
 * to give: part by part, an absent part sorting before a present one.
 */
module CatalogRow {
  import opened Wrappers
  import opened Bytes
  import opened ThreeWay

  datatype RowParts = RowParts(table: seq<bv8>, middle: Option<seq<bv8>>, rowId: Option<seq<bv8>>)
  {
    /** The shapes `SplitRow` can produce. */
    ghost predicate WellFormed() {
      && DELIMITER !in table
      && (middle.None? ==> rowId.None?)
      && (middle.Some? && rowId.None? ==> DELIMITER !in middle.value)
      && (rowId.Some? ==> DELIMITER !in rowId.value)
    }

    /** A row with exactly one delimiter: a middle part but no row id. */
    predicate MiddleOnly() {
      middle.Some? && rowId.None?
    }
  }

  /** The row whose parts these are: the parts present, each after the first separated by a delimiter. */
  function JoinRow(p: RowParts): (r: seq<bv8>) {
    match p.middle
    case None => p.table
    case Some(m) =>
      match p.rowId
      case None => p.table + [DELIMITER] + m
      case Some(id) => p.table + [DELIMITER] + m + [DELIMITER] + id
  }

  /** Splits a row at its first delimiter and at the last delimiter after that. */
  function SplitRow(s: seq<bv8>): (r: RowParts) {
    var first := SearchDelimiterIndex(s, 0, |s|, DELIMITER);
    if first < 0 then RowParts(s, None, None)
    else
      var last := SearchDelimiterIndexInReverse(s, first + 1, |s| - (first + 1), DELIMITER);
      if last < 0 then RowParts(s[..first], Some(s[first + 1..]), None)
      else RowParts(s[..first], Some(s[first + 1..last]), Some(s[last + 1..]))
  }

  /** Every split has one of the shapes `WellFormed` allows: no part holds a delimiter it should have been cut at. */
  lemma SplitRowWellFormed(s: seq<bv8>)
    ensures SplitRow(s).WellFormed()
  {
    var first := SearchDelimiterIndex(s, 0, |s|, DELIMITER);
    SearchDelimiterIndexFirst(s, 0, |s|, DELIMITER);
    if first < 0 {
      NoDelimiterIn(s, 0, |s|);
      assert s[0..|s|] == s;
      SplitRowNone(s);
    } else {
      NoDelimiterIn(s, 0, first);
      assert s[0..first] == s[..first];
      var last := SearchDelimiterIndexInReverse(s, first + 1, |s| - (first + 1), DELIMITER);
      TailWellFormed(s, first);
      if last < 0 {
        SplitRowMiddle(s, first);
      } else {
        SplitRowBoth(s, first, last);
      }
    }
  }

  /** Past the first delimiter, the middle part of a row without a row id, and any row id, hold no delimiter. */
  lemma TailWellFormed(s: seq<bv8>, first: int)
    requires 0 <= first < |s|
    ensures var last := SearchDelimiterIndexInReverse(s, first + 1, |s| - (first + 1), DELIMITER);
            && (last < 0 ==> DELIMITER !in s[first + 1..])
            && (last >= 0 ==> DELIMITER !in s[last + 1..])
  {
    var last := SearchDelimiterIndexInReverse(s, first + 1, |s| - (first + 1), DELIMITER);
    SearchDelimiterIndexInReverseLast(s, first + 1, |s| - (first + 1), DELIMITER);
    var from := if last < 0 then first + 1 else last + 1;
    NoDelimiterIn(s, from, |s|);
    assert s[from..|s|] == s[from..];
  }

  /** A row without a delimiter is all table part. */
  lemma SplitRowNone(s: seq<bv8>)
    requires SearchDelimiterIndex(s, 0, |s|, DELIMITER) < 0
    ensures SplitRow(s) == RowParts(s, None, None)
  {
  }

  /** A row with one delimiter, at `first`, is a table part and a middle part. */
  lemma SplitRowMiddle(s: seq<bv8>, first: int)
    requires first == SearchDelimiterIndex(s, 0, |s|, DELIMITER) && first >= 0
    requires SearchDelimiterIndexInReverse(s, first + 1, |s| - (first + 1), DELIMITER) < 0
    ensures SplitRow(s) == RowParts(s[..first], Some(s[first + 1..]), None)
  {
  }

  /** A row with a first delimiter at `first` and a last one at `last` has all three parts. */
  lemma SplitRowBoth(s: seq<bv8>, first: int, last: int)
    requires first == SearchDelimiterIndex(s, 0, |s|, DELIMITER) && first >= 0
    requires last == SearchDelimiterIndexInReverse(s, first + 1, |s| - (first + 1), DELIMITER) && last >= 0
    ensures SplitRow(s) == RowParts(s[..first], Some(s[first + 1..last]), Some(s[last + 1..]))
  {
  }

  /** Joining the parts gives back the row: splitting loses nothing. */
  lemma JoinSplit(s: seq<bv8>)
    ensures JoinRow(SplitRow(s)) == s
  {
    var first := SearchDelimiterIndex(s, 0, |s|, DELIMITER);
    if first < 0 {
      SplitRowNone(s);
    } else {
      var last := SearchDelimiterIndexInReverse(s, first + 1, |s| - (first + 1), DELIMITER);
      JoinAt(s, first, last);
      if last < 0 {
        SplitRowMiddle(s, first);
      } else {
        SplitRowBoth(s, first, last);
      }
    }
  }

  /** Cutting out the delimiters at `first` and at `last` and joining again gives `s`. */
  lemma JoinAt(s: seq<bv8>, first: int, last: int)
    requires 0 <= first < |s| && s[first] == DELIMITER
    requires last < 0 || (first < last < |s| && s[last] == DELIMITER)
    ensures JoinRow(if last < 0 then RowParts(s[..first], Some(s[first + 1..]), None)
                    else RowParts(s[..first], Some(s[first + 1..last]), Some(s[last + 1..]))) == s
  {
    if last < 0 {
      assert s[..first] + [DELIMITER] + s[first + 1..] == s;
    } else {
      assert s[..first] + [DELIMITER] + s[first + 1..last] == s[..last];
      assert s[..last] + [DELIMITER] + s[last + 1..] == s;
    }
  }

  /** No byte of `s[lo..hi]` is the delimiter, said of the slice itself. */
  lemma NoDelimiterIn(s: seq<bv8>, lo: int, hi: int)
    requires 0 <= lo <= hi <= |s|
    requires forall i :: lo <= i < hi ==> s[i] != DELIMITER
    ensures DELIMITER !in s[lo..hi]
  {
    forall j | 0 <= j < hi - lo
      ensures s[lo..hi][j] != DELIMITER
    {
      assert s[lo..hi][j] == s[lo + j];
    }
  }

  /** The forward search stops at the first delimiter `k` when nothing before it is one. */
  lemma FirstDelimiterAt(s: seq<bv8>, k: int)
    requires 0 <= k < |s| && s[k] == DELIMITER && DELIMITER !in s[..k]
    ensures SearchDelimiterIndex(s, 0, |s|, DELIMITER) == k
  {
    SearchDelimiterIndexFirst(s, 0, |s|, DELIMITER);
    assert forall i :: 0 <= i < k ==> s[i] == s[..k][i];
  }

  /** The forward search finds nothing in a row without a delimiter. */
  lemma FirstDelimiterNone(s: seq<bv8>)
    requires DELIMITER !in s
    ensures SearchDelimiterIndex(s, 0, |s|, DELIMITER) < 0
  {
  }

  /** The reverse search from `lo` stops at `k` when nothing after it is a delimiter. */
  lemma LastDelimiterAt(s: seq<bv8>, lo: int, k: int)
    requires 0 <= lo <= k < |s| && s[k] == DELIMITER && DELIMITER !in s[k + 1..]
    ensures SearchDelimiterIndexInReverse(s, lo, |s| - lo, DELIMITER) == k
  {
    SearchDelimiterIndexInReverseLast(s, lo, |s| - lo, DELIMITER);
    assert forall i :: k < i < |s| ==> s[i] == s[k + 1..][i - k - 1];
  }

  /** The reverse search from `lo` finds nothing when no byte from `lo` on is a delimiter. */
  lemma LastDelimiterNone(s: seq<bv8>, lo: int)
    requires 0 <= lo <= |s| && DELIMITER !in s[lo..]
    ensures SearchDelimiterIndexInReverse(s, lo, |s| - lo, DELIMITER) < 0
  {
    assert forall i :: lo <= i < |s| ==> s[i] == s[lo..][i - lo];
  }

  /** Splitting undoes joining, so every well-formed decomposition is the row's only one. */
  lemma SplitJoin(p: RowParts)
    requires p.WellFormed()
    ensures SplitRow(JoinRow(p)) == p
  {
    if p.middle.None? {
      FirstDelimiterNone(p.table);
      SplitRowNone(p.table);
    } else if p.rowId.None? {
      SplitJoinMiddle(p.table, p.middle.value);
    } else {
      SplitJoinRowId(p.table, p.middle.value, p.rowId.value);
    }
  }

  lemma SplitJoinMiddle(table: seq<bv8>, middle: seq<bv8>)
    requires DELIMITER !in table && DELIMITER !in middle
    ensures SplitRow(table + [DELIMITER] + middle) == RowParts(table, Some(middle), None)
  {
    var s := table + [DELIMITER] + middle;
    var n := |table|;
    assert s[n] == DELIMITER && s[..n] == table && s[n + 1..] == middle;
    FirstDelimiterAt(s, n);
    LastDelimiterNone(s, n + 1);
    SplitRowMiddle(s, n);
  }

  lemma SplitJoinRowId(table: seq<bv8>, middle: seq<bv8>, id: seq<bv8>)
    requires DELIMITER !in table && DELIMITER !in id
    ensures SplitRow(table + [DELIMITER] + middle + [DELIMITER] + id) == RowParts(table, Some(middle), Some(id))
  {
    var s := table + [DELIMITER] + middle + [DELIMITER] + id;
    var n := |table|;
    var k := n + 1 + |middle|;
    JoinedSlices(table, middle, id);
    FirstDelimiterAt(s, n);
    LastDelimiterAt(s, n + 1, k);
    SplitRowBoth(s, n, k);
  }

  /** Where the parts sit in a joined row that has a row id. */
  lemma JoinedSlices(table: seq<bv8>, middle: seq<bv8>, id: seq<bv8>)
    ensures var s, n, k := table + [DELIMITER] + middle + [DELIMITER] + id, |table|, |table| + 1 + |middle|;
            && s[n] == DELIMITER && s[..n] == table
            && s[k] == DELIMITER && s[k + 1..] == id && s[n + 1..k] == middle
  {
    var s, n, k := table + [DELIMITER] + middle + [DELIMITER] + id, |table|, |table| + 1 + |middle|;
    assert s[..k] == table + [DELIMITER] + middle;
    assert s[..n] == s[..k][..n];
    assert s[n + 1..k] == s[..k][n + 1..];
  }

  /** One optional part against another: absent before present, two absent parts tie. */
  function ComparePart(a: Option<seq<bv8>>, b: Option<seq<bv8>>): (r: int)
    ensures -1 <= r <= 1
    ensures r == 0 <==> a == b
    ensures a.None? && b.Some? ==> r == -1
    ensures a.Some? && b.None? ==> r == 1
  {
    match (a, b)
    case (None, None) => 0
    case (None, Some(_)) => -1
    case (Some(_), None) => 1
    case (Some(x), Some(y)) => CompareUnsigned(x, y)
  }

  /** The intended catalog row order: table, then middle, then row id. */
  function CompareRowParts(a: RowParts, b: RowParts): (r: int)
    ensures -1 <= r <= 1
    ensures r == 0 <==> a == b
  {
    Then(CompareUnsigned(a.table, b.table), Then(ComparePart(a.middle, b.middle), ComparePart(a.rowId, b.rowId)))
  }

  lemma ComparePartAntisymmetric(a: Option<seq<bv8>>, b: Option<seq<bv8>>)
    ensures ComparePart(a, b) == -ComparePart(b, a)
  {
    if a.Some? && b.Some? {
      CompareUnsignedAntisymmetric(a.value, b.value);
    }
  }

  /** Swapping the rows negates the intended order. */
  lemma CompareRowPartsAntisymmetric(a: RowParts, b: RowParts)
    ensures CompareRowParts(a, b) == -CompareRowParts(b, a)
  {
    CompareUnsignedAntisymmetric(a.table, b.table);
    ComparePartAntisymmetric(a.middle, b.middle);
    ComparePartAntisymmetric(a.rowId, b.rowId);
  }

  /** Unsigned byte comparison is a well-behaved step of a lexicographic chain. */
  lemma CompareUnsignedChains(x: seq<bv8>, y: seq<bv8>, z: seq<bv8>)
    ensures Chains(CompareUnsigned(x, y), CompareUnsigned(y, z), CompareUnsigned(x, z))
  {
    if CompareUnsigned(x, y) <= 0 && CompareUnsigned(y, z) <= 0 {
      CompareUnsignedTransitive(x, y, z);
      if CompareUnsigned(x, y) < 0 || CompareUnsigned(y, z) < 0 {
        CompareUnsignedStrict(x, y, z);
      }
    }
  }

  lemma ComparePartChains(x: Option<seq<bv8>>, y: Option<seq<bv8>>, z: Option<seq<bv8>>)
    ensures Chains(ComparePart(x, y), ComparePart(y, z), ComparePart(x, z))
  {
    if x.Some? && y.Some? && z.Some? {
      CompareUnsignedChains(x.value, y.value, z.value);
    }
  }

  /** "Sorts no later than" under the intended order is transitive. */
  lemma CompareRowPartsTransitive(a: RowParts, b: RowParts, c: RowParts)
    requires CompareRowParts(a, b) <= 0 && CompareRowParts(b, c) <= 0
    ensures CompareRowParts(a, c) <= 0
  {
    CompareUnsignedChains(a.table, b.table, c.table);
    ComparePartChains(a.middle, b.middle, c.middle);
    ComparePartChains(a.rowId, b.rowId, c.rowId);
    ThenChains(ComparePart(a.middle, b.middle), ComparePart(b.middle, c.middle), ComparePart(a.middle, c.middle),
               ComparePart(a.rowId, b.rowId), ComparePart(b.rowId, c.rowId), ComparePart(a.rowId, c.rowId));
    ThenChains(CompareUnsigned(a.table, b.table), CompareUnsigned(b.table, c.table), CompareUnsigned(a.table, c.table),
               Then(ComparePart(a.middle, b.middle), ComparePart(a.rowId, b.rowId)),
               Then(ComparePart(b.middle, c.middle), ComparePart(b.rowId, c.rowId)),
               Then(ComparePart(a.middle, c.middle), ComparePart(a.rowId, c.rowId)));
  }

  /** Under the intended order two rows tie exactly when they are the same bytes. */
  lemma CompareRowPartsZeroIffSameRow(s: seq<bv8>, t: seq<bv8>)
    ensures CompareRowParts(SplitRow(s), SplitRow(t)) == 0 <==> s == t
  {
    JoinSplit(s);
    JoinSplit(t);
  }
}
