/**
 * `CellComparatorImpl.MetaCellComparator`: the catalog comparator's row
 * step.  A catalog row is compared part by part: the table part before the
 * first delimiter, then the middle part up to the last delimiter, then the
 * row id after it.  `CompareRowBytes` follows the source's index arithmetic
 * exactly; the lemmas below say what each stage compares in terms of the
 * row's parts (`CatalogRow.SplitRow`).
 */
module MetaCellComparator {
  import opened Wrappers
  import opened Bytes
  import opened Cells
  import opened CatalogRow

  /**
   * `compareRows(Cell, Cell)`: compares the two rows as catalog rows, part
   * by part.  There is no same-instance shortcut.  This uses the corrected
   * row comparison; it agrees with the source's whenever neither row has
   * exactly one delimiter.
   */
  function CompareRows(left: Cell, right: Cell): (r: int)
    requires left.Valid() && right.Valid()
    ensures -1 <= r <= 1
    ensures r == CompareRowParts(SplitRow(left.row.Bytes()), SplitRow(right.row.Bytes()))
    ensures !SplitRow(left.row.Bytes()).MiddleOnly() && !SplitRow(right.row.Bytes()).MiddleOnly() ==>
      r == CompareRowBytes(left.row, right.row)
  {
    CorrectedIsIntendedOrder(left.row, right.row);
    AgreesWithIntendedOrder(left.row, right.row);
    CompareRowBytesCorrected(left.row, right.row)
  }

  /** `compareRows(Cell, byte[], int, int)`: a cell's row against a plain byte range, as catalog rows. */
  function CompareRowToBytes(left: Cell, right: Segment): (r: int)
    requires left.Valid() && right.Valid()
    ensures -1 <= r <= 1
    ensures r == CompareRowParts(SplitRow(left.row.Bytes()), SplitRow(right.Bytes()))
    ensures !SplitRow(left.row.Bytes()).MiddleOnly() && !SplitRow(right.Bytes()).MiddleOnly() ==>
      r == CompareRowBytes(left.row, right)
  {
    CorrectedIsIntendedOrder(left.row, right);
    AgreesWithIntendedOrder(left.row, right);
    CompareRowBytesCorrected(left.row, right)
  }

  /**
   * The tie-break after a stage whose bytes compared equal: a side whose
   * delimiter index is negative (no delimiter) sorts first, two such sides
   * tie, and when both sides have one the comparison goes on (`None`).
   */
  function DelimiterTieBreak(leftDelimiter: int, rightDelimiter: int): (r: Option<int>)
    ensures r.None? <==> leftDelimiter >= 0 && rightDelimiter >= 0
    ensures leftDelimiter < 0 && rightDelimiter >= 0 ==> r == Some(-1)
    ensures leftDelimiter >= 0 && rightDelimiter < 0 ==> r == Some(1)
    ensures leftDelimiter < 0 && rightDelimiter < 0 ==> r == Some(0)
  {
    if leftDelimiter < 0 && rightDelimiter >= 0 then Some(-1)
    else if rightDelimiter < 0 && leftDelimiter >= 0 then Some(1)
    else if leftDelimiter < 0 && rightDelimiter < 0 then Some(0)
    else None
  }

  /**
   * The private `compareRows(byte[], int, int, byte[], int, int)`, with the
   * source's index arithmetic (the per-side indices and ranges are the
   * functions below).  The tie-break after the middle part tests the
   * first-delimiter indices moved past the delimiter, which are at least 1,
   * so it never decides; and a side without a second delimiter has its far
   * index bumped from -1 to 0, so its "row id" is the backing bytes from 0
   * to the end of the row.
   */
  function CompareRowBytes(left: Segment, right: Segment): (r: int)
    requires left.Valid() && right.Valid()
    ensures -1 <= r <= 1
  {
    var leftDelimiter := FirstDelimiter(left);
    var rightDelimiter := FirstDelimiter(right);
    // stage one: the bytes before the first delimiter
    var result := CompareTo(TableRange(left), TableRange(right));
    if result != 0 then result
    else
      match DelimiterTieBreak(leftDelimiter, rightDelimiter)
      case Some(c) => c
      case None =>
        // stage two: from past the first delimiter to the far one
        var result' := CompareTo(MiddleRange(left), MiddleRange(right));
        if result' != 0 then result'
        else
          match DelimiterTieBreak(leftDelimiter + 1, rightDelimiter + 1)
          case Some(c) => c
          case None =>
            // stage three: from past the far delimiter to the end of the row
            CompareTo(RowIdRange(left), RowIdRange(right))
  }

  /**
   * `CompareRowBytes` with the tie-break after the middle part testing the
   * far delimiters, as the tie-break after the table part tests the first
   * ones: a row without a row id sorts before one with a row id, two rows
   * without one tie, and only rows that both have a row id compare them.
   */
  function CompareRowBytesCorrected(left: Segment, right: Segment): (r: int)
    requires left.Valid() && right.Valid()
    ensures -1 <= r <= 1
  {
    var result := CompareTo(TableRange(left), TableRange(right));
    if result != 0 then result
    else
      match DelimiterTieBreak(FirstDelimiter(left), FirstDelimiter(right))
      case Some(c) => c
      case None =>
        var result' := CompareTo(MiddleRange(left), MiddleRange(right));
        if result' != 0 then result'
        else
          match DelimiterTieBreak(FarDelimiter(left), FarDelimiter(right))
          case Some(c) => c
          case None => CompareTo(RowIdRange(left), RowIdRange(right))
  }

  /** The absolute index of the row's first delimiter, or -1. */
  function FirstDelimiter(s: Segment): (r: int)
    requires s.Valid()
    ensures r == -1 || s.offset <= r < s.offset + s.length
  {
    SearchDelimiterIndex(s.src, s.offset, s.length, DELIMITER)
  }

  /** The absolute index of the last delimiter after the first one, or -1. */
  function FarDelimiter(s: Segment): (r: int)
    requires s.Valid() && FirstDelimiter(s) >= 0
    ensures r == -1 || FirstDelimiter(s) < r < s.offset + s.length
  {
    var d := FirstDelimiter(s) + 1;
    SearchDelimiterIndexInReverse(s.src, d, s.length - (d - s.offset), DELIMITER)
  }

  /** The range the first stage reads: up to the first delimiter, or the whole row. */
  function TableRange(s: Segment): (r: Segment)
    requires s.Valid()
    ensures r.Valid() && r.src == s.src && r.offset == s.offset
  {
    var d := FirstDelimiter(s);
    Segment(s.src, s.offset, if d < 0 then s.length else d - s.offset)
  }

  /** The range the second stage reads: past the first delimiter up to the far one, or to the row's end. */
  function MiddleRange(s: Segment): (r: Segment)
    requires s.Valid() && FirstDelimiter(s) >= 0
    ensures r.Valid() && r.src == s.src && r.offset == FirstDelimiter(s) + 1
  {
    var d := FirstDelimiter(s) + 1;
    var far := FarDelimiter(s);
    Segment(s.src, d, (if far < 0 then s.length + s.offset else far) - d)
  }

  /** The range the third stage reads: past the far delimiter (bumped from -1 to 0 when absent) to the row's end. */
  function RowIdRange(s: Segment): (r: Segment)
    requires s.Valid() && FirstDelimiter(s) >= 0
    ensures r.Valid() && r.src == s.src
  {
    var far := FarDelimiter(s) + 1;
    Segment(s.src, far, s.length - (far - s.offset))
  }

  /**
   * The bytes the row-id stage of `CompareRowBytes` reads: the row id when
   * the row has a second delimiter, otherwise everything in the backing
   * bytes from index 0 to the end of the row.
   */
  ghost function RowIdAsRead(s: Segment): (r: seq<bv8>)
    requires s.Valid()
  {
    match SplitRow(s.Bytes()).rowId
    case Some(id) => id
    case None => s.src[..s.offset + s.length]
  }

  /** The first stage reads the row's table part; the row has a middle part exactly when there is a delimiter. */
  lemma LocateTable(s: Segment)
    requires s.Valid()
    ensures var p := SplitRow(s.Bytes());
            && (FirstDelimiter(s) < 0 <==> p.middle.None?)
            && TableRange(s).Bytes() == p.table
  {
    var d := FirstDelimiter(s);
    if d < 0 {
      LocateNoDelimiter(s);
      RangesWithoutDelimiter(s);
    } else {
      var far := FarDelimiter(s);
      RangesAtDelimiters(s, d, far);
      if far < 0 {
        LocateOneDelimiter(s, d);
      } else {
        LocateTwoDelimiters(s, d, far);
      }
    }
  }

  /** The second stage reads the row's middle part. */
  lemma LocateMiddle(s: Segment)
    requires s.Valid() && FirstDelimiter(s) >= 0
    ensures var p := SplitRow(s.Bytes());
            && p.middle.Some? && MiddleRange(s).Bytes() == p.middle.value
            && (FarDelimiter(s) < 0 <==> p.rowId.None?)
  {
    var d, far := FirstDelimiter(s), FarDelimiter(s);
    RangesAtDelimiters(s, d, far);
    if far < 0 {
      LocateOneDelimiter(s, d);
    } else {
      LocateTwoDelimiters(s, d, far);
    }
  }

  /** The third stage reads `RowIdAsRead`. */
  lemma LocateRowId(s: Segment)
    requires s.Valid() && FirstDelimiter(s) >= 0
    ensures RowIdRange(s).Bytes() == RowIdAsRead(s)
  {
    var d, far := FirstDelimiter(s), FarDelimiter(s);
    RangesAtDelimiters(s, d, far);
    if far < 0 {
      LocateOneDelimiter(s, d);
    } else {
      LocateTwoDelimiters(s, d, far);
    }
  }

  /** Without a delimiter the first stage reads the whole row. */
  lemma RangesWithoutDelimiter(s: Segment)
    requires s.Valid() && FirstDelimiter(s) < 0
    ensures TableRange(s).Bytes() == s.Bytes()
  {
    assert TableRange(s) == s;
  }

  /** The bytes each stage reads, written as slices of the backing bytes at the delimiters `d` and `far`. */
  lemma RangesAtDelimiters(s: Segment, d: int, far: int)
    requires s.Valid() && d == FirstDelimiter(s) && d >= 0 && far == FarDelimiter(s)
    ensures TableRange(s).Bytes() == s.src[s.offset..d]
    ensures far < 0 ==> MiddleRange(s).Bytes() == s.src[d + 1..s.offset + s.length]
    ensures far < 0 ==> RowIdRange(s).Bytes() == s.src[..s.offset + s.length]
    ensures far >= 0 ==> MiddleRange(s).Bytes() == s.src[d + 1..far]
    ensures far >= 0 ==> RowIdRange(s).Bytes() == s.src[far + 1..s.offset + s.length]
  {
    assert TableRange(s) == Segment(s.src, s.offset, d - s.offset);
    if far < 0 {
      assert MiddleRange(s) == Segment(s.src, d + 1, s.offset + s.length - (d + 1));
      assert RowIdRange(s) == Segment(s.src, 0, s.offset + s.length);
    } else {
      assert MiddleRange(s) == Segment(s.src, d + 1, far - (d + 1));
      assert RowIdRange(s) == Segment(s.src, far + 1, s.offset + s.length - (far + 1));
    }
  }

  /** The forward search over the segment finds, relative to the offset, what it finds over the row's bytes. */
  lemma FirstAgrees(s: Segment) returns (first: int)
    requires s.Valid()
    ensures first == SearchDelimiterIndex(s.Bytes(), 0, |s.Bytes()|, DELIMITER)
    ensures var d := SearchDelimiterIndex(s.src, s.offset, s.length, DELIMITER);
            (d < 0 && first < 0) || (0 <= d && 0 <= first && d == s.offset + first)
  {
    first := SearchDelimiterIndex(s.Bytes(), 0, |s.Bytes()|, DELIMITER);
    assert s.Bytes()[0..s.length] == s.Bytes();
    SearchDelimiterIndexAgree(s.src, s.offset, s.Bytes(), 0, s.length, DELIMITER);
  }

  /** Past the first delimiter `d`, the reverse search over the segment agrees with the one over the row's bytes. */
  lemma FarAgrees(s: Segment, d: int, first: int) returns (last: int)
    requires s.Valid() && s.offset <= d < s.offset + s.length && first == d - s.offset
    ensures last == SearchDelimiterIndexInReverse(s.Bytes(), first + 1, |s.Bytes()| - (first + 1), DELIMITER)
    ensures var far := SearchDelimiterIndexInReverse(s.src, d + 1, s.length - (d + 1 - s.offset), DELIMITER);
            (far < 0 && last < 0) || (0 <= far && 0 <= last && far == s.offset + last)
  {
    var b := s.Bytes();
    last := SearchDelimiterIndexInReverse(b, first + 1, |b| - (first + 1), DELIMITER);
    var n := s.length - (d + 1 - s.offset);
    assert |b| == s.length && n == |b| - (first + 1);
    assert s.src[d + 1..d + 1 + n] == b[first + 1..first + 1 + n];
    SearchDelimiterIndexInReverseAgree(s.src, d + 1, b, first + 1, n, DELIMITER);
  }

  lemma LocateNoDelimiter(s: Segment)
    requires s.Valid() && SearchDelimiterIndex(s.src, s.offset, s.length, DELIMITER) < 0
    ensures SplitRow(s.Bytes()) == RowParts(s.Bytes(), None, None)
  {
    var first := FirstAgrees(s);
    SplitRowNone(s.Bytes());
  }

  lemma LocateOneDelimiter(s: Segment, d: int)
    requires s.Valid() && d == SearchDelimiterIndex(s.src, s.offset, s.length, DELIMITER) && d >= 0
    requires SearchDelimiterIndexInReverse(s.src, d + 1, s.length - (d + 1 - s.offset), DELIMITER) < 0
    ensures SplitRow(s.Bytes()) == RowParts(s.src[s.offset..d], Some(s.src[d + 1..s.offset + s.length]), None)
  {
    var first := FirstAgrees(s);
    var last := FarAgrees(s, d, first);
    SplitRowMiddle(s.Bytes(), first);
    SegmentHalves(s, first, d);
  }

  /** The two parts cut out of the row's bytes at one delimiter, as slices of the backing bytes. */
  lemma SegmentHalves(s: Segment, first: int, d: int)
    requires s.Valid() && 0 <= first < s.length && d == s.offset + first
    ensures s.Bytes()[..first] == s.src[s.offset..d]
    ensures s.Bytes()[first + 1..] == s.src[d + 1..s.offset + s.length]
  {
    var hi := s.offset + s.length;
    SubSlice(s.src, s.offset, hi, 0, first, s.offset, d);
    assert s.Bytes()[..first] == s.Bytes()[0..first];
    SubSlice(s.src, s.offset, hi, first + 1, s.length, d + 1, hi);
    assert s.Bytes()[first + 1..] == s.Bytes()[first + 1..s.length];
  }

  lemma LocateTwoDelimiters(s: Segment, d: int, far: int)
    requires s.Valid() && d == SearchDelimiterIndex(s.src, s.offset, s.length, DELIMITER) && d >= 0
    requires far == SearchDelimiterIndexInReverse(s.src, d + 1, s.length - (d + 1 - s.offset), DELIMITER) && far >= 0
    ensures SplitRow(s.Bytes())
            == RowParts(s.src[s.offset..d], Some(s.src[d + 1..far]), Some(s.src[far + 1..s.offset + s.length]))
  {
    var first, last := TwoDelimitersInBytes(s, d, far);
    SplitRowBoth(s.Bytes(), first, last);
    SegmentParts(s, first, last, d, far);
  }

  /** The three parts cut out of the row's bytes, as slices of the backing bytes. */
  lemma SegmentParts(s: Segment, first: int, last: int, d: int, far: int)
    requires s.Valid() && 0 <= first < last < s.length && d == s.offset + first && far == s.offset + last
    ensures s.Bytes()[..first] == s.src[s.offset..d]
    ensures s.Bytes()[first + 1..last] == s.src[d + 1..far]
    ensures s.Bytes()[last + 1..] == s.src[far + 1..s.offset + s.length]
  {
    PartsOfSegment(s.src, s.offset, s.offset + s.length, first, last, d, far);
  }

  /** Both delimiters found in the backing bytes are found in the row's bytes, moved by the offset. */
  lemma TwoDelimitersInBytes(s: Segment, d: int, far: int) returns (first: int, last: int)
    requires s.Valid() && d == SearchDelimiterIndex(s.src, s.offset, s.length, DELIMITER) && d >= 0
    requires far == SearchDelimiterIndexInReverse(s.src, d + 1, s.length - (d + 1 - s.offset), DELIMITER) && far >= 0
    ensures first == SearchDelimiterIndex(s.Bytes(), 0, |s.Bytes()|, DELIMITER) && first >= 0
    ensures last == SearchDelimiterIndexInReverse(s.Bytes(), first + 1, |s.Bytes()| - (first + 1), DELIMITER)
    ensures d == s.offset + first && far == s.offset + last && 0 <= first < last < s.length
  {
    first := FirstAgrees(s);
    last := FarAgrees(s, d, first);
  }

  /** The row's parts cut out of the segment's bytes are the same slices of `src`, moved by the offset. */
  lemma PartsOfSegment(src: seq<bv8>, lo: int, hi: int, first: int, last: int, d: int, far: int)
    requires 0 <= lo <= hi <= |src| && 0 <= first < last < hi - lo && d == lo + first && far == lo + last
    ensures var b := src[lo..hi];
            b[..first] == src[lo..d] && b[first + 1..last] == src[d + 1..far] && b[last + 1..] == src[far + 1..hi]
  {
    var b := src[lo..hi];
    SubSlice(src, lo, hi, 0, first, lo, d);
    assert b[..first] == b[0..first];
    SubSlice(src, lo, hi, first + 1, last, d + 1, far);
    SubSlice(src, lo, hi, last + 1, hi - lo, far + 1, hi);
    assert b[last + 1..] == b[last + 1..hi - lo];
  }

  /** A slice of a slice is a slice: `src[lo..hi][i..j]` is `src[from..to]`. */
  lemma SubSlice(src: seq<bv8>, lo: int, hi: int, i: int, j: int, from: int, to: int)
    requires 0 <= lo <= hi <= |src| && 0 <= i <= j <= hi - lo && from == lo + i && to == lo + j
    ensures src[lo..hi][i..j] == src[from..to]
  {
    var x, y := src[lo..hi][i..j], src[from..to];
    forall k | 0 <= k < |x|
      ensures x[k] == y[k]
    {
      assert x[k] == src[lo..hi][i + k];
    }
  }

  /** Stage one: the table parts decide unless equal; then a row without a delimiter sorts first. */
  lemma TableStage(left: Segment, right: Segment)
    requires left.Valid() && right.Valid()
    ensures var pl, pr := SplitRow(left.Bytes()), SplitRow(right.Bytes());
            var t := CompareUnsigned(pl.table, pr.table);
            && (t != 0 ==> CompareRowBytes(left, right) == t)
            && (t == 0 && pl.middle.None? && pr.middle.Some? ==> CompareRowBytes(left, right) == -1)
            && (t == 0 && pl.middle.Some? && pr.middle.None? ==> CompareRowBytes(left, right) == 1)
            && (t == 0 && pl.middle.None? && pr.middle.None? ==> CompareRowBytes(left, right) == 0)
  {
    LocateTable(left);
    LocateTable(right);
  }

  /** Stage two: with equal table parts and a delimiter on both sides, the middle parts decide unless equal. */
  lemma MiddleStage(left: Segment, right: Segment)
    requires left.Valid() && right.Valid()
    ensures var pl, pr := SplitRow(left.Bytes()), SplitRow(right.Bytes());
            pl.table == pr.table && pl.middle.Some? && pr.middle.Some? &&
            CompareUnsigned(pl.middle.value, pr.middle.value) != 0 ==>
              CompareRowBytes(left, right) == CompareUnsigned(pl.middle.value, pr.middle.value)
  {
    LocateTable(left);
    LocateTable(right);
    if FirstDelimiter(left) >= 0 && FirstDelimiter(right) >= 0 {
      LocateMiddle(left);
      LocateMiddle(right);
    }
  }

  /**
   * Stage three: with equal table and middle parts, the row-id bytes as the
   * source reads them decide, and that is the final answer.
   */
  lemma RowIdStage(left: Segment, right: Segment)
    requires left.Valid() && right.Valid()
    ensures var pl, pr := SplitRow(left.Bytes()), SplitRow(right.Bytes());
            pl.table == pr.table && pl.middle.Some? && pl.middle == pr.middle ==>
              CompareRowBytes(left, right) == CompareUnsigned(RowIdAsRead(left), RowIdAsRead(right))
  {
    LocateTable(left);
    LocateTable(right);
    if FirstDelimiter(left) >= 0 && FirstDelimiter(right) >= 0 {
      LocateMiddle(left);
      LocateMiddle(right);
      LocateRowId(left);
      LocateRowId(right);
    }
  }

  /**
   * When neither row has exactly one delimiter, the source's row order is
   * the intended part-by-part order.
   */
  lemma AgreesWithIntendedOrder(left: Segment, right: Segment)
    requires left.Valid() && right.Valid()
    ensures var pl, pr := SplitRow(left.Bytes()), SplitRow(right.Bytes());
            !pl.MiddleOnly() && !pr.MiddleOnly() ==> CompareRowBytes(left, right) == CompareRowParts(pl, pr)
  {
    TableStage(left, right);
    MiddleStage(left, right);
    RowIdStage(left, right);
  }

  /** Swapping the rows negates the catalog row order. */
  lemma CompareRowBytesAntisymmetric(left: Segment, right: Segment)
    requires left.Valid() && right.Valid()
    ensures CompareRowBytes(left, right) == -CompareRowBytes(right, left)
  {
    var pl, pr := SplitRow(left.Bytes()), SplitRow(right.Bytes());
    TableStage(left, right);
    TableStage(right, left);
    MiddleStage(left, right);
    MiddleStage(right, left);
    RowIdStage(left, right);
    RowIdStage(right, left);
    CompareUnsignedAntisymmetric(pl.table, pr.table);
    if pl.middle.Some? && pr.middle.Some? {
      CompareUnsignedAntisymmetric(pl.middle.value, pr.middle.value);
    }
    CompareUnsignedAntisymmetric(RowIdAsRead(left), RowIdAsRead(right));
  }

  /** The same row segment against itself compares equal. */
  lemma CompareRowBytesReflexive(s: Segment)
    requires s.Valid()
    ensures CompareRowBytes(s, s) == 0
  {
    TableStage(s, s);
    RowIdStage(s, s);
  }

  /** The corrected comparison is the intended part-by-part order, for every pair of rows. */
  lemma CorrectedIsIntendedOrder(left: Segment, right: Segment)
    requires left.Valid() && right.Valid()
    ensures CompareRowBytesCorrected(left, right) == CompareRowParts(SplitRow(left.Bytes()), SplitRow(right.Bytes()))
  {
    var pl, pr := SplitRow(left.Bytes()), SplitRow(right.Bytes());
    if pl.table == pr.table && pl.middle.Some? && pl.middle == pr.middle {
      CorrectedRowIdStage(left, right);
    } else {
      CorrectedAgreesBeforeRowId(left, right);
      TableStage(left, right);
      MiddleStage(left, right);
      CompareUnsignedAntisymmetric(pl.table, pr.table);
    }
  }

  /** Until both table and middle parts tie, the correction changes nothing. */
  lemma CorrectedAgreesBeforeRowId(left: Segment, right: Segment)
    requires left.Valid() && right.Valid()
    ensures var pl, pr := SplitRow(left.Bytes()), SplitRow(right.Bytes());
            !(pl.table == pr.table && pl.middle.Some? && pl.middle == pr.middle) ==>
              CompareRowBytesCorrected(left, right) == CompareRowBytes(left, right)
  {
    LocateTable(left);
    LocateTable(right);
    if FirstDelimiter(left) >= 0 && FirstDelimiter(right) >= 0 {
      LocateMiddle(left);
      LocateMiddle(right);
    }
  }

  /** With equal table and middle parts, the corrected comparison is the row-id comparison of the parts. */
  lemma CorrectedRowIdStage(left: Segment, right: Segment)
    requires left.Valid() && right.Valid()
    ensures var pl, pr := SplitRow(left.Bytes()), SplitRow(right.Bytes());
            pl.table == pr.table && pl.middle.Some? && pl.middle == pr.middle ==>
              CompareRowBytesCorrected(left, right) == ComparePart(pl.rowId, pr.rowId)
  {
    LocateTable(left);
    LocateTable(right);
    if FirstDelimiter(left) >= 0 && FirstDelimiter(right) >= 0 {
      LocateMiddle(left);
      LocateMiddle(right);
      if FarDelimiter(left) >= 0 && FarDelimiter(right) >= 0 {
        LocateRowId(left);
        LocateRowId(right);
      }
    }
  }

  /**
   * As written, a row with one delimiter is compared against one with two by
   * reading its bytes from the start of the row up to its end as a row id:
   * "z,b" sorts after "z,b,a" although it has no row id.
   */
  lemma MiddleOnlyMisordered()
    ensures var left, right := Segment([0x7A, 0x2C, 0x62], 0, 3), Segment([0x7A, 0x2C, 0x62, 0x2C, 0x61], 0, 5);
            && CompareRowBytes(left, right) == 1
            && CompareRowBytesCorrected(left, right) == -1
  {
    var left, right := Segment([0x7A, 0x2C, 0x62], 0, 3), Segment([0x7A, 0x2C, 0x62, 0x2C, 0x61], 0, 5);
    var pl, pr := RowParts([0x7A], Some([0x62]), None), RowParts([0x7A], Some([0x62]), Some([0x61]));
    SplitsAs(left, pl);
    SplitsAs(right, pr);
    RowIdsAsRead(left, right, [0x7A, 0x2C, 0x62], [0x61]);
    CorrectedIsIntendedOrder(left, right);
  }

  /**
   * As written, the same one-delimiter row at a different offset in its
   * backing bytes compares unequal, because the bytes before the row are
   * read as part of its row id.
   */
  lemma SameRowComparesUnequal()
    ensures var left, right := Segment([0x09, 0x61, 0x2C, 0x62], 1, 3), Segment([0x61, 0x2C, 0x62], 0, 3);
            && left.Bytes() == right.Bytes()
            && CompareRowBytes(left, right) == -1
            && CompareRowBytesCorrected(left, right) == 0
  {
    var left, right := Segment([0x09, 0x61, 0x2C, 0x62], 1, 3), Segment([0x61, 0x2C, 0x62], 0, 3);
    var p := RowParts([0x61], Some([0x62]), None);
    SplitsAs(left, p);
    SplitsAs(right, p);
    RowIdsAsRead(left, right, [0x09, 0x61, 0x2C, 0x62], [0x61, 0x2C, 0x62]);
    CorrectedIsIntendedOrder(left, right);
  }

  /** A segment whose bytes are the joined parts `p` splits into `p`. */
  lemma SplitsAs(s: Segment, p: RowParts)
    requires s.Valid() && p.WellFormed() && s.Bytes() == JoinRow(p)
    ensures SplitRow(s.Bytes()) == p
  {
    SplitJoin(p);
  }

  /** With equal table and middle parts, the as-written comparison is that of the two row ids as read. */
  lemma RowIdsAsRead(left: Segment, right: Segment, lid: seq<bv8>, rid: seq<bv8>)
    requires left.Valid() && right.Valid()
    requires SplitRow(left.Bytes()).table == SplitRow(right.Bytes()).table
    requires SplitRow(left.Bytes()).middle.Some? && SplitRow(left.Bytes()).middle == SplitRow(right.Bytes()).middle
    requires RowIdAsRead(left) == lid && RowIdAsRead(right) == rid
    ensures CompareRowBytes(left, right) == CompareUnsigned(lid, rid)
  {
    RowIdStage(left, right);
  }
}
