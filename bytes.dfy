/** Optional values, standing in for Java references that may be null. */
module Wrappers {
  datatype Option<+T> = None | Some(value: T)
}

/**
 * Byte segments and the primitive comparisons every cell comparison is
 * built from: the unsigned lexicographic comparison of `Bytes.compareTo`
 * and `ByteBufferUtils.compareTo`, and the forward and reverse delimiter
 * searches of `Bytes`.
 */
module Bytes {

  /** The one-byte delimiter of catalog row keys (`HConstants.DELIMITER`, a comma). */
  const DELIMITER: bv8 := 0x2C

  /**
   * A zero-copy view of `length` bytes starting at `offset` in `src`.  An
   * on-heap array and a position-addressed buffer are both such a view, so
   * one type serves for both backings.
   */
  datatype Segment = Segment(src: seq<bv8>, offset: int, length: int) {
    predicate Valid() {
      0 <= offset && 0 <= length && offset + length <= |src|
    }

    /** The bytes the segment stands for. */
    function Bytes(): (r: seq<bv8>)
      requires Valid()
    {
      src[offset..offset + length]
    }
  }

  /**
   * Reference definition of the unsigned lexicographic order: `a` sorts
   * strictly before `b` when it is a proper prefix of `b`, or when at the
   * first position where they differ `a` holds the smaller unsigned byte.
   */
  ghost predicate Precedes(a: seq<bv8>, b: seq<bv8>) {
    || (|a| < |b| && a == b[..|a|])
    || exists k :: 0 <= k < |a| && k < |b| && a[..k] == b[..k] && a[k] < b[k]
  }

  /** `r` is a three-way comparison result that orders `a` against `b`. */
  ghost predicate OrdersAs(r: int, a: seq<bv8>, b: seq<bv8>) {
    && -1 <= r <= 1
    && (r == 0 <==> a == b)
    && (r == -1 <==> Precedes(a, b))
  }

  /**
   * Unsigned lexicographic comparison of two byte strings, a shorter prefix
   * sorting first.  Only the sign of the library's result is meaningful, so
   * the result is the sign.
   */
  function CompareUnsigned(a: seq<bv8>, b: seq<bv8>): (r: int)
    ensures -1 <= r <= 1
    ensures r == 0 <==> a == b
    decreases |a|
  {
    if |a| == 0 then (if |b| == 0 then 0 else -1)
    else if |b| == 0 then 1
    else if a[0] < b[0] then -1
    else if a[0] > b[0] then 1
    else CompareUnsigned(a[1..], b[1..])
  }

  /** The comparison answers -1 exactly when the reference order puts `a` first. */
  lemma {:induction false} CompareUnsignedPrecedes(a: seq<bv8>, b: seq<bv8>)
    ensures CompareUnsigned(a, b) == -1 <==> Precedes(a, b)
    decreases |a|
  {
    if |a| == 0 {
      if |b| > 0 {
        assert a == b[..|a|];
      }
    } else if |b| == 0 {
    } else if a[0] < b[0] {
      assert a[..0] == b[..0];
    } else if a[0] > b[0] {
      NotPrecedesWhenFirstGreater(a, b);
    } else {
      CompareUnsignedPrecedes(a[1..], b[1..]);
      PrecedesTail(a, b);
    }
  }

  /** A larger first byte rules out sorting first. */
  lemma NotPrecedesWhenFirstGreater(a: seq<bv8>, b: seq<bv8>)
    requires |a| > 0 && |b| > 0 && a[0] > b[0]
    ensures !Precedes(a, b)
  {
    forall k | 0 < k <= |a| && k <= |b|
      ensures a[..k] != b[..k]
    {
      assert a[..k][0] != b[..k][0];
    }
    assert a[..|a|] == a;
  }

  /** Equal first bytes leave the order to the tails. */
  lemma PrecedesTail(a: seq<bv8>, b: seq<bv8>)
    requires |a| > 0 && |b| > 0 && a[0] == b[0]
    ensures Precedes(a, b) <==> Precedes(a[1..], b[1..])
  {
    if Precedes(a, b) {
      PrecedesTailForward(a, b);
    }
    if Precedes(a[1..], b[1..]) {
      PrecedesTailBackward(a, b);
    }
  }

  lemma PrecedesTailForward(a: seq<bv8>, b: seq<bv8>)
    requires |a| > 0 && |b| > 0 && a[0] == b[0]
    requires Precedes(a, b)
    ensures Precedes(a[1..], b[1..])
  {
    if |a| < |b| && a == b[..|a|] {
      assert a[1..] == b[1..][..|a| - 1];
    } else {
      var k :| 0 <= k < |a| && k < |b| && a[..k] == b[..k] && a[k] < b[k];
      DifferenceShrinks(a, b, k);
    }
  }

  /** A first difference past the shared first byte is one position earlier in the tails. */
  lemma DifferenceShrinks(a: seq<bv8>, b: seq<bv8>, k: int)
    requires 0 < k < |a| && k < |b| && a[..k] == b[..k] && a[k] < b[k]
    ensures a[1..][..k - 1] == b[1..][..k - 1] && a[1..][k - 1] < b[1..][k - 1]
  {
    forall i | 0 <= i < k - 1
      ensures a[1..][i] == b[1..][i]
    {
      assert a[1..][i] == a[..k][i + 1] == b[..k][i + 1] == b[1..][i];
    }
  }

  lemma PrecedesTailBackward(a: seq<bv8>, b: seq<bv8>)
    requires |a| > 0 && |b| > 0 && a[0] == b[0]
    requires Precedes(a[1..], b[1..])
    ensures Precedes(a, b)
  {
    var a', b' := a[1..], b[1..];
    if |a'| < |b'| && a' == b'[..|a'|] {
      PrefixExtends(a, b);
    } else {
      var k :| 0 <= k < |a'| && k < |b'| && a'[..k] == b'[..k] && a'[k] < b'[k];
      DifferenceExtends(a, b, k);
    }
  }

  /** A proper prefix stays one when the same byte is put in front of both. */
  lemma PrefixExtends(a: seq<bv8>, b: seq<bv8>)
    requires |a| > 0 && |b| > 0 && a[0] == b[0]
    requires |a| < |b| && a[1..] == b[1..][..|a| - 1]
    ensures a == b[..|a|]
  {
    forall i | 0 <= i < |a|
      ensures a[i] == b[i]
    {
      if i > 0 {
        assert a[i] == a[1..][i - 1] == b[1..][..|a| - 1][i - 1] == b[i];
      }
    }
  }

  /** A first difference in the tails is a first difference one position further on. */
  lemma DifferenceExtends(a: seq<bv8>, b: seq<bv8>, k: int)
    requires |a| > 0 && |b| > 0 && a[0] == b[0]
    requires 0 <= k < |a| - 1 && k < |b| - 1 && a[1..][..k] == b[1..][..k] && a[1..][k] < b[1..][k]
    ensures a[..k + 1] == b[..k + 1] && a[k + 1] < b[k + 1]
  {
    forall i | 0 <= i < k + 1
      ensures a[i] == b[i]
    {
      if i > 0 {
        assert a[i] == a[1..][..k][i - 1] == b[1..][..k][i - 1] == b[i];
      }
    }
    assert a[k + 1] == a[1..][k] && b[k + 1] == b[1..][k];
  }

  /** Swapping the operands negates the comparison. */
  lemma {:induction false} CompareUnsignedAntisymmetric(a: seq<bv8>, b: seq<bv8>)
    ensures CompareUnsigned(a, b) == -CompareUnsigned(b, a)
    decreases |a|
  {
    if |a| > 0 && |b| > 0 && a[0] == b[0] {
      CompareUnsignedAntisymmetric(a[1..], b[1..]);
    }
  }

  /** "Sorts no later than" is transitive. */
  lemma {:induction false} CompareUnsignedTransitive(a: seq<bv8>, b: seq<bv8>, c: seq<bv8>)
    requires CompareUnsigned(a, b) <= 0 && CompareUnsigned(b, c) <= 0
    ensures CompareUnsigned(a, c) <= 0
    decreases |a|
  {
    if |a| > 0 && |b| > 0 && |c| > 0 && a[0] == b[0] == c[0] {
      CompareUnsignedTransitive(a[1..], b[1..], c[1..]);
    }
  }

  /** A comparison that orders `a` before `b` and `b` before `c` orders `a` strictly before `c`
      when either step is strict. */
  lemma CompareUnsignedStrict(a: seq<bv8>, b: seq<bv8>, c: seq<bv8>)
    requires CompareUnsigned(a, b) <= 0 && CompareUnsigned(b, c) <= 0
    requires CompareUnsigned(a, b) < 0 || CompareUnsigned(b, c) < 0
    ensures CompareUnsigned(a, c) < 0
  {
    CompareUnsignedTransitive(a, b, c);
    if a == c {
      CompareUnsignedAntisymmetric(a, b);
    }
  }

  /**
   * `Bytes.compareTo(b1, s1, l1, b2, s2, l2)` and its `ByteBufferUtils`
   * twin: compares the two segments' bytes, left against right.
   */
  function CompareTo(left: Segment, right: Segment): (r: int)
    requires left.Valid() && right.Valid()
    ensures -1 <= r <= 1
    ensures r == 0 <==> left.Bytes() == right.Bytes()
  {
    CompareUnsigned(left.Bytes(), right.Bytes())
  }

  /** `CompareTo` is -1 exactly when the left segment's bytes sort first. */
  lemma CompareToOrders(left: Segment, right: Segment)
    requires left.Valid() && right.Valid()
    ensures OrdersAs(CompareTo(left, right), left.Bytes(), right.Bytes())
  {
    CompareUnsignedPrecedes(left.Bytes(), right.Bytes());
  }

  /**
   * `Bytes.searchDelimiterIndex`: the absolute index of the first
   * `delimiter` in `src[offset..offset + length]`, or -1 when there is none.
   */
  function SearchDelimiterIndex(src: seq<bv8>, offset: int, length: int, delimiter: bv8): (r: int)
    requires 0 <= offset && 0 <= length && offset + length <= |src|
    ensures r == -1 || offset <= r < offset + length
    ensures 0 <= r ==> src[r] == delimiter
    decreases length
  {
    if length == 0 then -1
    else if src[offset] == delimiter then offset
    else SearchDelimiterIndex(src, offset + 1, length - 1, delimiter)
  }

  /** No byte the forward search passed over is the delimiter: the index found is the first one. */
  lemma {:induction false} SearchDelimiterIndexFirst(src: seq<bv8>, offset: int, length: int, delimiter: bv8)
    requires 0 <= offset && 0 <= length && offset + length <= |src|
    ensures var r := SearchDelimiterIndex(src, offset, length, delimiter);
            forall i :: offset <= i < (if r < 0 then offset + length else r) ==> src[i] != delimiter
    decreases length
  {
    if length > 0 && src[offset] != delimiter {
      SearchDelimiterIndexFirst(src, offset + 1, length - 1, delimiter);
    }
  }

  /**
   * `Bytes.searchDelimiterIndexInReverse`: the absolute index of the last
   * `delimiter` in `src[offset..offset + length]`, or -1 when there is none.
   */
  function SearchDelimiterIndexInReverse(src: seq<bv8>, offset: int, length: int, delimiter: bv8): (r: int)
    requires 0 <= offset && 0 <= length && offset + length <= |src|
    ensures r == -1 || offset <= r < offset + length
    ensures 0 <= r ==> src[r] == delimiter
    decreases length
  {
    if length == 0 then -1
    else if src[offset + length - 1] == delimiter then offset + length - 1
    else SearchDelimiterIndexInReverse(src, offset, length - 1, delimiter)
  }

  /** No byte the reverse search passed over is the delimiter: the index found is the last one. */
  lemma {:induction false} SearchDelimiterIndexInReverseLast(src: seq<bv8>, offset: int, length: int, delimiter: bv8)
    requires 0 <= offset && 0 <= length && offset + length <= |src|
    ensures var r := SearchDelimiterIndexInReverse(src, offset, length, delimiter);
            forall i :: (if r < 0 then offset else r + 1) <= i < offset + length ==> src[i] != delimiter
    decreases length
  {
    if length > 0 && src[offset + length - 1] != delimiter {
      SearchDelimiterIndexInReverseLast(src, offset, length - 1, delimiter);
    }
  }

  /** Two windows holding the same bytes: the forward search finds the delimiter at the same place in both. */
  lemma {:induction false} SearchDelimiterIndexAgree(a: seq<bv8>, aOffset: int, b: seq<bv8>, bOffset: int,
                                                     length: int, delimiter: bv8)
    requires 0 <= aOffset && 0 <= bOffset && 0 <= length && aOffset + length <= |a| && bOffset + length <= |b|
    requires a[aOffset..aOffset + length] == b[bOffset..bOffset + length]
    ensures var ra, rb := SearchDelimiterIndex(a, aOffset, length, delimiter),
                          SearchDelimiterIndex(b, bOffset, length, delimiter);
            (ra < 0 && rb < 0) || (0 <= ra && 0 <= rb && ra - aOffset == rb - bOffset)
    decreases length
  {
    if length > 0 {
      assert a[aOffset] == a[aOffset..aOffset + length][0];
      assert b[bOffset] == b[bOffset..bOffset + length][0];
      if a[aOffset] != delimiter {
        assert a[aOffset + 1..aOffset + length] == a[aOffset..aOffset + length][1..];
        assert b[bOffset + 1..bOffset + length] == b[bOffset..bOffset + length][1..];
        SearchDelimiterIndexAgree(a, aOffset + 1, b, bOffset + 1, length - 1, delimiter);
      }
    }
  }

  /** Two windows holding the same bytes: the reverse search finds the delimiter at the same place in both. */
  lemma {:induction false} SearchDelimiterIndexInReverseAgree(a: seq<bv8>, aOffset: int, b: seq<bv8>, bOffset: int,
                                                              length: int, delimiter: bv8)
    requires 0 <= aOffset && 0 <= bOffset && 0 <= length && aOffset + length <= |a| && bOffset + length <= |b|
    requires a[aOffset..aOffset + length] == b[bOffset..bOffset + length]
    ensures var ra, rb := SearchDelimiterIndexInReverse(a, aOffset, length, delimiter),
                          SearchDelimiterIndexInReverse(b, bOffset, length, delimiter);
            (ra < 0 && rb < 0) || (0 <= ra && 0 <= rb && ra - aOffset == rb - bOffset)
    decreases length
  {
    if length > 0 {
      assert a[aOffset + length - 1] == a[aOffset..aOffset + length][length - 1];
      assert b[bOffset + length - 1] == b[bOffset..bOffset + length][length - 1];
      if a[aOffset + length - 1] != delimiter {
        assert a[aOffset..aOffset + length - 1] == a[aOffset..aOffset + length][..length - 1];
        assert b[bOffset..bOffset + length - 1] == b[bOffset..bOffset + length][..length - 1];
        SearchDelimiterIndexInReverseAgree(a, aOffset, b, bOffset, length - 1, delimiter);
      }
    }
  }
}

/**
 * Three-way comparison results combined lexicographically: the first
 * non-zero step decides.
 */
module ThreeWay {

  /** `first`, unless it is a tie, in which case `next`. */
  function Then(first: int, next: int): (r: int)
    ensures first != 0 ==> r == first
    ensures first == 0 ==> r == next
  {
    if first != 0 then first else next
  }

  /**
   * What one comparison step must satisfy, for elements x, y, z, so that a
   * lexicographic chain of such steps is transitive: `p` compares x with y,
   * `q` compares y with z and `s` compares x with z.
   */
  ghost predicate Chains(p: int, q: int, s: int) {
    && (p == 0 ==> s == q)
    && (q == 0 ==> s == p)
    && (p <= 0 && q <= 0 ==> s <= 0)
    && (p <= 0 && q <= 0 && (p < 0 || q < 0) ==> s < 0)
  }

  /** Chaining two well-behaved steps gives a well-behaved step. */
  lemma ThenChains(p1: int, q1: int, s1: int, p2: int, q2: int, s2: int)
    requires Chains(p1, q1, s1) && Chains(p2, q2, s2)
    ensures Chains(Then(p1, p2), Then(q1, q2), Then(s1, s2))
  {
  }
}

/** Java's 64-bit `long` and Guava's `Longs.compare`. */
module Longs {
  const MIN_LONG: int := -0x8000_0000_0000_0000
  const MAX_LONG: int := 0x7fff_ffff_ffff_ffff

  type Long = x: int | MIN_LONG <= x <= MAX_LONG

  /** Signed comparison of two longs, ascending. */
  function Compare(a: Long, b: Long): (r: int)
    ensures r == -1 <==> a < b
    ensures r == 0 <==> a == b
    ensures r == 1 <==> a > b
  {
    if a < b then -1 else if a > b then 1 else 0
  }
}
