# HBase cell ordering and replication peer configuration, in Dafny

This project models two pieces of HBase.

**`CellComparatorImpl`** is the total order on cells that every sorted
structure of the storage engine relies on. A cell's key is a row, a column
family, a qualifier, a timestamp, a type byte and a sequence id. The order is:

- the row, as unsigned bytes;
- the family, then the qualifier;
- the timestamp, newest first;
- the type code, highest first;
- the sequence id, highest first, unless the caller ignores it.

A cell with an empty column and the `Minimum` type is a sentinel: it sorts
after every other cell of its row.

**`MetaCellComparator`** is the comparator of the `hbase:meta` catalog. It
overrides only the row step. A catalog row is cut at its first delimiter
(`,`) and at the last delimiter after it, into a table part, a middle part
and a row id. The parts are compared in turn, and a missing part is meant
to sort before a present one. The code as written does not do this for a
row that has a middle part but no row id; see "## Findings".

**`ReplicationPeerConfig`** holds the settings of one replication peer. It
is a class whose setters assign one field and return the object. Its
decision rule `needToReplicate` uses exclude lists while all user tables
are replicated and include lists otherwise. `toString` renders a subset of
the fields.

Modules:

- `Bytes` (`bytes.dfy`): byte segments `(src, offset, length)`, which stand for
  every array or buffer backing of a row, family or qualifier. It also holds
  the unsigned comparison, with a reference order `Precedes`, and the forward
  and reverse delimiter searches.
- `ThreeWay`: lexicographic chaining of three-way results. `Chains` is the
  per-step condition from which transitivity follows.
- `Longs`: signed 64-bit comparison.
- `Cells` (`cell.dfy`): the cell value.
- `CatalogRow` (`catalog_row.dfy`): the parts of a catalog row.
  - `SplitRow` and `JoinRow` convert between a row and its parts.
  - `CompareRowParts` is the intended catalog row order.
- `CellComparatorImpl` (`cell_comparator.dfy`): the comparator's methods as
  functions. `Comparator` selects the standard or the catalog row step.
- `MetaCellComparator` (`meta_cell_comparator.dfy`): the catalog row
  comparison.
  - `CompareRowBytes` follows the source's index arithmetic.
  - The lemmas say what each of its stages compares, in terms of the row's parts.
- `CellOrder` (`cell_order.dfy`): the order properties of the full comparison.
  - Each step gets a reference definition.
  - The comparison is proved to be the chain of those steps.
  - Antisymmetry, reflexivity and transitivity follow, with the exact exceptions the sentinel makes.
- `Replication` (`replication_peer_config.dfy`): the peer configuration class
  and its `toString` builder.

## Model

| member | source | states |
|---|---|---|
| Bytes.CompareUnsigned | hbase-common/src/main/java/org/apache/hadoop/hbase/CellComparatorImpl.java:132-133 | `Bytes.compareTo` up to sign: the result is -1, 0 or 1, and 0 exactly when the two byte strings are equal |
| Bytes.CompareUnsignedPrecedes | hbase-common/src/main/java/org/apache/hadoop/hbase/CellComparatorImpl.java:132-133 | the comparison gives -1 exactly when the reference order puts the left string first: a proper prefix, or a smaller unsigned byte at the first difference |
| Bytes.CompareUnsignedAntisymmetric | hbase-common/src/main/java/org/apache/hadoop/hbase/CellComparatorImpl.java:132-133 | swapping the operands negates the comparison |
| Bytes.CompareUnsignedTransitive | hbase-common/src/main/java/org/apache/hadoop/hbase/CellComparatorImpl.java:132-133 | "sorts no later than" is transitive |
| Bytes.CompareToOrders | hbase-common/src/main/java/org/apache/hadoop/hbase/CellComparatorImpl.java:206-207 | comparing two `(array, offset, length)` ranges orders them exactly as their bytes |
| Bytes.SearchDelimiterIndex | hbase-common/src/main/java/org/apache/hadoop/hbase/CellComparatorImpl.java:332-334 | `Bytes.searchDelimiterIndex` returns -1, or an absolute index inside `[offset, offset + length)` that holds the delimiter |
| Bytes.SearchDelimiterIndexFirst | hbase-common/src/main/java/org/apache/hadoop/hbase/CellComparatorImpl.java:332-334 | no byte before the index found, and no byte at all when -1, is the delimiter: it is the first one |
| Bytes.SearchDelimiterIndexInReverse | hbase-common/src/main/java/org/apache/hadoop/hbase/CellComparatorImpl.java:354-357 | `Bytes.searchDelimiterIndexInReverse` returns -1, or an absolute index inside the range that holds the delimiter |
| Bytes.SearchDelimiterIndexInReverseLast | hbase-common/src/main/java/org/apache/hadoop/hbase/CellComparatorImpl.java:354-357 | no byte after the index found, and no byte at all when -1, is the delimiter: it is the last one |
| Bytes.SearchDelimiterIndexAgree | hbase-common/src/main/java/org/apache/hadoop/hbase/CellComparatorImpl.java:332-334 | two ranges with the same bytes give the same search result, relative to their offsets |
| Bytes.SearchDelimiterIndexInReverseAgree | hbase-common/src/main/java/org/apache/hadoop/hbase/CellComparatorImpl.java:354-357 | the same, for the reverse search |
| Longs.Compare | hbase-common/src/main/java/org/apache/hadoop/hbase/CellComparatorImpl.java:83 | `Longs.compare` is -1, 0 or 1 exactly when the first long is smaller, equal or larger |
| CatalogRow.SplitRowWellFormed | hbase-common/src/main/java/org/apache/hadoop/hbase/CellComparatorImpl.java:332-357 | the cuts at the first delimiter and at the last one after it leave no delimiter in the table part or the row id, nor in a middle part that has no row id after it |
| CatalogRow.JoinSplit | hbase-common/src/main/java/org/apache/hadoop/hbase/CellComparatorImpl.java:332-357 | joining the parts with delimiters gives back the row: the split loses nothing |
| CatalogRow.SplitJoin | hbase-common/src/main/java/org/apache/hadoop/hbase/CellComparatorImpl.java:332-357 | splitting a joined well-formed decomposition gives it back, so a row has only one decomposition |
| CatalogRow.ComparePart | hbase-common/src/main/java/org/apache/hadoop/hbase/CellComparatorImpl.java:342-348 | an absent part sorts before a present one, and two absent parts tie; the result is 0 exactly when the parts are equal |
| CatalogRow.CompareRowParts | hbase-common/src/main/java/org/apache/hadoop/hbase/CellComparatorImpl.java:335-378 | the intended catalog order (table, then middle, then row id) is -1, 0 or 1, and 0 exactly when the parts are equal |
| CatalogRow.CompareRowPartsAntisymmetric | hbase-common/src/main/java/org/apache/hadoop/hbase/CellComparatorImpl.java:335-378 | swapping the rows negates the intended order |
| CatalogRow.CompareRowPartsTransitive | hbase-common/src/main/java/org/apache/hadoop/hbase/CellComparatorImpl.java:335-378 | the intended order is transitive |
| CatalogRow.CompareRowPartsZeroIffSameRow | hbase-common/src/main/java/org/apache/hadoop/hbase/CellComparatorImpl.java:335-378 | two rows tie under the intended order exactly when they are the same bytes |
| CellComparatorImpl.Compare | hbase-common/src/main/java/org/apache/hadoop/hbase/CellComparatorImpl.java:59-62 | `compare(a, b)` is `compare(a, b, false)` |
| CellComparatorImpl.CompareCells | hbase-common/src/main/java/org/apache/hadoop/hbase/CellComparatorImpl.java:72-87 | a nonzero row result is final, then a nonzero result of `compareWithoutRow`. A full tie is 0 exactly when the sequence id is ignored or equal; otherwise the higher sequence id sorts first |
| CellComparatorImpl.CompareColumns | hbase-common/src/main/java/org/apache/hadoop/hbase/CellComparatorImpl.java:95-101 | 0 exactly when family and qualifier bytes are equal; -1 exactly when the family sorts first, or the families are equal and the qualifier sorts first |
| CellComparatorImpl.CompareFamilies | hbase-common/src/main/java/org/apache/hadoop/hbase/CellComparatorImpl.java:110-134 | the unsigned order of the family bytes, left against right, for every backing |
| CellComparatorImpl.CompareQualifiers | hbase-common/src/main/java/org/apache/hadoop/hbase/CellComparatorImpl.java:143-170 | the unsigned order of the qualifier bytes, left against right, for every backing |
| CellComparatorImpl.CompareRows | hbase-common/src/main/java/org/apache/hadoop/hbase/CellComparatorImpl.java:181-208 | 0 for the same cell; otherwise the unsigned order of the row bytes. The shortcut agrees with the byte comparison |
| CellComparatorImpl.CompareRowToBytes | hbase-common/src/main/java/org/apache/hadoop/hbase/CellComparatorImpl.java:227-235 | the unsigned order of the cell's row against the plain byte range |
| CellComparatorImpl.CompareWithoutRow | hbase-common/src/main/java/org/apache/hadoop/hbase/CellComparatorImpl.java:238-273 | a left sentinel gives 1 whatever the right cell is. Otherwise a right sentinel gives -1. The result lies in [-255, 255] |
| CellComparatorImpl.CompareCellTimestamps | hbase-common/src/main/java/org/apache/hadoop/hbase/CellComparatorImpl.java:287-289 | 1, -1 or 0 exactly when the left timestamp is older, newer or the same |
| CellComparatorImpl.CompareTimestamps | hbase-common/src/main/java/org/apache/hadoop/hbase/CellComparatorImpl.java:303-310 | 1, -1 or 0 exactly when the left timestamp is smaller, larger or equal: `Longs.compare` with the operands swapped |
| MetaCellComparator.CompareRows | hbase-common/src/main/java/org/apache/hadoop/hbase/CellComparatorImpl.java:319-322 | the catalog rows in the intended part-by-part order. This agrees with the source's private comparison whenever neither row has exactly one delimiter |
| MetaCellComparator.CompareRowToBytes | hbase-common/src/main/java/org/apache/hadoop/hbase/CellComparatorImpl.java:325-328 | the same, for a cell's row against a plain byte range |
| MetaCellComparator.DelimiterTieBreak | hbase-common/src/main/java/org/apache/hadoop/hbase/CellComparatorImpl.java:342-348 | the tie-break goes on to the next stage exactly when both delimiter indices are non-negative; otherwise the side without a delimiter sorts first (-1 or 1), and two such sides tie (0) |
| MetaCellComparator.FirstDelimiter | hbase-common/src/main/java/org/apache/hadoop/hbase/CellComparatorImpl.java:332-334 | -1, or an index inside the row |
| MetaCellComparator.FarDelimiter | hbase-common/src/main/java/org/apache/hadoop/hbase/CellComparatorImpl.java:352-357 | -1, or an index after the first delimiter and inside the row |
| MetaCellComparator.LocateTable | hbase-common/src/main/java/org/apache/hadoop/hbase/CellComparatorImpl.java:332-338 | the first stage reads exactly the row's table part, and the row has no middle part exactly when the search finds no delimiter |
| MetaCellComparator.LocateMiddle | hbase-common/src/main/java/org/apache/hadoop/hbase/CellComparatorImpl.java:352-361 | the second stage reads exactly the row's middle part, and the row has no row id exactly when the reverse search finds nothing |
| MetaCellComparator.LocateRowId | hbase-common/src/main/java/org/apache/hadoop/hbase/CellComparatorImpl.java:374-377 | the third stage reads the row id; a row without a second delimiter has its backing bytes read from index 0 to the row's end |
| MetaCellComparator.TableStage | hbase-common/src/main/java/org/apache/hadoop/hbase/CellComparatorImpl.java:335-349 | different table parts decide. With equal ones, a row without a delimiter sorts before one with a delimiter, and two such rows tie |
| MetaCellComparator.MiddleStage | hbase-common/src/main/java/org/apache/hadoop/hbase/CellComparatorImpl.java:350-364 | with equal table parts, different middle parts decide |
| MetaCellComparator.RowIdStage | hbase-common/src/main/java/org/apache/hadoop/hbase/CellComparatorImpl.java:365-378 | with equal table and middle parts, the comparison of the row-id bytes as read is the answer; the tie-break at 365-371 never decides |
| MetaCellComparator.AgreesWithIntendedOrder | hbase-common/src/main/java/org/apache/hadoop/hbase/CellComparatorImpl.java:330-379 | when neither row has exactly one delimiter, the source's comparison is the intended part-by-part order |
| MetaCellComparator.CompareRowBytesAntisymmetric | hbase-common/src/main/java/org/apache/hadoop/hbase/CellComparatorImpl.java:330-379 | swapping the rows negates the source's comparison, in all cases |
| MetaCellComparator.CompareRowBytesReflexive | hbase-common/src/main/java/org/apache/hadoop/hbase/CellComparatorImpl.java:330-379 | a row segment compared with itself gives 0 |
| MetaCellComparator.CorrectedIsIntendedOrder | hbase-common/src/main/java/org/apache/hadoop/hbase/CellComparatorImpl.java:330-379 | the corrected comparison is the intended part-by-part order for every pair of rows |
| MetaCellComparator.CorrectedAgreesBeforeRowId | hbase-common/src/main/java/org/apache/hadoop/hbase/CellComparatorImpl.java:330-364 | the correction changes nothing unless both the table parts and the middle parts tie |
| MetaCellComparator.MiddleOnlyMisordered | hbase-common/src/main/java/org/apache/hadoop/hbase/CellComparatorImpl.java:365-378 | as written, the one-delimiter row "z,b" sorts after "z,b,a"; the corrected comparison puts it first |
| MetaCellComparator.SameRowComparesUnequal | hbase-common/src/main/java/org/apache/hadoop/hbase/CellComparatorImpl.java:374-377 | as written, the same row "a,b" at offsets 1 and 0 compares as -1; the corrected comparison gives 0 |
| CellOrder.RowOrderIsRowStep | hbase-common/src/main/java/org/apache/hadoop/hbase/CellComparatorImpl.java:181-208 | both comparators' row step is their reference row order: unsigned row bytes, or catalog parts |
| CellOrder.CompareWithoutRowIsKeyStep | hbase-common/src/main/java/org/apache/hadoop/hbase/CellComparatorImpl.java:258-273 | between non-sentinels, `compareWithoutRow` is family, qualifier, timestamp newest first, type highest first. With different family lengths it is `compareFamilies` alone, and that is nonzero |
| CellOrder.CompareWithoutRowSentinels | hbase-common/src/main/java/org/apache/hadoop/hbase/CellComparatorImpl.java:245-257 | two sentinels compare as 1 both ways; otherwise the sentinel step comes first, then the key |
| CellOrder.KeyStepAntisymmetric | hbase-common/src/main/java/org/apache/hadoop/hbase/CellComparatorImpl.java:258-273 | the key step is antisymmetric and ties exactly when family, qualifier, timestamp and type agree |
| CellOrder.KeyStepChains | hbase-common/src/main/java/org/apache/hadoop/hbase/CellComparatorImpl.java:258-273 | the key step is a transitive lexicographic step |
| CellOrder.TimestampStepChains | hbase-common/src/main/java/org/apache/hadoop/hbase/CellComparatorImpl.java:266-273 | the timestamp-then-type step, including the subtraction of type codes, is transitive |
| CellOrder.RowStepChains | hbase-common/src/main/java/org/apache/hadoop/hbase/CellComparatorImpl.java:181-208 | for either comparator the row step is antisymmetric and transitive, and ties exactly on equal row bytes |
| CellOrder.CompareCellsIsCellOrder | hbase-common/src/main/java/org/apache/hadoop/hbase/CellComparatorImpl.java:72-87 | `compare` is the chain row, sentinel, key, sequence id. The one exception is two sentinels on tying rows, which compare as 1 |
| CellOrder.IgnoringSequenceId | hbase-common/src/main/java/org/apache/hadoop/hbase/CellComparatorImpl.java:72-87 | the full comparison is the comparison that ignores the sequence id, chained with the sequence ids in descending order; a full tie implies a tie when ignoring it |
| CellOrder.CompareAntisymmetric | hbase-common/src/main/java/org/apache/hadoop/hbase/CellComparatorImpl.java:72-87 | swapping the cells negates `compare`, except for two sentinels on equal rows, where both orders give 1 |
| CellOrder.CompareReflexive | hbase-common/src/main/java/org/apache/hadoop/hbase/CellComparatorImpl.java:72-87 | a cell compares as 0 with itself, unless it is a sentinel, which compares as 1 |
| CellOrder.CompareTransitive | hbase-common/src/main/java/org/apache/hadoop/hbase/CellComparatorImpl.java:72-87 | "sorts no later than" is transitive for both comparators, with or without sequence ids |
| CellOrder.RowToBytesAgrees | hbase-common/src/main/java/org/apache/hadoop/hbase/CellComparatorImpl.java:226-235 | the `(cell, byte[], offset, length)` overloads agree with comparing against a cell whose row is that range, for both comparators |
| CellOrder.MetaTablePrefixSortsFirst | hbase-common/src/main/java/org/apache/hadoop/hbase/CellComparatorImpl.java:336-349 | in the catalog order "a,z" sorts before "a!,z", a table part that is a proper prefix, though the plain byte order puts it after |
| Replication.ReplicationPeerConfig.constructor | hbase-client/src/main/java/org/apache/hadoop/hbase/replication/ReplicationPeerConfig.java:38-53 | a new configuration replicates all user tables with bandwidth 0, null collections and empty peer data and configuration |
| Replication.ReplicationPeerConfig.SetClusterKey | hbase-client/src/main/java/org/apache/hadoop/hbase/replication/ReplicationPeerConfig.java:59-62 | assigns the cluster key, changes no other field, returns the object |
| Replication.ReplicationPeerConfig.SetReplicationEndpointImpl | hbase-client/src/main/java/org/apache/hadoop/hbase/replication/ReplicationPeerConfig.java:68-71 | assigns the endpoint class, changes no other field, returns the object |
| Replication.ReplicationPeerConfig.SetTableCFsMap | hbase-client/src/main/java/org/apache/hadoop/hbase/replication/ReplicationPeerConfig.java:93-97 | assigns the included table map, changes no other field, returns the object |
| Replication.ReplicationPeerConfig.SetNamespaces | hbase-client/src/main/java/org/apache/hadoop/hbase/replication/ReplicationPeerConfig.java:103-106 | assigns the included namespaces, changes no other field, returns the object |
| Replication.ReplicationPeerConfig.SetBandwidth | hbase-client/src/main/java/org/apache/hadoop/hbase/replication/ReplicationPeerConfig.java:112-115 | assigns the bandwidth, changes no other field, returns the object |
| Replication.ReplicationPeerConfig.SetReplicateAllUserTables | hbase-client/src/main/java/org/apache/hadoop/hbase/replication/ReplicationPeerConfig.java:121-124 | assigns the replicate-all flag, changes no other field, returns the object |
| Replication.ReplicationPeerConfig.SetExcludeTableCFsMap | hbase-client/src/main/java/org/apache/hadoop/hbase/replication/ReplicationPeerConfig.java:130-134 | assigns the excluded table map, changes no other field, returns the object |
| Replication.ReplicationPeerConfig.SetExcludeNamespaces | hbase-client/src/main/java/org/apache/hadoop/hbase/replication/ReplicationPeerConfig.java:140-143 | assigns the excluded namespaces, changes no other field, returns the object |
| Replication.ReplicationPeerConfig.NeedToReplicate | hbase-client/src/main/java/org/apache/hadoop/hbase/replication/ReplicationPeerConfig.java:174-192 | replicating all user tables: shipped exactly when neither the namespace nor the table is excluded. Otherwise: shipped exactly when the namespace or the table is included. A null collection counts as empty |
| Replication.DefaultReplicatesEveryTable | hbase-client/src/main/java/org/apache/hadoop/hbase/replication/ReplicationPeerConfig.java:174-182 | with the default settings every table is shipped |
| Replication.ReplicationPeerConfig.ToString | hbase-client/src/main/java/org/apache/hadoop/hbase/replication/ReplicationPeerConfig.java:145-167 | the builder's result is the entries `name=value`, joined by commas |
| Replication.ReplicationPeerConfig.AppendCollections | hbase-client/src/main/java/org/apache/hadoop/hbase/replication/ReplicationPeerConfig.java:150-164 | appends exactly the chosen collection entries, each followed by a comma |
| Replication.Append | hbase-client/src/main/java/org/apache/hadoop/hbase/replication/ReplicationPeerConfig.java:147-149 | one `append(name=).append(value).append(",")` step adds one entry to the rendering |
| Replication.EntriesEnds | hbase-client/src/main/java/org/apache/hadoop/hbase/replication/ReplicationPeerConfig.java:147-165 | the first entry is the cluster key and the last is the bandwidth |
| Replication.EntriesChosen | hbase-client/src/main/java/org/apache/hadoop/hbase/replication/ReplicationPeerConfig.java:150-164 | exclude entries appear exactly when all user tables are replicated and they are not null; include entries exactly when not all are replicated and they are not null |
| Replication.CollectionsChosen | hbase-client/src/main/java/org/apache/hadoop/hbase/replication/ReplicationPeerConfig.java:150-164 | the same, for the collection entries alone, which are the only optional ones |
| Replication.ToStringShape | hbase-client/src/main/java/org/apache/hadoop/hbase/replication/ReplicationPeerConfig.java:145-167 | the rendering starts with `clusterKey=` and the key, and ends with `bandwidth=` and the bandwidth |
| Replication.RenderShape | hbase-client/src/main/java/org/apache/hadoop/hbase/replication/ReplicationPeerConfig.java:145-167 | a rendering starts with its first entry and ends with its last |
| Replication.RenderLast | hbase-client/src/main/java/org/apache/hadoop/hbase/replication/ReplicationPeerConfig.java:165-166 | the last entry is written without a trailing comma, after the others each with one |

## Left out

- Logging, the audience and findbugs annotations, and the two static singletons. `Comparator` names which singleton is in use.
- The dispatch on `ByteBufferCell` versus array-backed cells. Every backing is one `Segment`, and the model keeps the one fact the dispatch matters for: every branch compares left against right in that order.
- The bodies of `Bytes.compareTo`, `ByteBufferUtils.compareTo`, `Bytes.searchDelimiterIndex`, `Bytes.searchDelimiterIndexInReverse`, `Longs.compare` and `HConstants` are not part of this model. They are given by their specifications:
  - an unsigned lexicographic comparison, in which a shorter prefix sorts first;
  - a first or last delimiter search that returns an absolute index or -1;
  - a signed comparison;
  - a delimiter byte of `,` (0x2C).
- Bytes.CompareUnsigned: only the sign of `Bytes.compareTo` is modelled (-1, 0 or 1). Its magnitude is unspecified in the source and no caller uses it.
- The type byte is modelled as its unsigned value 0..255, so `& 0xff` is the identity. `Type.Minimum` is 0 and `Type.Maximum` is 255.
- Java's `int` overflow in offset arithmetic is not modelled. Segments are valid ranges of their backing bytes, as a cell guarantees.
- MetaCellComparator.CompareRows: uses the corrected catalog comparison (see Findings), not the source's as written. The as-written comparison is `CompareRowBytes`. The two differ only when a row has exactly one delimiter and both rows tie on the table and middle parts.
- MetaCellComparator.CompareRowToBytes: the same as `CompareRows`.
- `TableName` is a namespace and qualifier pair. Its other internals are not part of this model.
- The `toString` renderings of Java sets and maps are parameters of `ToString`, because they are library formatting. The `TreeMap` byte comparator behind `peerData` is left out: nothing in this class depends on it.
- The getters return their field and carry no contract. Returning the same map object, so that callers can change it, is not modelled: fields hold values.
- Sharing comparators across threads is not modelled. The comparator has no state.

## Findings

| source | as written | input that shows it | evidently intended | confidence | as-written member | corrected member |
|---|---|---|---|---|---|---|
| hbase-common/src/main/java/org/apache/hadoop/hbase/CellComparatorImpl.java:365-378 | After the middle parts tie, the tie-break tests `leftDelimiter`/`rightDelimiter`. Those were just incremented and are at least 1, so it never decides. A row without a second delimiter then has its far index bumped from -1 to 0, and its "row id" is read from index 0 of the backing bytes to the row's end. | Rows "z,b" and "z,b,a" at offset 0: as written "z,b" sorts after "z,b,a". The same row "a,b" at offset 1 of `[0x09,'a',',','b']` and at offset 0 of `['a',',','b']`: as written -1, not 0 | The tie-break tests the far delimiters, as the first one tests the first delimiters. A row without a row id sorts before one with a row id, two such rows tie, and only rows that both have one compare the row ids. | not executed | MetaCellComparator.MiddleOnlyMisordered | MetaCellComparator.CorrectedIsIntendedOrder |
