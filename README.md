# Local-index region split policy

This project models Apache Phoenix's `IndexRegionSplitPolicy`, the HBase
region split policy used for tables that carry local secondary indexes. A
local index keeps its rows in the same region as the data rows, in column
families whose names start with a reserved local-index prefix. When HBase's
size-based policy proposes a split key, this policy checks whether that key
is the natural split point of one of the local-index stores. If it is not, the
key is used as proposed. If it is, the key is replaced by the natural split
point of the largest data store that has a split point and a positive size
(the first such one on a tie), or by "no split" when no data store qualifies.

The model is one module, `IndexRegionSplitPolicy`, plus a two-line
`Wrappers` module for `Option` (Java `null` becomes `None`):

- `Store` is a read-only snapshot of one store. It holds its family name, its
  size as a Java `long` (`Long`) and its natural split point. The region's
  store map becomes a sequence, in the order the map yields its values.
- `SplitPoint` is the functional specification of the selection. Its fallback
  part, `LargestDataStore`, is the loop's recurrence read over prefixes of the
  store sequence.
- `GetSplitPoint` is `getSplitPoint` itself, with its two loops and the
  accumulators `isLocalIndexKey`, `largestStoreSize` and
  `splitPointFromLargestStore`. It is proved equal to `SplitPoint`.
- The lemmas state what the policy promises: the baseline is kept unless a
  local-index store proposes it, the fallback picks the first data store of
  largest size, and stores with a null key or a non-positive size are never
  picked.

The superclass's key `super.getSplitPoint()` is the parameter `oldSplitPoint`.
The local-index prefix `QueryConstants.LOCAL_INDEX_COLUMN_FAMILY_PREFIX` is
the parameter `localIndexPrefix`. Keys are byte sequences, and the test
`Bytes.compareTo(a, b) == 0` is modelled as sequence equality. `GetSplitPoint`
takes values and has no `modifies` clause, so it changes no store and no
region state, and equal inputs give equal answers.

When a local-index store proposes the superclass's key, that key is still
returned if the data store the fallback picks has the same key as its own
split point (`IndexRegionSplitPolicy.java:61-72`). So the class comment's
"select split key from non local index column families always"
(`IndexRegionSplitPolicy.java:27-29`) holds in the sense that the key then
comes from a data family, not in the sense that an index store's key is
never used. `SharedKeyIsKept` proves this case, and `SplitKeyComesFromDataFamily`
states the class comment's promise in that sense.

## Model

| member | source | states |
|---|---|---|
| IndexRegionSplitPolicy.StartsWith | phoenix-core/src/main/java/org/apache/phoenix/hbase/index/IndexRegionSplitPolicy.java:50-51 | the character-by-character prefix test holds exactly when the name's first `|prefix|` characters are the prefix |
| IndexRegionSplitPolicy.SkipStoreFileRangeCheck | phoenix-core/src/main/java/org/apache/phoenix/hbase/index/IndexRegionSplitPolicy.java:34-39 | true exactly when the family name starts with the local-index prefix |
| IndexRegionSplitPolicy.SkipStoreFileRangeCheckConcat | phoenix-core/src/main/java/org/apache/phoenix/hbase/index/IndexRegionSplitPolicy.java:34-39 | every name made of the prefix followed by any suffix is a local-index family |
| IndexRegionSplitPolicy.SkipStoreFileRangeCheckSplits | phoenix-core/src/main/java/org/apache/phoenix/hbase/index/IndexRegionSplitPolicy.java:34-39 | every local-index family name is the prefix followed by the rest of the name |
| IndexRegionSplitPolicy.IndexOwned | phoenix-core/src/main/java/org/apache/phoenix/hbase/index/IndexRegionSplitPolicy.java:46-58 | the flag `isLocalIndexKey` after the first loop, read as a scan over prefixes of the stores, is true exactly when some local-index store has the key as its natural split point |
| IndexRegionSplitPolicy.CandidateIsPickedAlone | phoenix-core/src/main/java/org/apache/phoenix/hbase/index/IndexRegionSplitPolicy.java:47-66 | a store qualifies for the fallback (data family, non-null split point, size above the starting 0) exactly when the fallback would pick it as the only store |
| IndexRegionSplitPolicy.SplitPoint | phoenix-core/src/main/java/org/apache/phoenix/hbase/index/IndexRegionSplitPolicy.java:42-73 | the answer is `None` without a baseline; the baseline when no local-index store proposes it; otherwise the split point of the store `LargestDataStore` picks, or `None`. Proved: any answer other than the baseline arises only when an index store proposes the baseline, and any such key is the split point of a qualifying data store |
| IndexRegionSplitPolicy.LargestDataStore | phoenix-core/src/main/java/org/apache/phoenix/hbase/index/IndexRegionSplitPolicy.java:61-71 | a picked store is inside the sequence, is a data store, has a split point and has a positive size |
| IndexRegionSplitPolicy.GetSplitPoint | phoenix-core/src/main/java/org/apache/phoenix/hbase/index/IndexRegionSplitPolicy.java:42-73 | the two loops compute exactly the specified split key, and the method changes nothing |
| IndexRegionSplitPolicy.NoBaselineNoSplit | phoenix-core/src/main/java/org/apache/phoenix/hbase/index/IndexRegionSplitPolicy.java:43-44 | with no key from the superclass the answer is "no split" |
| IndexRegionSplitPolicy.BaselineKeptUnlessIndexOwned | phoenix-core/src/main/java/org/apache/phoenix/hbase/index/IndexRegionSplitPolicy.java:49-59 | the superclass's key is returned unchanged when no local-index store proposes it (the second ensures is the same fact read as its contrapositive) |
| IndexRegionSplitPolicy.IndexStores | phoenix-core/src/main/java/org/apache/phoenix/hbase/index/IndexRegionSplitPolicy.java:49-51 | the filtered sequence holds only local-index stores taken from the input |
| IndexRegionSplitPolicy.OwnershipIgnoresDataStores | phoenix-core/src/main/java/org/apache/phoenix/hbase/index/IndexRegionSplitPolicy.java:49-58 | the ownership check gives the same answer on the local-index stores alone, so data stores never affect it |
| IndexRegionSplitPolicy.LargestDataStoreIsFirstLargest | phoenix-core/src/main/java/org/apache/phoenix/hbase/index/IndexRegionSplitPolicy.java:61-71 | the fallback picks a store if and only if some data store has a split point and a positive size, and the one it picks has maximal size with ties going to the earliest |
| IndexRegionSplitPolicy.FirstLargestIsUnique | phoenix-core/src/main/java/org/apache/phoenix/hbase/index/IndexRegionSplitPolicy.java:66-69 | the "first of largest size" position is unique, so the fallback's choice is fully determined |
| IndexRegionSplitPolicy.IndexOwnedFallsBackToLargestDataStore | phoenix-core/src/main/java/org/apache/phoenix/hbase/index/IndexRegionSplitPolicy.java:59-72 | when an index store proposes the key, the answer is "no split" if and only if no data store qualifies, and otherwise the split point of the first largest data store |
| IndexRegionSplitPolicy.FallbackSkipsEmptyAndKeylessStores | phoenix-core/src/main/java/org/apache/phoenix/hbase/index/IndexRegionSplitPolicy.java:46-69 | in every store sequence, a store with a null split point or a size of zero or less is never picked, however large it is |
| IndexRegionSplitPolicy.ReplacedKeyComesFromDataStore | phoenix-core/src/main/java/org/apache/phoenix/hbase/index/IndexRegionSplitPolicy.java:61-72 | a replacement key is always the natural split point of some data store, never one only an index store proposes |
| IndexRegionSplitPolicy.SplitKeyComesFromDataFamily | phoenix-core/src/main/java/org/apache/phoenix/hbase/index/IndexRegionSplitPolicy.java:27-29 | whenever the answer is a key that a local-index store proposes, some data family proposes the same key, so the split key always comes from a data family |
| IndexRegionSplitPolicy.SharedKeyIsKept | phoenix-core/src/main/java/org/apache/phoenix/hbase/index/IndexRegionSplitPolicy.java:49-72 | for every region in which an index store proposes the key and the first largest data store proposes the same key, the answer is that key |
| IndexRegionSplitPolicy.IndexOnlyKeyIsReplaced | phoenix-core/src/main/java/org/apache/phoenix/hbase/index/IndexRegionSplitPolicy.java:49-72 | for every key that an index store proposes and no data store proposes, the answer is not that key, and it is some key whenever a data store qualifies |
| IndexRegionSplitPolicy.IndexOnlyRegionDoesNotSplit | phoenix-core/src/main/java/org/apache/phoenix/hbase/index/IndexRegionSplitPolicy.java:59-72 | for every region whose stores all belong to local indexes, an index-owned key gives "no split" |
| IndexRegionSplitPolicy.TieGoesToFirstStore | phoenix-core/src/main/java/org/apache/phoenix/hbase/index/IndexRegionSplitPolicy.java:66-69 | of any two qualifying data stores of equal size, the later one is never picked |
| IndexRegionSplitPolicy.KeylessLargeStoreIsSkipped | phoenix-core/src/main/java/org/apache/phoenix/hbase/index/IndexRegionSplitPolicy.java:64-69 | when an index store proposes the key, a data store without a split point is never picked, whatever its size, and any qualifying data store, even a smaller one, still yields a key |
| IndexRegionSplitPolicy.SharedKeyExample | phoenix-core/src/main/java/org/apache/phoenix/hbase/index/IndexRegionSplitPolicy.java:49-72 | on the stores d/100/[1] and idx_d/50/[1] with prefix "idx_", the key [1] proposed by both is the answer |
| IndexRegionSplitPolicy.IndexOwnedConcat | phoenix-core/src/main/java/org/apache/phoenix/hbase/index/IndexRegionSplitPolicy.java:49-58 | an index store proposes the key in a concatenation of two store runs exactly when it does in one of the runs |

## Left out

- `super.getSplitPoint()` of HBase's `IncreasingToUpperBoundRegionSplitPolicy` is foreign code; its result is the input `oldSplitPoint`.
- `region.getStores()`, `Store.getSplitPoint()`, `Store.getSize()` and `getFamily().getNameAsString()` are HBase internals; they are the fields of `Store`, and the store map is a sequence in its iteration order.
- The value of `QueryConstants.LOCAL_INDEX_COLUMN_FAMILY_PREFIX` is defined elsewhere; it is the parameter `localIndexPrefix`.
- `Bytes.compareTo` is only tested for 0, which holds exactly for equal byte arrays; the model uses equality and does not model the ordering.
- The test `oldSplitPoint != null` inside the first loop is always true there, since line 44 has already returned on null; the model leaves it out.
- When a split is triggered (the superclass's size and age thresholds) is not part of this code.
