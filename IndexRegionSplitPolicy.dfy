/**
  Split-key selection for regions that hold local-index column families.

  A region is backed by one store per column family. When the generic,
  size-based policy proposes a split key, this policy checks whether that key
  is the natural split point of a local-index family; if so the key is
  replaced by the split point of the largest data (non-index) store, or by no
  split at all when no data store can supply one.
*/
module IndexRegionSplitPolicy {
  import opened Wrappers

  /** A row key: the raw bytes of a Java `byte[]`. */
  type Key = seq<bv8>

  /** A Java `long`. Store sizes are only compared, never added, so no wrap-around arises. */
  newtype Long = x: int | -0x8000_0000_0000_0000 <= x < 0x8000_0000_0000_0000

  /**
    A read-only snapshot of one store: the name of its column family, its size
    and its own natural split point, which is `None` where HBase returns null.
  */
  datatype Store = Store(family: string, size: Long, splitPoint: Option<Key>)

  // ---------------------------------------------------------------------------
  // Family roles
  // ---------------------------------------------------------------------------

  /** `String.startsWith`, compared character by character. */
  function StartsWith(s: string, prefix: string): (r: bool)
    ensures r <==> |prefix| <= |s| && s[..|prefix|] == prefix
  {
    if prefix == [] then true
    else if s == [] then false
    else
      assert |prefix| <= |s| ==> s[..|prefix|] == [s[0]] + s[1..][..|prefix| - 1];
      assert prefix == [prefix[0]] + prefix[1..];
      s[0] == prefix[0] && StartsWith(s[1..], prefix[1..])
  }

  /**
    True exactly for the families of local indexes, whose names carry the
    local-index family prefix; such stores are exempt from the store-file
    range check.
  */
  function SkipStoreFileRangeCheck(familyName: string, localIndexPrefix: string): (r: bool)
    ensures r <==> |localIndexPrefix| <= |familyName|
                   && familyName[..|localIndexPrefix|] == localIndexPrefix
  {
    if StartsWith(familyName, localIndexPrefix) then true else false
  }

  /** Every name made of the prefix and some suffix is a local-index family name. */
  lemma SkipStoreFileRangeCheckConcat(prefix: string, suffix: string)
    ensures SkipStoreFileRangeCheck(prefix + suffix, prefix)
  {
  }

  /** Conversely, a local-index family name is the prefix followed by the rest of the name. */
  lemma SkipStoreFileRangeCheckSplits(familyName: string, prefix: string)
    requires SkipStoreFileRangeCheck(familyName, prefix)
    ensures familyName == prefix + familyName[|prefix|..]
  {
  }

  /** The role of a store: it belongs to a local index when its family name carries the prefix. */
  predicate IsIndexStore(s: Store, localIndexPrefix: string)
  {
    SkipStoreFileRangeCheck(s.family, localIndexPrefix)
  }

  // ---------------------------------------------------------------------------
  // Specification of the selection
  // ---------------------------------------------------------------------------

  /**
    The ownership flag after scanning `stores` in order: it becomes true at the
    first local-index store whose natural split point is `key`, and stays true.
  */
  predicate IndexOwned(stores: seq<Store>, localIndexPrefix: string, key: Key)
    ensures IndexOwned(stores, localIndexPrefix, key) <==>
              exists i :: 0 <= i < |stores| && IsIndexStore(stores[i], localIndexPrefix)
                          && stores[i].splitPoint == Some(key)
    decreases |stores|
  {
    if stores == [] then false
    else
      var init, last := stores[..|stores| - 1], stores[|stores| - 1];
      assert forall i :: 0 <= i < |init| ==> init[i] == stores[i];
      IndexOwned(init, localIndexPrefix, key)
      || (IsIndexStore(last, localIndexPrefix) && last.splitPoint == Some(key))
  }

  /** A store that the fallback may pick: a data store with a split point and a positive size. */
  predicate IsCandidate(s: Store, localIndexPrefix: string)
  {
    !IsIndexStore(s, localIndexPrefix) && s.splitPoint.Some? && s.size > 0
  }

  /**
    Position of the store the fallback picks among `stores`, read in order: a
    later candidate displaces the current pick only when it is strictly larger.
  */
  function LargestDataStore(stores: seq<Store>, localIndexPrefix: string): (r: Option<nat>)
    ensures r.Some? ==> r.value < |stores| && IsCandidate(stores[r.value], localIndexPrefix)
    decreases |stores|
  {
    if stores == [] then None
    else
      var prev := LargestDataStore(stores[..|stores| - 1], localIndexPrefix);
      var last := stores[|stores| - 1];
      if IsCandidate(last, localIndexPrefix)
         && (prev.None? || stores[prev.value].size < last.size)
      then Some(|stores| - 1)
      else prev
  }

  /**
    A store qualifies for the fallback exactly when, alone in a region, the
    fallback would pick it: a data store with a split point whose size beats
    the starting size 0.
  */
  lemma CandidateIsPickedAlone(s: Store, localIndexPrefix: string)
    ensures IsCandidate(s, localIndexPrefix) <==> LargestDataStore([s], localIndexPrefix) == Some(0)
  {
    assert [s][..0] == [];
  }

  /**
    The split key the policy answers with, `None` meaning "do not split": the
    answer is the baseline or a key some data store proposes, and the baseline
    is only ever set aside when a local-index store proposes it.
  */
  function SplitPoint(baseline: Option<Key>, stores: seq<Store>, localIndexPrefix: string): (r: Option<Key>)
    ensures baseline.None? ==> r.None?
    ensures r != baseline ==> IndexOwned(stores, localIndexPrefix, baseline.value)
    ensures r.Some? && r != baseline ==>
              exists j :: 0 <= j < |stores| && IsCandidate(stores[j], localIndexPrefix)
                          && stores[j].splitPoint == r
  {
    match baseline
    case None => None
    case Some(key) =>
      if !IndexOwned(stores, localIndexPrefix, key) then baseline
      else
        match LargestDataStore(stores, localIndexPrefix)
        case None => None
        case Some(k) => stores[k].splitPoint
  }

  // ---------------------------------------------------------------------------
  // The policy itself
  // ---------------------------------------------------------------------------

  /**
    `getSplitPoint`: `oldSplitPoint` is the superclass's choice and `stores` the
    region's stores in the order the region's store map yields them.
  */
  method GetSplitPoint(oldSplitPoint: Option<Key>, stores: seq<Store>, localIndexPrefix: string)
    returns (r: Option<Key>)
    ensures r == SplitPoint(oldSplitPoint, stores, localIndexPrefix)
  {
    if oldSplitPoint.None? {
      return None;
    }
    var splitPointFromLargestStore: Option<Key> := None;
    var largestStoreSize: Long := 0;
    var isLocalIndexKey := false;
    for i := 0 to |stores|
      invariant isLocalIndexKey <==> IndexOwned(stores[..i], localIndexPrefix, oldSplitPoint.value)
    {
      var s := stores[i];
      if StartsWith(s.family, localIndexPrefix) {
        var splitPoint := s.splitPoint;
        if splitPoint.Some? && oldSplitPoint.value == splitPoint.value {
          isLocalIndexKey := true;
        }
      }
      assert stores[..i + 1][..i] == stores[..i];
    }
    assert stores[..|stores|] == stores;
    if !isLocalIndexKey {
      return oldSplitPoint;
    }

    for i := 0 to |stores|
      invariant LargestDataStore(stores[..i], localIndexPrefix).None? ==>
                  splitPointFromLargestStore == None && largestStoreSize == 0
      invariant LargestDataStore(stores[..i], localIndexPrefix).Some? ==>
                  var k := LargestDataStore(stores[..i], localIndexPrefix).value;
                  splitPointFromLargestStore == stores[k].splitPoint && largestStoreSize == stores[k].size
    {
      var s := stores[i];
      if !StartsWith(s.family, localIndexPrefix) {
        var splitPoint := s.splitPoint;
        var storeSize := s.size;
        if splitPoint.Some? && largestStoreSize < storeSize {
          splitPointFromLargestStore := splitPoint;
          largestStoreSize := storeSize;
        }
      }
      assert stores[..i + 1][..i] == stores[..i];
    }
    r := splitPointFromLargestStore;
  }

  // ---------------------------------------------------------------------------
  // Properties
  // ---------------------------------------------------------------------------

  /** `k` is the first store of maximal size among the candidates. */
  ghost predicate IsFirstLargest(stores: seq<Store>, localIndexPrefix: string, k: nat)
  {
    && k < |stores|
    && IsCandidate(stores[k], localIndexPrefix)
    && (forall j :: 0 <= j < |stores| && IsCandidate(stores[j], localIndexPrefix) ==>
          stores[j].size <= stores[k].size)
    && (forall j :: 0 <= j < k && IsCandidate(stores[j], localIndexPrefix) ==>
          stores[j].size < stores[k].size)
  }

  /**
    The fallback picks a store exactly when some candidate exists, and the
    store it picks is the first one of largest size among the candidates.
  */
  lemma {:induction false} LargestDataStoreIsFirstLargest(stores: seq<Store>, localIndexPrefix: string)
    ensures LargestDataStore(stores, localIndexPrefix).None? <==>
              forall j :: 0 <= j < |stores| ==> !IsCandidate(stores[j], localIndexPrefix)
    ensures LargestDataStore(stores, localIndexPrefix).Some? ==>
              IsFirstLargest(stores, localIndexPrefix, LargestDataStore(stores, localIndexPrefix).value)
    decreases |stores|
  {
    if stores != [] {
      var init := stores[..|stores| - 1];
      LargestDataStoreIsFirstLargest(init, localIndexPrefix);
      assert forall j :: 0 <= j < |init| ==> init[j] == stores[j];
    }
  }

  /** At most one position is the first largest candidate. */
  lemma FirstLargestIsUnique(stores: seq<Store>, localIndexPrefix: string, k1: nat, k2: nat)
    requires IsFirstLargest(stores, localIndexPrefix, k1)
    requires IsFirstLargest(stores, localIndexPrefix, k2)
    ensures k1 == k2
  {
  }

  /** Without a split key from the superclass there is no split. */
  lemma NoBaselineNoSplit(stores: seq<Store>, localIndexPrefix: string)
    ensures SplitPoint(None, stores, localIndexPrefix) == None
  {
  }

  /** A key that no local-index store proposes is kept unchanged. */
  lemma BaselineKeptUnlessIndexOwned(key: Key, stores: seq<Store>, localIndexPrefix: string)
    ensures !IndexOwned(stores, localIndexPrefix, key) ==>
              SplitPoint(Some(key), stores, localIndexPrefix) == Some(key)
    ensures SplitPoint(Some(key), stores, localIndexPrefix) != Some(key) ==>
              IndexOwned(stores, localIndexPrefix, key)
  {
  }

  /** The local-index stores of `stores`, in order. */
  function IndexStores(stores: seq<Store>, localIndexPrefix: string): (r: seq<Store>)
    ensures forall s :: s in r ==> s in stores && IsIndexStore(s, localIndexPrefix)
  {
    if stores == [] then []
    else if IsIndexStore(stores[0], localIndexPrefix)
    then [stores[0]] + IndexStores(stores[1..], localIndexPrefix)
    else IndexStores(stores[1..], localIndexPrefix)
  }

  /** Ownership over two runs of stores is ownership over either run. */
  lemma IndexOwnedConcat(a: seq<Store>, b: seq<Store>, localIndexPrefix: string, key: Key)
    ensures IndexOwned(a + b, localIndexPrefix, key) <==>
              IndexOwned(a, localIndexPrefix, key) || IndexOwned(b, localIndexPrefix, key)
  {
    if IndexOwned(a + b, localIndexPrefix, key) {
      var i :| 0 <= i < |a + b| && IsIndexStore((a + b)[i], localIndexPrefix)
               && (a + b)[i].splitPoint == Some(key);
      if i >= |a| {
        assert (a + b)[i] == b[i - |a|];
      }
    }
    if IndexOwned(a, localIndexPrefix, key) {
      var i :| 0 <= i < |a| && IsIndexStore(a[i], localIndexPrefix) && a[i].splitPoint == Some(key);
      assert (a + b)[i] == a[i];
    }
    if IndexOwned(b, localIndexPrefix, key) {
      var i :| 0 <= i < |b| && IsIndexStore(b[i], localIndexPrefix) && b[i].splitPoint == Some(key);
      assert (a + b)[|a| + i] == b[i];
    }
  }

  /** The ownership check looks at the local-index stores only: data stores never affect it. */
  lemma {:induction false} OwnershipIgnoresDataStores(stores: seq<Store>, localIndexPrefix: string, key: Key)
    ensures IndexOwned(stores, localIndexPrefix, key) <==>
              IndexOwned(IndexStores(stores, localIndexPrefix), localIndexPrefix, key)
  {
    if stores != [] {
      var head := [stores[0]];
      var headIndex := if IsIndexStore(stores[0], localIndexPrefix) then head else [];
      OwnershipIgnoresDataStores(stores[1..], localIndexPrefix, key);
      assert stores == head + stores[1..];
      IndexOwnedConcat(head, stores[1..], localIndexPrefix, key);
      assert IndexStores(stores, localIndexPrefix) == headIndex + IndexStores(stores[1..], localIndexPrefix);
      IndexOwnedConcat(headIndex, IndexStores(stores[1..], localIndexPrefix), localIndexPrefix, key);
    }
  }

  /**
    When a local-index store proposes the superclass's key, the answer comes
    from the data stores only: it is "no split" exactly when no data store has
    a split point and a positive size, and otherwise the split point of the
    first largest such store, which is a data store.
  */
  lemma IndexOwnedFallsBackToLargestDataStore(key: Key, stores: seq<Store>, localIndexPrefix: string)
    requires IndexOwned(stores, localIndexPrefix, key)
    ensures SplitPoint(Some(key), stores, localIndexPrefix).None? <==>
              forall j :: 0 <= j < |stores| ==> !IsCandidate(stores[j], localIndexPrefix)
    ensures SplitPoint(Some(key), stores, localIndexPrefix).Some? ==>
              exists k: nat :: IsFirstLargest(stores, localIndexPrefix, k)
                          && !IsIndexStore(stores[k], localIndexPrefix)
                          && stores[k].splitPoint == SplitPoint(Some(key), stores, localIndexPrefix)
  {
    LargestDataStoreIsFirstLargest(stores, localIndexPrefix);
  }

  /**
    No store with a null split point and no store of size zero or less is
    ever the source of a replaced split key, however large it is.
  */
  lemma FallbackSkipsEmptyAndKeylessStores(stores: seq<Store>, localIndexPrefix: string, j: nat)
    requires j < |stores|
    requires stores[j].splitPoint.None? || stores[j].size <= 0
    ensures forall k :: IsFirstLargest(stores, localIndexPrefix, k) ==> k != j
    ensures LargestDataStore(stores, localIndexPrefix) != Some(j)
  {
  }

  /**
    A split key that the fallback returns is the natural split point of some
    data store; an index store's key is returned only if a data store
    proposes the same key.
  */
  lemma ReplacedKeyComesFromDataStore(key: Key, stores: seq<Store>, localIndexPrefix: string)
    requires IndexOwned(stores, localIndexPrefix, key)
    ensures var r := SplitPoint(Some(key), stores, localIndexPrefix);
            r.Some? ==> exists k :: 0 <= k < |stores| && !IsIndexStore(stores[k], localIndexPrefix)
                                    && stores[k].splitPoint == r
  {
  }

  /**
    Whatever key the policy answers with while a local-index store proposes
    that same key, some data family proposes it too: the split key always
    comes from a data family.
  */
  lemma SplitKeyComesFromDataFamily(baseline: Option<Key>, stores: seq<Store>, localIndexPrefix: string, k: Key)
    requires SplitPoint(baseline, stores, localIndexPrefix) == Some(k)
    requires IndexOwned(stores, localIndexPrefix, k)
    ensures exists j :: 0 <= j < |stores| && !IsIndexStore(stores[j], localIndexPrefix)
                        && stores[j].splitPoint == Some(k)
  {
    ReplacedKeyComesFromDataStore(baseline.value, stores, localIndexPrefix);
  }

  // ---------------------------------------------------------------------------
  // Consequences for particular shapes of region
  // ---------------------------------------------------------------------------

  /**
    A key that an index store proposes is still the answer when the data
    store the fallback picks proposes the same key.
  */
  lemma SharedKeyIsKept(key: Key, stores: seq<Store>, localIndexPrefix: string, k: nat)
    requires IndexOwned(stores, localIndexPrefix, key)
    requires IsFirstLargest(stores, localIndexPrefix, k)
    requires stores[k].splitPoint == Some(key)
    ensures SplitPoint(Some(key), stores, localIndexPrefix) == Some(key)
  {
    LargestDataStoreIsFirstLargest(stores, localIndexPrefix);
    FirstLargestIsUnique(stores, localIndexPrefix, k, LargestDataStore(stores, localIndexPrefix).value);
  }

  /**
    A key that an index store proposes and no data store proposes is never
    the answer: it becomes "no split" or another data store's key.
  */
  lemma IndexOnlyKeyIsReplaced(key: Key, stores: seq<Store>, localIndexPrefix: string)
    requires IndexOwned(stores, localIndexPrefix, key)
    requires forall j :: 0 <= j < |stores| && !IsIndexStore(stores[j], localIndexPrefix) ==>
               stores[j].splitPoint != Some(key)
    ensures SplitPoint(Some(key), stores, localIndexPrefix) != Some(key)
    ensures (exists j :: 0 <= j < |stores| && IsCandidate(stores[j], localIndexPrefix)) ==>
              SplitPoint(Some(key), stores, localIndexPrefix).Some?
  {
    LargestDataStoreIsFirstLargest(stores, localIndexPrefix);
  }

  /** A region whose stores all belong to local indexes never splits at an index-owned key. */
  lemma IndexOnlyRegionDoesNotSplit(key: Key, stores: seq<Store>, localIndexPrefix: string)
    requires IndexOwned(stores, localIndexPrefix, key)
    requires forall j :: 0 <= j < |stores| ==> IsIndexStore(stores[j], localIndexPrefix)
    ensures SplitPoint(Some(key), stores, localIndexPrefix) == None
  {
    IndexOwnedFallsBackToLargestDataStore(key, stores, localIndexPrefix);
  }

  /** Of two candidates of equal size, the later one is never picked. */
  lemma TieGoesToFirstStore(stores: seq<Store>, localIndexPrefix: string, i: nat, j: nat)
    requires i < j < |stores|
    requires IsCandidate(stores[i], localIndexPrefix) && IsCandidate(stores[j], localIndexPrefix)
    requires stores[i].size == stores[j].size
    ensures LargestDataStore(stores, localIndexPrefix) != Some(j)
  {
    LargestDataStoreIsFirstLargest(stores, localIndexPrefix);
  }

  /**
    A data store without a split point does not block the fallback, however
    large it is: any candidate, even a smaller one, still yields a key.
  */
  lemma KeylessLargeStoreIsSkipped(key: Key, stores: seq<Store>, localIndexPrefix: string, big: nat, j: nat)
    requires IndexOwned(stores, localIndexPrefix, key)
    requires big < |stores| && stores[big].splitPoint.None?
    requires j < |stores| && IsCandidate(stores[j], localIndexPrefix)
    ensures LargestDataStore(stores, localIndexPrefix) != Some(big)
    ensures SplitPoint(Some(key), stores, localIndexPrefix).Some?
  {
    LargestDataStoreIsFirstLargest(stores, localIndexPrefix);
  }

  /** The worked case of a key shared by the only data store and an index store. */
  lemma SharedKeyExample()
    ensures SplitPoint(Some([1]), [Store("d", 100, Some([1])), Store("idx_d", 50, Some([1]))], "idx_")
            == Some([1])
  {
    var stores := [Store("d", 100, Some([1])), Store("idx_d", 50, Some([1]))];
    assert IsIndexStore(stores[1], "idx_");
    assert IndexOwned(stores, "idx_", [1]);
    assert !IsIndexStore(stores[0], "idx_");
  }
}
