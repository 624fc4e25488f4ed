/** The cache of orbit maps: an LRU whose budget is in bytes. */
module OrbitMapCache {
  import opened FiniteSets
  import opened RowMajor
  import opened AxisActions
  import opened RecencyStack
  import CanonicalMap

  datatype CacheInfo = CacheInfo(hits: nat, misses: nat, maxsize: int, currsize: nat)

  /**
   * An insertion-ordered dict is a map plus the order of its keys. Hits reinsert, so the order is that
   * of last use, oldest first. `history` records the requests since the last clear.
   */
  class Cache {
    var order: seq<Key>
    var entries: map<Key, seq<nat>>
    const maxBytes: int
    var bytes: nat
    var hits: nat
    var misses: nat
    ghost var history: seq<Key>

    /** The dict and its order agree, every map is fresh, and the byte count is the sum of sizes. */
    ghost predicate Consistent()
      reads this
    {
      && Distinct(order) && entries.Keys == (set k | k in order)
      && (forall k :: k in entries ==> Fresh(k, entries[k]))
      && bytes == TotalBytes(order)
    }

    /** The contents and counters are what the request history says they should be. */
    ghost predicate Valid()
      reads this
    {
      && Consistent()
      && order == Resident(history, maxBytes)
      && hits == HitCount(history, maxBytes)
      && hits + misses == |history|
    }

    /** A retained map is the one a new build would produce. */
    static ghost predicate Fresh(k: Key, mapping: seq<nat>) {
      ValidAction(k.shape, k.action) && mapping == CanonicalMap.OrbitMap(k.shape, k.action)
    }

    constructor (maxBytes: int)
      ensures Valid() && history == [] && this.maxBytes == maxBytes
    {
      order, entries := [], map[];
      this.maxBytes := maxBytes;
      bytes, hits, misses, history := 0, 0, 0, [];
    }

    method Get(shape: Shape, action: Action) returns (mapping: seq<nat>)
      requires Valid() && ValidAction(shape, action)
      modifies this
      ensures Valid()
      ensures mapping == CanonicalMap.OrbitMap(shape, action)
      ensures history == old(history) + [Key(shape, action)]
      ensures Bytes(Key(shape, action)) <= maxBytes ==> Key(shape, action) in entries
      ensures Bytes(Key(shape, action)) > maxBytes ==> order == old(order) && entries == old(entries)
    {
      var key := Key(shape, action);
      if key in entries {
        mapping := Refresh(key);
      } else {
        mapping := Build(key);
      }
    }

    /** A hit: reinsert the entry at the recent end. */
    method Refresh(key: Key) returns (mapping: seq<nat>)
      requires Valid() && key in entries
      modifies this`order, this`hits, this`history
      ensures Valid() && history == old(history) + [key]
      ensures mapping == entries[key] && Bytes(key) <= maxBytes
    {
      hide Resident, HitCount, TotalBytes;
      ResidentFits(history, key, maxBytes);
      ResidentAfterHit(history, key, maxBytes);
      ResidentDistinct(history + [key], maxBytes);
      TouchKeepsBytes(order, key);
      HitCountStep(history, key, maxBytes);
      mapping := entries[key];
      order := Touch(order, key);
      hits := hits + 1;
      history := history + [key];
    }

    /** A miss: build the map, and keep it unless it alone is larger than the whole budget. */
    method Build(key: Key) returns (mapping: seq<nat>)
      requires Valid() && key !in entries && ValidAction(key.shape, key.action)
      modifies this
      ensures Valid() && history == old(history) + [key]
      ensures Fresh(key, mapping)
      ensures Bytes(key) <= maxBytes ==> key in entries
      ensures Bytes(key) > maxBytes ==> order == old(order) && entries == old(entries)
    {
      hide Valid, Consistent, ValidAction;
      ghost var rounds;
      mapping, rounds := CanonicalMap.BuildCanonicalMap(key.shape, key.action);
      if INTP_BYTES * |mapping| <= maxBytes {
        Keep(key, mapping);
      } else {
        Skip(key);
      }
    }

    method Keep(key: Key, mapping: seq<nat>)
      requires Valid() && key !in entries && Fresh(key, mapping) && Bytes(key) <= maxBytes
      modifies this
      ensures Valid() && history == old(history) + [key] && key in entries
    {
      hide Resident, HitCount, TotalBytes;
      ResidentAfterMiss(history, key, maxBytes);
      HitCountStep(history, key, maxBytes);
      misses := misses + 1;
      Insert(key, mapping);
      history := history + [key];
    }

    method Skip(key: Key)
      requires Valid() && key !in entries && Bytes(key) > maxBytes
      modifies this`misses, this`history
      ensures Valid() && history == old(history) + [key]
    {
      hide Resident, HitCount, TotalBytes;
      ResidentAfterOversized(history, key, maxBytes);
      HitCountStep(history, key, maxBytes);
      misses := misses + 1;
      history := history + [key];
    }

    /** Append a new entry, then drop the least recently used ones until the budget is met. */
    method Insert(key: Key, mapping: seq<nat>)
      requires Consistent() && key !in entries && Fresh(key, mapping) && Bytes(key) <= maxBytes
      modifies this`order, this`entries, this`bytes
      ensures Consistent() && order == LongestSuffix(old(order) + [key], maxBytes) && key in order
    {
      Append(key, mapping);
      hide TotalBytes, Fresh, Distinct, Bytes;
      ghost var all := order;
      while bytes > maxBytes
        invariant Consistent() && order != [] && order[|order| - 1] == key
        invariant LongestSuffix(order, maxBytes) == LongestSuffix(all, maxBytes)
        decreases |order|
      {
        SingleEntryFits(order, key, maxBytes);
        EvictOldest();
      }
    }

    method Append(key: Key, mapping: seq<nat>)
      requires Consistent() && key !in entries && Fresh(key, mapping)
      modifies this`order, this`entries, this`bytes
      ensures Consistent() && order == old(order) + [key]
    {
      assert [key][1..] == [];
      TotalBytesConcat(order, [key]);
      ConsDistinct(key, order);
      entries := entries[key := mapping];
      order := order + [key];
      bytes := bytes + INTP_BYTES * |mapping|;
    }

    method EvictOldest()
      requires Consistent() && order != []
      modifies this`order, this`entries, this`bytes
      ensures Consistent() && order == old(order)[1..] && bytes == old(bytes) - Bytes(old(order)[0])
    {
      var oldest := order[0];
      var evicted := entries[oldest];
      assert forall k :: k in order[1..] <==> k in order && k != oldest;
      entries := entries - {oldest};
      order := order[1..];
      bytes := bytes - INTP_BYTES * |evicted|;
    }

    method Clear()
      modifies this
      ensures Valid() && history == [] && order == [] && entries == map[]
    {
      order, entries := [], map[];
      bytes, hits, misses, history := 0, 0, 0, [];
    }

    method Info() returns (info: CacheInfo)
      requires Valid()
      ensures info == CacheInfo(HitCount(history, maxBytes), |history| - HitCount(history, maxBytes),
                                maxBytes, |Resident(history, maxBytes)|)
    {
      DistinctCount(order);
      assert entries.Keys == Members(order);
      info := CacheInfo(hits, misses, maxBytes, |entries|);
    }
  }

  lemma SingleEntryFits(s: seq<Key>, k: Key, budget: int)
    requires s != [] && s[|s| - 1] == k && Bytes(k) <= budget < TotalBytes(s)
    ensures |s| > 1
  {
    assert s[1..] == [] ==> TotalBytes(s) == Bytes(s[0]);
  }

  lemma HitCountStep(history: seq<Key>, k: Key, budget: int)
    ensures HitCount(history + [k], budget)
         == HitCount(history, budget) + (if k in Resident(history, budget) then 1 else 0)
  {
    assert (history + [k])[..|history|] == history;
  }

  /** The retained bytes never exceed the budget. */
  lemma ResidentBytesFit(history: seq<Key>, budget: int)
    ensures var kept := Resident(history, budget);
            kept == [] || TotalBytes(kept) <= budget
  {
    LongestSuffixIsFittingSuffix(Fitting(Recency(history), budget), budget);
  }
}
