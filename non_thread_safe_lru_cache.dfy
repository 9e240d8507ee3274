// The library's NonThreadSafeLruCache: an LRU cache over an access-ordered
// LinkedHashMap with a running size kept beside it.
module NonThreadSafeCache {
  import opened Common
  import opened LruCacheSpec

  class NonThreadSafeLruCache<K(==), V> {
    /** mSize: the running sum of sizeOf over the entries. */
    var size: int
    /** mMaxSize: -1 once the cache is closed. */
    var maxSize: int
    /** The helper's sizeOf and create hooks. */
    const sizeOf: (K, V) -> int
    const create: K -> Option<V>
    /** mMap in iteration order: eldest first, most recently used last. */
    var entries: seq<Pair<K, V>>
    /** Every onEntryAdded / onEntryRemoved call made so far, in order. */
    var events: seq<Event<K, V>>

    /** What the map itself guarantees. */
    ghost predicate Valid()
      reads this
    {
      DistinctKeys(entries)
    }

    /** mSize agrees with the entries: the state trimToSize checks for. It
        holds from construction on and is lost only when sizeOf reports a
        negative weight for a value already inserted into the map. */
    ghost predicate Consistent()
      reads this
    {
      size == Weight(entries, sizeOf) && WeightsNonNegative(entries, sizeOf)
    }

    constructor (maxSize: int, sizeOf: (K, V) -> int, create: K -> Option<V>)
      requires maxSize > 0
      ensures Valid() && Consistent()
      ensures this.maxSize == maxSize && this.sizeOf == sizeOf && this.create == create
      ensures entries == [] && events == [] && size == 0
    {
      this.size := 0;
      this.maxSize := maxSize;
      this.sizeOf := sizeOf;
      this.create := create;
      this.entries := [];
      this.events := [];
    }

    /** Evicts eldest entries until the size is at most limit or nothing is
        left; limit -1 evicts the zero-sized ones too. On a consistent cache
        it evicts exactly Evicted(entries) entries and never throws. */
    method TrimToSize(limit: int) returns (r: Outcome)
      requires Valid()
      modifies this
      ensures Valid() && maxSize == old(maxSize)
      ensures |entries| <= |old(entries)| && entries == old(entries)[|old(entries)| - |entries|..]
      ensures old(Consistent()) ==>
        var n := Evicted(old(entries), sizeOf, limit);
        r == Normal && Consistent() && entries == old(entries)[n..]
        && events == old(events) + Evictions(old(entries)[..n])
      ensures old(Consistent()) ==> size <= limit || entries == []
    {
      ghost var s0 := entries;
      ghost var consistent := Consistent();
      ghost var i := 0;
      while true
        invariant 0 <= i <= |s0| && entries == s0[i..]
        invariant Valid() && maxSize == old(maxSize)
        invariant consistent ==> Consistent() && events == old(events) + Evictions(s0[..i])
        invariant consistent ==> Evicted(s0, sizeOf, limit) == i + Evicted(entries, sizeOf, limit)
        decreases |entries|
      {
        if consistent {
          WeightNonNegative(entries, sizeOf);
        }
        if size < 0 || (|entries| == 0 && size != 0) {
          return Thrown(IllegalState);
        }
        if size <= limit || |entries| == 0 {
          break;
        }
        var eldest := entries[0];
        SuffixInvariant(s0, sizeOf, i);
        if consistent {
          EvictedStep(s0, sizeOf, limit, i);
          EvictionsStep(s0, i);
        }
        entries := entries[1..];
        var w := sizeOf(eldest.key, eldest.value);
        if w < 0 {
          return Thrown(IllegalState);
        }
        size := size - w;
        events := events + [EntryRemoved(true, eldest.key, eldest.value, None)];
        i := i + 1;
      }
      return Normal;
    }

    /** Caches value under key as the most recently used entry and trims to
        maxSize. A negative weight throws after onEntryAdded and before any
        change to the map. */
    method Put(key: K, value: V) returns (r: Result<Option<V>>)
      requires Valid()
      modifies this
      ensures Valid() && maxSize == old(maxSize)
      ensures sizeOf(key, value) < 0 ==>
        r == Err(IllegalState) && entries == old(entries) && size == old(size)
        && events == old(events) + [EntryAdded(key, value)]
      ensures old(Consistent()) && sizeOf(key, value) >= 0 ==>
        var previous := Lookup(old(entries), key);
        var s := PutLast(old(entries), key, value);
        var n := Evicted(s, sizeOf, maxSize);
        r == Ok(previous) && Consistent() && entries == s[n..]
        && events == old(events) + [EntryAdded(key, value)] + Replacement(key, previous, value)
                     + Evictions(s[..n])
        && (size <= maxSize || entries == [])
    {
      events := events + [EntryAdded(key, value)];
      var w := sizeOf(key, value);
      if w < 0 {
        return Err(IllegalState);
      }
      ghost var consistent := Consistent();
      size := size + w;
      var previous := Lookup(entries, key);
      PutLastProps(entries, key, value);
      if consistent {
        WeightPutLast(entries, key, value, sizeOf);
        PutLastNonNegative(entries, key, value, sizeOf);
        if previous.Some? {
          LookupSome(entries, key);
        }
      }
      entries := PutLast(entries, key, value);
      if previous.Some? {
        var pw := sizeOf(key, previous.value);
        if pw < 0 {
          return Err(IllegalState);
        }
        size := size - pw;
        events := events + [EntryRemoved(false, key, previous.value, Some(value))];
      }
      var trimmed := TrimToSize(maxSize);
      if trimmed.Thrown? {
        return Err(trimmed.exception);
      }
      return Ok(previous);
    }

    /** Returns the cached value, moving it to the most recently used end, or
        else the helper's created value, inserted and trimmed. No
        onEntryAdded is called for a created value; a created value with a
        negative weight stays in the map while mSize leaves it out. */
    method Get(key: K) returns (r: Result<Option<V>>)
      requires Valid()
      modifies this
      ensures Valid() && maxSize == old(maxSize)
      ensures Lookup(old(entries), key).Some? ==>
        r == Ok(Lookup(old(entries), key))
        && entries == PutLast(old(entries), key, Lookup(old(entries), key).value)
        && size == old(size) && events == old(events)
        && (old(Consistent()) ==> Consistent())
      ensures Lookup(old(entries), key).None? && create(key).None? ==>
        r == Ok(None) && entries == old(entries) && size == old(size) && events == old(events)
      ensures Lookup(old(entries), key).None? && create(key).Some?
              && sizeOf(key, create(key).value) < 0 ==>
        r == Err(IllegalState) && entries == old(entries) + [Pair(key, create(key).value)]
        && size == old(size) && events == old(events)
      ensures Lookup(old(entries), key).None? && create(key).Some?
              && sizeOf(key, create(key).value) >= 0 && old(Consistent()) ==>
        var s := old(entries) + [Pair(key, create(key).value)];
        var n := Evicted(s, sizeOf, maxSize);
        r == Ok(Some(create(key).value)) && Consistent() && entries == s[n..]
        && events == old(events) + Evictions(s[..n])
        && (size <= maxSize || entries == [])
    {
      var mapValue := Lookup(entries, key);
      if mapValue.Some? {
        PutLastProps(entries, key, mapValue.value);
        if Consistent() {
          WeightPutLast(entries, key, mapValue.value, sizeOf);
          LookupSome(entries, key);
          PutLastNonNegative(entries, key, mapValue.value, sizeOf);
        }
        entries := PutLast(entries, key, mapValue.value);
        return Ok(mapValue);
      }
      var createdValue := create(key);
      if createdValue.None? {
        return Ok(None);
      }
      ghost var consistent := Consistent();
      LookupNone(entries, key);
      RemoveKeyProps(entries, key);
      PutLastProps(entries, key, createdValue.value);
      // The map held no value for key: Assert.assertNull cannot fail here.
      assert Lookup(entries, key) == None;
      var w := sizeOf(key, createdValue.value);
      if consistent && w >= 0 {
        WeightPutLast(entries, key, createdValue.value, sizeOf);
        PutLastNonNegative(entries, key, createdValue.value, sizeOf);
      }
      entries := entries + [Pair(key, createdValue.value)];
      if w < 0 {
        return Err(IllegalState);
      }
      size := size + w;
      var trimmed := TrimToSize(maxSize);
      if trimmed.Thrown? {
        return Err(trimmed.exception);
      }
      return Ok(createdValue);
    }

    /** Removes key's entry, if any, and reports it to onEntryRemoved. */
    method Remove(key: K) returns (r: Result<Option<V>>)
      requires Valid()
      modifies this
      ensures Valid() && maxSize == old(maxSize)
      ensures old(Consistent()) ==>
        var previous := Lookup(old(entries), key);
        r == Ok(previous) && Consistent() && entries == RemoveKey(old(entries), key)
        && NoKey(entries, key)
        && events == old(events) + (if previous.Some?
                                    then [EntryRemoved(false, key, previous.value, None)]
                                    else [])
    {
      var previous := Lookup(entries, key);
      ghost var consistent := Consistent();
      RemoveKeyDistinct(entries, key);
      RemoveKeyMembers(entries, key);
      if consistent {
        WeightRemoveKey(entries, key, sizeOf);
        RemoveKeyNonNegative(entries, key, sizeOf);
        if previous.Some? {
          LookupSome(entries, key);
        }
      }
      entries := RemoveKey(entries, key);
      if previous.Some? {
        var pw := sizeOf(key, previous.value);
        if pw < 0 {
          return Err(IllegalState);
        }
        size := size - pw;
        events := events + [EntryRemoved(false, key, previous.value, None)];
      }
      return Ok(previous);
    }

    /** Sets a new positive maximum and trims to it. */
    method Resize(newMaxSize: int) returns (r: Outcome)
      requires Valid()
      modifies this
      ensures Valid()
      ensures newMaxSize <= 0 ==>
        r == Thrown(IllegalArgument) && maxSize == old(maxSize) && entries == old(entries)
        && size == old(size) && events == old(events)
      ensures newMaxSize > 0 && old(Consistent()) ==>
        var n := Evicted(old(entries), sizeOf, newMaxSize);
        r == Normal && maxSize == newMaxSize && Consistent() && entries == old(entries)[n..]
        && events == old(events) + Evictions(old(entries)[..n])
        && (size <= maxSize || entries == [])
    {
      if newMaxSize <= 0 {
        return Thrown(IllegalArgument);
      }
      maxSize := newMaxSize;
      r := TrimToSize(newMaxSize);
    }

    /** Sets the maximum to -1 and evicts every entry. */
    method Close() returns (r: Outcome)
      requires Valid()
      modifies this
      ensures Valid() && maxSize == -1
      ensures old(Consistent()) ==>
        r == Normal && entries == [] && size == 0
        && events == old(events) + Evictions(old(entries))
    {
      maxSize := -1;
      if Consistent() {
        EvictAllEmpties(entries, sizeOf);
      }
      r := TrimToSize(-1);
    }

    /** Evicts every entry, zero-sized ones included; maxSize stays. */
    method EvictAll() returns (r: Outcome)
      requires Valid()
      modifies this
      ensures Valid() && maxSize == old(maxSize)
      ensures old(Consistent()) ==>
        r == Normal && entries == [] && size == 0
        && events == old(events) + Evictions(old(entries))
    {
      if Consistent() {
        EvictAllEmpties(entries, sizeOf);
      }
      r := TrimToSize(-1);
    }
  }
}
