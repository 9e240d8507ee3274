// The library revision of BeerBelly: a two-tier cache of values by string
// key, a memory tier (an LRU cache weighted by the subclass's sizeOf) in
// front of a disk tier (SimpleDiskCache, the subclass's read and write
// hooks turning values into bytes and back).
//
// The subclass hooks become the parameters sizeOf, read and write. The disk
// tier's pipes are obtained and released inside each call, so between calls
// the disk cache's gate is open and its lock table empty (DiskCache.Quiet).
module BeerBellyLib {
  import opened Common
  import opened LruCacheSpec
  import DiskStore
  import Hex
  import Sdc = SimpleDiskCacheLib
  import opened ThreadSafeCache

  type Blob = DiskStore.Blob

  // ---------------------------------------------------------------------
  // BeerBellyParams

  /** BeerBellyParams; a null diskCacheDir is None. */
  datatype Params = Params(
    hasMemoryCache: bool, memoryCacheMaxSize: int,
    hasDiskCache: bool, diskCacheDir: Option<string>, diskCacheMaxSize: int)

  /** The four IllegalStateExceptions isValid throws, by message. */
  datatype Invalid = NoTier | MemoryMaxSize | NoDiskDir | DiskMaxSize

  /** The parameters a cache can be built from. */
  predicate Acceptable(p: Params) {
    (p.hasMemoryCache || p.hasDiskCache)
    && (p.hasMemoryCache ==> p.memoryCacheMaxSize > 0)
    && (p.hasDiskCache ==> p.diskCacheDir.Some? && p.diskCacheMaxSize > 0)
  }

  /** isValid(): None when it returns, otherwise the first check that throws. */
  function Check(p: Params): (r: Option<Invalid>)
    ensures r.None? <==> Acceptable(p)
    ensures r == Some(NoTier) <==> !p.hasMemoryCache && !p.hasDiskCache
    ensures r == Some(MemoryMaxSize) ==> p.hasMemoryCache && p.memoryCacheMaxSize <= 0
    ensures r == Some(NoDiskDir) ==> p.hasDiskCache && p.diskCacheDir.None?
    ensures r == Some(DiskMaxSize) ==> p.hasDiskCache && p.diskCacheDir.Some? && p.diskCacheMaxSize <= 0
  {
    if !p.hasMemoryCache && !p.hasDiskCache then Some(NoTier)
    else if p.hasMemoryCache && p.memoryCacheMaxSize <= 0 then Some(MemoryMaxSize)
    else if p.hasDiskCache && p.diskCacheDir.None? then Some(NoDiskDir)
    else if p.hasDiskCache && p.diskCacheMaxSize <= 0 then Some(DiskMaxSize)
    else None
  }

  // ---------------------------------------------------------------------
  // Promotion into the memory tier

  /** A value put into the memory tier that fits under its maximum on its own
      can be looked up right after the put's trim. */
  lemma PromotedSurvives<V>(s: seq<Pair<string, V>>, key: string, v: V, sizeOf: (string, V) -> int, maxSize: int)
    requires DistinctKeys(s) && WeightsNonNegative(s, sizeOf) && 0 <= sizeOf(key, v) <= maxSize
    ensures var t := PutLast(s, key, v);
      Lookup(t[Evicted(t, sizeOf, maxSize)..], key) == Some(v)
  {
    var t := PutLast(s, key, v);
    var rest := RemoveKey(s, key);
    PutLastNonNegative(s, key, v, sizeOf);
    assert t[|t| - 1] == Pair(key, v);
    YoungestSurvives(t, sizeOf, maxSize);
    var n := Evicted(t, sizeOf, maxSize);
    RemoveKeyProps(s, key);
    assert t[n..] == rest[n..] + [Pair(key, v)];
    assert NoKey(rest[n..], key) by {
      forall i | 0 <= i < |rest[n..]| ensures rest[n..][i].key != key {
        assert rest[n..][i] == rest[n + i];
      }
    }
    LookupAppend(rest[n..], Pair(key, v));
  }

  // ---------------------------------------------------------------------
  // The disk tier

  /** What the read hook makes of the disk entry for a disk key: null when
      there is no store or no entry. */
  function DiskValue<V>(read: Blob -> Option<V>, store: Option<DiskStore.Store>, dk: string): Option<V> {
    if store.Some? && DiskStore.Get(store.value, dk).Some? then read(DiskStore.Get(store.value, dk).value)
    else None
  }

  /** The store after DiskCache.put wrote `bytes`: open() may throw, and the
      commit in close() may throw. */
  function Written(s: DiskStore.Store, dk: string, bytes: Blob, streamThrows: bool, commitThrows: bool): DiskStore.Store {
    DiskStore.Stored(s, dk, bytes,
      DiskStore.PutFaults(false, if streamThrows then DiskStore.StreamThrows else DiskStore.Opened, false, commitThrows)).1
  }

  /** DiskCache.put commits whatever the write hook wrote, even when the hook
      reports failure: put then returns false, but the bytes are published. */
  lemma FailedWriteIsCommitted(s: DiskStore.Store, dk: string, bytes: Blob)
    requires DiskStore.Valid(s) && DiskStore.CanEdit(s, dk)
    ensures var t := Written(s, dk, bytes, false, false);
      DiskStore.Valid(t) && DiskStore.Get(t, dk) == Some(bytes)
      && forall k :: k != dk ==> DiskStore.Get(t, k) == DiskStore.Get(s, k)
  {
    DiskStore.StoredPublishes(s, dk, bytes, DiskStore.NoFaults);
  }

  /** A keyed call that obtained and released a disk key's lock on an empty
      table, with no holds left on the lock, empties the table again. */
  lemma CycleEmpties(r0: Sdc.Registry, dk: string)
    requires r0.lockMap.Keys == {}
    ensures var (r1, l) := Sdc.Obtained(r0, dk);
      Sdc.Released(r1, dk, l, false).lockMap == map[]
  {
    assert r0.lockMap == map[];
  }

  lemma SettleAfterCycle(c: Sdc.SimpleDiskCache, r0: Sdc.Registry, dk: string)
    requires r0.lockMap.Keys == {} && c.Cycled(r0, dk)
    requires forall l :: Sdc.HoldsOf(c.holds, l) == Sdc.Holds(0, 0)
    ensures c.lockMap.Keys == {} && c.state == DiskStore.Idle
  {
    CycleEmpties(r0, dk);
    var (r1, l) := Sdc.Obtained(r0, dk);
    assert !c.IsWriteLocked(l);
  }

  /** BeerBelly.DiskCache: a SimpleDiskCache and the maximum it was opened with. */
  class DiskCache<V> {
    const cache: Sdc.SimpleDiskCache
    /** mMaxSize. */
    const maxSize: int
    /** The subclass's read(isPipe), on the bytes of the entry it opens. */
    const read: Blob -> Option<V>
    /** The subclass's write(os, value): its verdict and the bytes it writes. */
    const write: V -> (bool, Blob)

    /** Between calls: the gate open, the lock table empty, no lock held. */
    ghost predicate Quiet()
      reads cache, cache.pool, cache.pool.slots
    {
      cache.Valid() && cache.state == DiskStore.Idle && cache.lockMap.Keys == {}
      && forall l :: Sdc.HoldsOf(cache.holds, l) == Sdc.Holds(0, 0)
    }

    /** The value get(key) returns now. */
    ghost function Value(key: string): Option<V>
      reads cache
    {
      DiskValue(read, cache.store, cache.DiskKey(key))
    }

    /** new DiskCache(cacheDir, size, parent): the SimpleDiskCache constructor
        catches the IOException of opening the store, so this never throws;
        initial == None is a store that failed to open. */
    constructor (maxSize: int, digest: string -> seq<Hex.byte>, read: Blob -> Option<V>,
                 write: V -> (bool, Blob), initial: Option<DiskStore.Store>)
      requires initial.Some? ==> DiskStore.Valid(initial.value)
      ensures Quiet() && fresh(cache) && fresh(cache.pool) && fresh(cache.pool.slots)
      ensures this.maxSize == maxSize && cache.maxSize == maxSize && cache.digest == digest
      ensures this.read == read && this.write == write && cache.store == initial
    {
      cache := new Sdc.SimpleDiskCache(maxSize, digest, initial);
      this.maxSize := maxSize;
      this.read := read;
      this.write := write;
    }

    /** size(): the store's size, -1 without a store. */
    method Size() returns (n: int)
      ensures cache.store.None? <==> n == -1
      ensures cache.store.Some? ==> n == DiskStore.Size(cache.store.value)
    {
      n := cache.Size();
    }

    method Flush()
      requires Quiet()
      modifies cache`state
      ensures Quiet()
    {
      cache.Flush();
    }

    method Clear(deleteFails: bool, survivors: seq<Pair<string, Blob>>, openFails: bool)
      requires DistinctKeys(survivors)
      requires Quiet()
      modifies cache`state, cache`store
      ensures Quiet()
      ensures cache.store ==
        if old(cache.store).None? || openFails then None
        else if deleteFails then Some(DiskStore.Store(survivors, map[]))
        else Some(DiskStore.Empty)
    {
      var _ := cache.Clear(deleteFails, survivors, openFails);
    }

    /** The pipe steps a reader of an entry takes: obtain, open, close,
        release. The entry's bytes come back, and the lock table and the
        holds are as they were. */
    method ReadPipe(p: Sdc.InputPipe) returns (b: Blob)
      requires Quiet() && p.cache == cache && p.lock.None? && p.snapshot.None?
      requires cache.store.Some? && DiskStore.Get(cache.store.value, p.key).Some?
      modifies p, cache, cache.pool, cache.pool.slots
      ensures Quiet() && cache.store == old(cache.store)
      ensures b == DiskStore.Get(cache.store.value, p.key).value
    {
      ghost var r0 := cache.Reg();
      ghost var h0 := cache.holds;
      p.Obtain();
      ghost var l := p.lock.value;
      ghost var h1 := cache.holds;
      assert h1 == h0[l := Sdc.Holds(1, 0)];
      var got := p.Open();
      b := got.value;
      p.Close();
      var _ := p.Release();
      assert cache.holds == h1[l := Sdc.Holds(0, 0)];
      assert !cache.IsWriteLocked(l);
      CycleEmpties(r0, p.key);
      forall l' ensures Sdc.HoldsOf(cache.holds, l') == Sdc.Holds(0, 0) {
        if l' != l {
          assert Sdc.HoldsOf(cache.holds, l') == Sdc.HoldsOf(h0, l');
        }
      }
    }

    /** The pipe steps of put: obtain, open, the write hook's bytes when the
        open succeeds, then close (which commits) and release. */
    method WritePipe(p: Sdc.OutputPipe, streamThrows: bool, commitThrows: bool, bytes: Blob)
      returns (started: bool)
      requires Quiet() && p.cache == cache && p.lock.None? && !p.editing
      modifies p, cache, cache.pool, cache.pool.slots
      ensures Quiet()
      ensures old(cache.store).None? ==> !started && cache.store.None?
      ensures old(cache.store).Some? ==>
        var s := old(cache.store).value;
        started == (DiskStore.CanEdit(s, p.key) && !streamThrows)
        && cache.store == Some(Written(s, p.key, bytes, streamThrows, commitThrows))
    {
      ghost var r0 := cache.Reg();
      ghost var h0 := cache.holds;
      ghost var s0 := cache.store;
      if s0.Some? {
        DiskStore.StoredPublishes(s0.value, p.key, bytes,
          DiskStore.PutFaults(false, if streamThrows then DiskStore.StreamThrows else DiskStore.Opened, false, commitThrows));
      }
      p.Obtain();
      ghost var l := p.lock.value;
      ghost var h1 := cache.holds;
      assert h1 == h0[l := Sdc.Holds(0, 1)];
      var got := p.Open(streamThrows);
      started := got == Normal;
      if started {
        p.Write(bytes);
      }
      p.Close(commitThrows);
      assert s0.Some? ==> cache.store == Some(Written(s0.value, p.key, bytes, streamThrows, commitThrows));
      var _ := p.Release();
      assert cache.holds == h1[l := Sdc.Holds(0, 0)];
      assert !cache.IsWriteLocked(l);
      CycleEmpties(r0, p.key);
      forall l' ensures Sdc.HoldsOf(cache.holds, l') == Sdc.Holds(0, 0) {
        if l' != l {
          assert Sdc.HoldsOf(cache.holds, l') == Sdc.HoldsOf(h0, l');
        }
      }
    }

    /** get(key): null when getInputStreamPipe finds no entry, otherwise
        what the read hook makes of the entry. */
    method Get(key: string) returns (r: Option<V>)
      requires Quiet()
      modifies cache, cache.pool, cache.pool.slots
      ensures Quiet() && cache.store == old(cache.store)
      ensures r == old(Value(key))
    {
      ghost var r0 := cache.Reg();
      var p := cache.GetInputStreamPipe(key);
      SettleAfterCycle(cache, r0, cache.DiskKey(key));
      if p == null {
        return None;
      }
      var b := ReadPipe(p);
      r := read(b);
    }

    /** put(key, value): obtain, open, write through the hook, then (in the
        finally) close, which commits, and release. An IOException from
        open() makes it false; otherwise it is the hook's verdict. */
    method Put(key: string, value: V, streamThrows: bool, commitThrows: bool) returns (r: bool)
      requires Quiet()
      modifies cache, cache.pool, cache.pool.slots
      ensures Quiet()
      ensures old(cache.store).None? ==> !r && cache.store.None?
      ensures old(cache.store).Some? ==>
        var s := old(cache.store).value;
        var dk := cache.DiskKey(key);
        r == (DiskStore.CanEdit(s, dk) && !streamThrows && write(value).0)
        && cache.store == Some(Written(s, dk, write(value).1, streamThrows, commitThrows))
    {
      var p := cache.GetOutputStreamPipe(key);
      var (verdict, bytes) := write(value);
      var started := WritePipe(p, streamThrows, commitThrows, bytes);
      r := started && verdict;
    }

    method Remove(key: string, ioFails: bool)
      requires Quiet()
      modifies cache, cache.pool, cache.pool.slots
      ensures Quiet()
      ensures cache.store == (if old(cache.store).None? || ioFails then old(cache.store)
        else Some(DiskStore.Remove(old(cache.store).value, cache.DiskKey(key)).1))
    {
      ghost var r0 := cache.Reg();
      var _ := cache.Remove(key, ioFails);
      SettleAfterCycle(cache, r0, cache.DiskKey(key));
    }

    /** pushRaw(key, is): SimpleDiskCache.put. */
    method PushRaw(key: string, data: Blob, f: DiskStore.PutFaults) returns (r: bool)
      requires Quiet()
      modifies cache, cache.pool, cache.pool.slots
      ensures Quiet()
      ensures old(cache.store).None? ==> !r && cache.store.None?
      ensures old(cache.store).Some? ==>
        var (ok, t) := DiskStore.Stored(old(cache.store).value, cache.DiskKey(key), data, f);
        r == ok && cache.store == Some(t)
    {
      ghost var r0 := cache.Reg();
      r := cache.Put(key, data, f);
      SettleAfterCycle(cache, r0, cache.DiskKey(key));
    }

    /** pullRaw(key, os): false when there is no entry or the copy throws;
        otherwise the entry's bytes reach the stream. */
    method PullRaw(key: string, copyThrows: bool) returns (r: bool, out: Blob)
      requires Quiet()
      modifies cache, cache.pool, cache.pool.slots
      ensures Quiet() && cache.store == old(cache.store)
      ensures var found := if cache.store.Some? then DiskStore.Get(cache.store.value, cache.DiskKey(key)) else None;
        r == (found.Some? && !copyThrows) && (r ==> out == found.value)
    {
      ghost var r0 := cache.Reg();
      var p := cache.GetInputStreamPipe(key);
      SettleAfterCycle(cache, r0, cache.DiskKey(key));
      if p == null {
        return false, [];
      }
      var b := ReadPipe(p);
      r, out := false, [];
      if !copyThrows {
        r, out := true, b;
      }
    }
  }

  // ---------------------------------------------------------------------
  // BeerBelly

  class BeerBelly<V> {
    /** mMemoryCache; null when the params asked for no memory tier. */
    const memory: ThreadSafeLruCache?<string, V>
    /** mDiskCache; null when the params asked for no disk tier. */
    const disk: DiskCache?<V>

    ghost function DiskRepr(): set<object>
    {
      if disk == null then {} else {disk.cache, disk.cache.pool, disk.cache.pool.slots}
    }

    ghost predicate Valid()
      reads memory, DiskRepr()
    {
      (memory != null ==>
        memory.Valid() && memory.Consistent() && memory.maxSize > 0
        && forall k :: memory.create(k).None?)
      && (disk != null ==> disk.Quiet() && disk.maxSize > 0)
    }

    /** The memory tier's value for a key; null without the tier. */
    ghost function InMemory(key: string): Option<V>
      reads memory
    {
      if memory == null then None else Lookup(memory.entries, key)
    }

    /** The disk tier's value for a key; null without the tier. */
    ghost function OnDisk(key: string): Option<V>
      reads DiskRepr()
    {
      if disk == null then None else disk.Value(key)
    }

    ghost function DiskStoreOf(): Option<DiskStore.Store>
      reads DiskRepr()
    {
      if disk == null then None else disk.cache.store
    }

    constructor (memory: ThreadSafeLruCache?<string, V>, disk: DiskCache?<V>)
      ensures this.memory == memory && this.disk == disk
    {
      this.memory := memory;
      this.disk := disk;
    }

    /** memorySize(): -1 without the memory tier. */
    method MemorySize() returns (n: int)
      requires Valid()
      ensures n == -1 <==> memory == null
      ensures memory != null ==> n == Weight(memory.entries, memory.sizeOf)
    {
      if memory != null {
        WeightNonNegative(memory.entries, memory.sizeOf);
        return memory.size;
      }
      return -1;
    }

    /** memoryMaxSize(): -1 without the memory tier. */
    method MemoryMaxSize() returns (n: int)
      requires Valid()
      ensures n == -1 <==> memory == null
      ensures memory != null ==> n == memory.maxSize
    {
      if memory != null {
        return memory.maxSize;
      }
      return -1;
    }

    /** diskSize(): -1 without the disk tier, and without its store. */
    method DiskSize() returns (n: int)
      ensures n == -1 <==> DiskStoreOf().None?
      ensures DiskStoreOf().Some? ==> n == DiskStore.Size(DiskStoreOf().value)
    {
      if disk != null {
        n := disk.Size();
        return;
      }
      return -1;
    }

    /** diskMaxSize(): -1 without the disk tier. */
    method DiskMaxSize() returns (n: int)
      requires Valid()
      ensures n == -1 <==> disk == null
      ensures disk != null ==> n == disk.maxSize
    {
      if disk != null {
        return disk.maxSize;
      }
      return -1;
    }

    /** getFromMemory(key): the memory tier's value, which becomes its most
        recently used entry. */
    method GetFromMemory(key: string) returns (r: Option<V>)
      requires Valid()
      modifies memory
      ensures Valid()
      ensures r == old(InMemory(key))
      ensures memory != null ==>
        memory.entries == (if r.Some? then PutLast(old(memory.entries), key, r.value) else old(memory.entries))
        && memory.events == old(memory.events)
    {
      if memory == null {
        return None;
      }
      var got := memory.Get(key);
      r := got.value;
    }

    /** getFromDisk(key). */
    method GetFromDisk(key: string) returns (r: Option<V>)
      requires Valid()
      modifies DiskRepr()
      ensures Valid() && DiskStoreOf() == old(DiskStoreOf())
      ensures r == old(OnDisk(key))
    {
      if disk == null {
        return None;
      }
      r := disk.Get(key);
    }

    /** putToMemory(key, value): true when there is a memory tier; the tier's
        put throws IllegalStateException for a negative size. */
    method PutToMemory(key: string, value: V) returns (r: Result<bool>)
      requires Valid()
      modifies memory
      ensures Valid()
      ensures memory == null ==> r == Ok(false)
      ensures memory != null && memory.sizeOf(key, value) < 0 ==>
        r == Err(IllegalState) && memory.entries == old(memory.entries)
      ensures memory != null && memory.sizeOf(key, value) >= 0 ==>
        var t := PutLast(old(memory.entries), key, value);
        r == Ok(true) && memory.entries == t[Evicted(t, memory.sizeOf, memory.maxSize)..]
      ensures memory != null && 0 <= memory.sizeOf(key, value) <= memory.maxSize ==>
        InMemory(key) == Some(value)
    {
      if memory == null {
        return Ok(false);
      }
      ghost var s := memory.entries;
      var put := memory.Put(key, value);
      if put.Err? {
        return Err(IllegalState);
      }
      if memory.sizeOf(key, value) <= memory.maxSize {
        PromotedSurvives(s, key, value, memory.sizeOf, memory.maxSize);
      }
      return Ok(true);
    }

    /** putToDisk(key, value): false without the disk tier. */
    method PutToDisk(key: string, value: V, streamThrows: bool, commitThrows: bool) returns (r: bool)
      requires Valid()
      modifies DiskRepr()
      ensures Valid()
      ensures disk == null ==> !r
      ensures disk != null && old(disk.cache.store).None? ==> !r && disk.cache.store.None?
      ensures disk != null && old(disk.cache.store).Some? ==>
        var s := old(disk.cache.store).value;
        var dk := disk.cache.DiskKey(key);
        r == (DiskStore.CanEdit(s, dk) && !streamThrows && disk.write(value).0)
        && disk.cache.store == Some(Written(s, dk, disk.write(value).1, streamThrows, commitThrows))
    {
      if disk == null {
        return false;
      }
      r := disk.Put(key, value, streamThrows, commitThrows);
    }

    /** get(key): the memory tier's value; on a miss, the disk tier's,
        which is then put into the memory tier. */
    method Get(key: string) returns (r: Result<Option<V>>)
      requires Valid()
      modifies memory, DiskRepr()
      ensures Valid() && DiskStoreOf() == old(DiskStoreOf())
      ensures old(InMemory(key)).Some? ==> r == Ok(old(InMemory(key)))
      ensures old(InMemory(key)).None? && old(OnDisk(key)).None? ==> r == Ok(None)
      ensures old(InMemory(key)).None? && old(OnDisk(key)).Some? ==>
        var v := old(OnDisk(key)).value;
        (if memory != null && memory.sizeOf(key, v) < 0 then r == Err(IllegalState) else r == Ok(Some(v)))
        && (memory != null && 0 <= memory.sizeOf(key, v) <= memory.maxSize ==> InMemory(key) == Some(v))
    {
      var value := GetFromMemory(key);
      if value.Some? {
        return Ok(value);
      }
      value := GetFromDisk(key);
      if value.Some? {
        var put := PutToMemory(key, value.value);
        if put.Err? {
          return Err(IllegalState);
        }
        return Ok(value);
      }
      return Ok(None);
    }

    /** put(key, value): putToMemory, then putToDisk; an exception from the
        memory tier skips the disk tier. */
    method Put(key: string, value: V, streamThrows: bool, commitThrows: bool) returns (r: Outcome)
      requires Valid()
      modifies memory, DiskRepr()
      ensures Valid()
      ensures memory != null && memory.sizeOf(key, value) < 0 ==>
        r == Thrown(IllegalState) && DiskStoreOf() == old(DiskStoreOf())
      ensures memory == null || memory.sizeOf(key, value) >= 0 ==>
        r == Normal
        && (disk != null && old(disk.cache.store).Some? ==>
              disk.cache.store == Some(Written(old(disk.cache.store).value, disk.cache.DiskKey(key),
                                               disk.write(value).1, streamThrows, commitThrows)))
        && (disk != null && old(disk.cache.store).None? ==> disk.cache.store.None?)
      ensures memory != null && 0 <= memory.sizeOf(key, value) <= memory.maxSize ==>
        InMemory(key) == Some(value)
    {
      var put := PutToMemory(key, value);
      if put.Err? {
        return Thrown(IllegalState);
      }
      var _ := PutToDisk(key, value, streamThrows, commitThrows);
      return Normal;
    }

    /** remove(key): removeFromMemory, then removeFromDisk. */
    method Remove(key: string, ioFails: bool)
      requires Valid()
      modifies memory, DiskRepr()
      ensures Valid() && InMemory(key).None?
      ensures memory != null ==> memory.entries == RemoveKey(old(memory.entries), key)
      ensures disk != null ==>
        disk.cache.store == (if old(disk.cache.store).None? || ioFails then old(disk.cache.store)
                             else Some(DiskStore.Remove(old(disk.cache.store).value, disk.cache.DiskKey(key)).1))
    {
      if memory != null {
        var _ := memory.Remove(key);
        LookupNone(memory.entries, key);
      }
      if disk != null {
        disk.Remove(key, ioFails);
      }
    }

    /** pullRawFromDisk(key, os): false without the disk tier. */
    method PullRawFromDisk(key: string, copyThrows: bool) returns (r: bool, out: Blob)
      requires Valid()
      modifies DiskRepr()
      ensures Valid() && DiskStoreOf() == old(DiskStoreOf())
      ensures var found := if DiskStoreOf().Some? && disk != null
          then DiskStore.Get(DiskStoreOf().value, disk.cache.DiskKey(key)) else None;
        r == (found.Some? && !copyThrows) && (r ==> out == found.value)
    {
      if disk == null {
        return false, [];
      }
      r, out := disk.PullRaw(key, copyThrows);
    }

    /** pushRawToDisk(key, is): false without the disk tier. */
    method PushRawToDisk(key: string, data: Blob, f: DiskStore.PutFaults) returns (r: bool)
      requires Valid()
      modifies DiskRepr()
      ensures Valid()
      ensures old(DiskStoreOf()).None? ==> !r && DiskStoreOf().None?
      ensures old(DiskStoreOf()).Some? ==>
        var (ok, t) := DiskStore.Stored(old(DiskStoreOf()).value, disk.cache.DiskKey(key), data, f);
        r == ok && DiskStoreOf() == Some(t)
    {
      if disk == null {
        return false;
      }
      r := disk.PushRaw(key, data, f);
    }

    /** clear(): clearMemory (evictAll), then clearDisk. */
    method Clear(deleteFails: bool, survivors: seq<Pair<string, Blob>>, openFails: bool)
      requires DistinctKeys(survivors)
      requires Valid()
      modifies memory, DiskRepr()
      ensures Valid()
      ensures memory != null ==> memory.entries == [] && memory.size == 0
      ensures disk != null ==>
        disk.cache.store == (if old(disk.cache.store).None? || openFails then None
                             else if deleteFails then Some(DiskStore.Store(survivors, map[]))
                             else Some(DiskStore.Empty))
    {
      if memory != null {
        var _ := memory.EvictAll();
      }
      if disk != null {
        disk.Clear(deleteFails, survivors, openFails);
      }
    }

    /** flush(): flushes the disk tier, if any. */
    method Flush()
      requires Valid()
      modifies DiskRepr()
      ensures Valid() && DiskStoreOf() == old(DiskStoreOf())
    {
      if disk != null {
        disk.Flush();
      }
    }
  }

  /** new BeerBelly(params): isValid() first, then a memory tier when asked
      for and a disk tier when asked for. The disk tier is made even when its
      store does not open (initial == None). */
  method NewBeerBelly<V>(p: Params, sizeOf: (string, V) -> int, digest: string -> seq<Hex.byte>,
                         read: Blob -> Option<V>, write: V -> (bool, Blob),
                         initial: Option<DiskStore.Store>)
    returns (r: Result<BeerBelly<V>>)
    requires initial.Some? ==> DiskStore.Valid(initial.value)
    ensures r.Err? <==> !Acceptable(p)
    ensures r.Err? ==> r.exception == IllegalState
    ensures r.Ok? ==>
      var b := r.value;
      fresh(b) && b.Valid()
      && (b.memory != null <==> p.hasMemoryCache) && (b.disk != null <==> p.hasDiskCache)
      && (b.memory != null ==>
            fresh(b.memory) && b.memory.maxSize == p.memoryCacheMaxSize
            && b.memory.entries == [] && b.memory.sizeOf == sizeOf)
      && (b.disk != null ==>
            fresh(b.DiskRepr()) && b.disk.maxSize == p.diskCacheMaxSize
            && b.disk.cache.store == initial && b.disk.read == read && b.disk.write == write)
  {
    if Check(p).Some? {
      return Err(IllegalState);
    }
    var memory: ThreadSafeLruCache?<string, V> := null;
    if p.hasMemoryCache {
      memory := new ThreadSafeLruCache(p.memoryCacheMaxSize, sizeOf, k => None);
    }
    var disk: DiskCache?<V> := null;
    if p.hasDiskCache {
      disk := new DiskCache(p.diskCacheMaxSize, digest, read, write, initial);
    }
    var b := new BeerBelly(memory, disk);
    return Ok(b);
  }
}
