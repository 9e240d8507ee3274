// The src revision of BeerBelly: the same two tiers as the library
// revision, over the src SimpleDiskCache (locks counted per key). It keeps
// the params' flags: hasDiskCache() stays true when the disk tier could not
// be opened, and every disk call then acts as if there were no disk tier.
//
// Its memory tier is android.util.LruCache, which is not part of this model;
// the library's LRU cache stands in for it (same order, trim and size
// accounting, and the same IllegalStateException for a negative size).
module BeerBellySrc {
  import opened Common
  import opened LruCacheSpec
  import DiskStore
  import Hex
  import Src = SimpleDiskCacheSrc
  import opened ThreadSafeCache
  import Lib = BeerBellyLib

  type Blob = DiskStore.Blob

  /** DiskCache (src): a SimpleDiskCache and the maximum it was opened with. */
  class DiskCache<V> {
    const cache: Src.SimpleDiskCache
    /** mMaxSize. */
    const maxSize: int
    /** The subclass's read(isPipe), on the bytes of the entry it opens. */
    const read: Blob -> Option<V>
    /** The subclass's write(os, value): its verdict and the bytes it writes. */
    const write: V -> (bool, Blob)

    /** Between calls: no key registered, no lock handed out, so the gate
        is open. */
    ghost predicate Quiet()
      reads cache, cache.owner.Keys
    {
      cache.Valid() && cache.lockMap.Keys == {} && cache.owner.Keys == {}
    }

    /** The value get(key) returns now, when the store's get does not throw. */
    ghost function Value(key: string): Option<V>
      reads cache
    {
      Lib.DiskValue(read, cache.store, cache.DiskKey(key))
    }

    constructor (cache: Src.SimpleDiskCache, maxSize: int, read: Blob -> Option<V>, write: V -> (bool, Blob))
      ensures this.cache == cache && this.maxSize == maxSize && this.read == read && this.write == write
    {
      this.cache := cache;
      this.maxSize := maxSize;
      this.read := read;
      this.write := write;
    }

    /** size(): the SimpleDiskCache's size, which has no null check. */
    method Size() returns (r: Result<int>)
      ensures cache.store.None? <==> r == Err(NullPointer)
      ensures cache.store.Some? ==> r == Ok(DiskStore.Size(cache.store.value))
    {
      r := cache.Size();
    }

    method Flush()
      requires Quiet()
      modifies cache`state
      ensures Quiet()
    {
      cache.Flush();
    }

    method Clear(deleteFails: bool, survivors: seq<Pair<string, Blob>>, openFails: bool)
      requires DistinctKeys(survivors)
      requires Quiet()
      modifies cache`state, cache`store
      ensures Quiet()
      ensures cache.store ==
        if old(cache.store).None? || openFails then None
        else if deleteFails then Some(DiskStore.Store(survivors, map[]))
        else Some(DiskStore.Empty)
    {
      var _ := cache.Clear(deleteFails, survivors, openFails);
    }

    /** The pipe steps a reader of an entry takes: obtain, open, close,
        release. The entry's bytes come back, and the table is empty again. */
    method ReadPipe(p: Src.InputPipe) returns (b: Blob)
      requires Quiet() && p.cache == cache && p.lock == null && p.snapshot.None?
      requires cache.store.Some? && DiskStore.Get(cache.store.value, p.key).Some?
      modifies p, cache
      ensures Quiet() && cache.store == old(cache.store)
      ensures b == DiskStore.Get(cache.store.value, p.key).value
    {
      ghost var o0 := cache.owner;
      p.Obtain();
      ghost var l := p.lock;
      var got := p.Open();
      b := got.value;
      p.Close();
      var _ := p.Release();
      Src.AddThenRemove(o0, l, p.key);
    }

    /** The pipe steps of put: obtain, open, the write hook's bytes when the
        open succeeds, then close (which commits) and release. open() has no
        null check: without a store it throws NullPointerException, which
        put does not catch. */
    method WritePipe(p: Src.OutputPipe, streamThrows: bool, commitThrows: bool, bytes: Blob)
      returns (r: Result<bool>)
      requires Quiet() && p.cache == cache && p.lock == null && !p.editing
      modifies p, cache
      ensures Quiet()
      ensures old(cache.store).None? ==> r == Err(NullPointer) && cache.store.None?
      ensures old(cache.store).Some? ==>
        var s := old(cache.store).value;
        r == Ok(DiskStore.CanEdit(s, p.key) && !streamThrows)
        && cache.store == Some(Lib.Written(s, p.key, bytes, streamThrows, commitThrows))
    {
      ghost var o0 := cache.owner;
      ghost var s0 := cache.store;
      if s0.Some? {
        DiskStore.StoredPublishes(s0.value, p.key, bytes,
          DiskStore.PutFaults(false, if streamThrows then DiskStore.StreamThrows else DiskStore.Opened, false, commitThrows));
      }
      p.Obtain();
      ghost var l := p.lock;
      var got := p.Open(streamThrows);
      if got == Normal {
        p.Write(bytes);
      }
      p.Close(commitThrows);
      assert s0.Some? ==> cache.store == Some(Lib.Written(s0.value, p.key, bytes, streamThrows, commitThrows));
      var _ := p.Release();
      Src.AddThenRemove(o0, l, p.key);
      if got == Thrown(NullPointer) {
        return Err(NullPointer);
      }
      r := Ok(got == Normal);
    }

    /** get(key): null when getInputStreamPipe finds no entry (a store get
        that throws counts as none), otherwise what the read hook makes of
        the entry. */
    method Get(key: string, getThrows: bool) returns (r: Option<V>)
      requires Quiet()
      modifies cache, cache.owner.Keys
      ensures Quiet() && cache.store == old(cache.store)
      ensures r == if getThrows then None else old(Value(key))
    {
      var p := cache.GetInputStreamPipe(key, getThrows);
      if p == null {
        return None;
      }
      var b := ReadPipe(p);
      r := read(b);
    }

    /** put(key, value): an IOException from open() makes it false;
        otherwise it is the write hook's verdict, the bytes committed by
        close() either way. */
    method Put(key: string, value: V, streamThrows: bool, commitThrows: bool) returns (r: Result<bool>)
      requires Quiet()
      modifies cache
      ensures Quiet()
      ensures old(cache.store).None? ==> r == Err(NullPointer) && cache.store.None?
      ensures old(cache.store).Some? ==>
        var s := old(cache.store).value;
        var dk := cache.DiskKey(key);
        r == Ok(DiskStore.CanEdit(s, dk) && !streamThrows && write(value).0)
        && cache.store == Some(Lib.Written(s, dk, write(value).1, streamThrows, commitThrows))
    {
      var p := cache.GetOutputStreamPipe(key);
      var (verdict, bytes) := write(value);
      var started := WritePipe(p, streamThrows, commitThrows, bytes);
      if started.Err? {
        return started;
      }
      r := Ok(started.value && verdict);
    }

    /** putRaw(key, is): SimpleDiskCache.put. */
    method PutRaw(key: string, data: Blob, f: DiskStore.PutFaults) returns (r: bool)
      requires Quiet()
      modifies cache, cache.owner.Keys
      ensures Quiet()
      ensures old(cache.store).None? ==> !r && cache.store.None?
      ensures old(cache.store).Some? ==>
        var (ok, t) := DiskStore.Stored(old(cache.store).value, cache.DiskKey(key), data, f);
        r == ok && cache.store == Some(t)
    {
      r := cache.Put(key, data, f);
    }
  }

  /** new DiskCache(cacheDir, size, parent): the SimpleDiskCache constructor
      throws the IOException of opening the store (initial == None). */
  method NewDiskCache<V>(maxSize: int, digest: string -> seq<Hex.byte>, read: Blob -> Option<V>,
                         write: V -> (bool, Blob), initial: Option<DiskStore.Store>)
    returns (r: Result<DiskCache<V>>)
    requires initial.Some? ==> DiskStore.Valid(initial.value)
    ensures r.Err? <==> initial.None?
    ensures r.Err? ==> r.exception == IO
    ensures r.Ok? ==>
      fresh(r.value) && fresh(r.value.cache) && r.value.Quiet()
      && r.value.maxSize == maxSize && r.value.cache.store == initial
      && r.value.read == read && r.value.write == write
  {
    var c := Src.NewCache(maxSize, digest, initial);
    if c.Err? {
      return Err(IO);
    }
    var d := new DiskCache(c.value, maxSize, read, write);
    return Ok(d);
  }

  // ---------------------------------------------------------------------
  // BeerBelly

  class BeerBelly<V> {
    /** mHasMemoryCache and mHasDiskCache: what hasMemoryCache() and
        hasDiskCache() return, the params' flags. */
    const hasMemoryCache: bool
    const hasDiskCache: bool
    /** mMemoryCache. */
    const memory: ThreadSafeLruCache?<string, V>
    /** mDiskCache; null also when the disk tier failed to open. */
    const disk: DiskCache?<V>

    ghost function DiskRepr(): set<object>
    {
      if disk == null then {} else {disk.cache}
    }

    ghost predicate Valid()
      reads this, memory, DiskRepr(), if disk == null then {} else disk.cache.owner.Keys
    {
      (hasMemoryCache <==> memory != null)
      && (memory != null ==>
            memory.Valid() && memory.Consistent() && memory.maxSize > 0
            && forall k :: memory.create(k).None?)
      && (disk != null ==> hasDiskCache && disk.Quiet() && disk.maxSize > 0)
    }

    /** The memory tier's value for a key; null without the tier. */
    ghost function InMemory(key: string): Option<V>
      reads memory
    {
      if memory == null then None else Lookup(memory.entries, key)
    }

    /** The disk tier's value for a key; null without the tier. */
    ghost function OnDisk(key: string): Option<V>
      reads DiskRepr()
    {
      if disk == null then None else disk.Value(key)
    }

    ghost function DiskStoreOf(): Option<DiskStore.Store>
      reads DiskRepr()
    {
      if disk == null then None else disk.cache.store
    }

    constructor (hasMemoryCache: bool, hasDiskCache: bool, memory: ThreadSafeLruCache?<string, V>, disk: DiskCache?<V>)
      ensures this.hasMemoryCache == hasMemoryCache && this.hasDiskCache == hasDiskCache
      ensures this.memory == memory && this.disk == disk
    {
      this.hasMemoryCache := hasMemoryCache;
      this.hasDiskCache := hasDiskCache;
      this.memory := memory;
      this.disk := disk;
    }

    /** memorySize(): -1 without the memory tier. */
    method MemorySize() returns (n: int)
      requires Valid()
      ensures n == -1 <==> !hasMemoryCache
      ensures hasMemoryCache ==> n == Weight(memory.entries, memory.sizeOf)
    {
      if hasMemoryCache && memory != null {
        WeightNonNegative(memory.entries, memory.sizeOf);
        return memory.size;
      }
      return -1;
    }

    /** diskSize(): -1 without a disk tier; the tier's size() throws
        NullPointerException once a clear has lost its store. */
    method DiskSize() returns (r: Result<int>)
      requires Valid()
      ensures disk == null ==> r == Ok(-1)
      ensures disk != null && disk.cache.store.None? ==> r == Err(NullPointer)
      ensures DiskStoreOf().Some? ==> r == Ok(DiskStore.Size(DiskStoreOf().value))
    {
      if hasDiskCache && disk != null {
        r := disk.Size();
        return;
      }
      return Ok(-1);
    }

    /** getFromMemory(key): the memory tier's value, which becomes its most
        recently used entry. */
    method GetFromMemory(key: string) returns (r: Option<V>)
      requires Valid()
      modifies memory
      ensures Valid()
      ensures r == old(InMemory(key))
      ensures memory != null ==>
        memory.entries == (if r.Some? then PutLast(old(memory.entries), key, r.value) else old(memory.entries))
    {
      if !hasMemoryCache || memory == null {
        return None;
      }
      var got := memory.Get(key);
      r := got.value;
    }

    /** getFromDisk(key). */
    method GetFromDisk(key: string, getThrows: bool) returns (r: Option<V>)
      requires Valid()
      modifies DiskRepr()
      ensures Valid() && DiskStoreOf() == old(DiskStoreOf())
      ensures r == if getThrows then None else old(OnDisk(key))
    {
      if !hasDiskCache || disk == null {
        return None;
      }
      r := disk.Get(key, getThrows);
    }

    /** putToMemory(key, value): false without the memory tier; the tier's
        put throws IllegalStateException for a negative size. */
    method PutToMemory(key: string, value: V) returns (r: Result<bool>)
      requires Valid()
      modifies memory
      ensures Valid()
      ensures !hasMemoryCache ==> r == Ok(false)
      ensures hasMemoryCache && memory.sizeOf(key, value) < 0 ==>
        r == Err(IllegalState) && memory.entries == old(memory.entries)
      ensures hasMemoryCache && memory.sizeOf(key, value) >= 0 ==>
        var t := PutLast(old(memory.entries), key, value);
        r == Ok(true) && memory.entries == t[Evicted(t, memory.sizeOf, memory.maxSize)..]
      ensures hasMemoryCache && 0 <= memory.sizeOf(key, value) <= memory.maxSize ==>
        InMemory(key) == Some(value)
    {
      if !hasMemoryCache || memory == null {
        return Ok(false);
      }
      ghost var s := memory.entries;
      var put := memory.Put(key, value);
      if put.Err? {
        return Err(IllegalState);
      }
      if memory.sizeOf(key, value) <= memory.maxSize {
        Lib.PromotedSurvives(s, key, value, memory.sizeOf, memory.maxSize);
      }
      return Ok(true);
    }

    /** putToDisk(key, value): false without a disk tier. */
    method PutToDisk(key: string, value: V, streamThrows: bool, commitThrows: bool) returns (r: Result<bool>)
      requires Valid()
      modifies DiskRepr()
      ensures Valid()
      ensures disk == null ==> r == Ok(false)
      ensures disk != null && old(disk.cache.store).None? ==> r == Err(NullPointer) && disk.cache.store.None?
      ensures disk != null && old(disk.cache.store).Some? ==>
        var s := old(disk.cache.store).value;
        var dk := disk.cache.DiskKey(key);
        r == Ok(DiskStore.CanEdit(s, dk) && !streamThrows && disk.write(value).0)
        && disk.cache.store == Some(Lib.Written(s, dk, disk.write(value).1, streamThrows, commitThrows))
    {
      if !hasDiskCache || disk == null {
        return Ok(false);
      }
      r := disk.Put(key, value, streamThrows, commitThrows);
    }

    /** get(key): the memory tier's value; on a miss, the disk tier's,
        which is then put into the memory tier. */
    method Get(key: string, getThrows: bool) returns (r: Result<Option<V>>)
      requires Valid()
      modifies memory, DiskRepr()
      ensures Valid() && DiskStoreOf() == old(DiskStoreOf())
      ensures old(InMemory(key)).Some? ==> r == Ok(old(InMemory(key)))
      ensures old(InMemory(key)).None? && (getThrows || old(OnDisk(key)).None?) ==> r == Ok(None)
      ensures old(InMemory(key)).None? && !getThrows && old(OnDisk(key)).Some? ==>
        var v := old(OnDisk(key)).value;
        (if memory != null && memory.sizeOf(key, v) < 0 then r == Err(IllegalState) else r == Ok(Some(v)))
        && (memory != null && 0 <= memory.sizeOf(key, v) <= memory.maxSize ==> InMemory(key) == Some(v))
    {
      var value := GetFromMemory(key);
      if value.Some? {
        return Ok(value);
      }
      value := GetFromDisk(key, getThrows);
      if value.Some? {
        var put := PutToMemory(key, value.value);
        if put.Err? {
          return Err(IllegalState);
        }
        return Ok(value);
      }
      return Ok(None);
    }

    /** put(key, value): putToMemory, then putToDisk; an exception from
        either tier leaves put. */
    method Put(key: string, value: V, streamThrows: bool, commitThrows: bool) returns (r: Outcome)
      requires Valid()
      modifies memory, DiskRepr()
      ensures Valid()
      ensures memory != null && memory.sizeOf(key, value) < 0 ==>
        r == Thrown(IllegalState) && DiskStoreOf() == old(DiskStoreOf())
      ensures memory == null || memory.sizeOf(key, value) >= 0 ==>
        (r == Thrown(NullPointer) <==> disk != null && old(disk.cache.store).None?)
        && (r != Thrown(NullPointer) ==> r == Normal)
        && (disk != null && old(disk.cache.store).Some? ==>
              disk.cache.store == Some(Lib.Written(old(disk.cache.store).value, disk.cache.DiskKey(key),
                                                   disk.write(value).1, streamThrows, commitThrows)))
      ensures memory != null && 0 <= memory.sizeOf(key, value) <= memory.maxSize ==>
        InMemory(key) == Some(value)
    {
      var put := PutToMemory(key, value);
      if put.Err? {
        return Thrown(IllegalState);
      }
      var stored := PutToDisk(key, value, streamThrows, commitThrows);
      if stored.Err? {
        return Thrown(NullPointer);
      }
      return Normal;
    }

    /** putRawToDisk(key, is): false without a disk tier. */
    method PutRawToDisk(key: string, data: Blob, f: DiskStore.PutFaults) returns (r: bool)
      requires Valid()
      modifies DiskRepr(), if disk == null then {} else disk.cache.owner.Keys
      ensures Valid()
      ensures old(DiskStoreOf()).None? ==> !r && DiskStoreOf().None?
      ensures old(DiskStoreOf()).Some? ==>
        var (ok, t) := DiskStore.Stored(old(DiskStoreOf()).value, disk.cache.DiskKey(key), data, f);
        r == ok && DiskStoreOf() == Some(t)
    {
      if !hasDiskCache || disk == null {
        return false;
      }
      r := disk.PutRaw(key, data, f);
    }

    /** clear(): clearMemory (evictAll), then clearDisk. */
    method Clear(deleteFails: bool, survivors: seq<Pair<string, Blob>>, openFails: bool)
      requires DistinctKeys(survivors)
      requires Valid()
      modifies memory, DiskRepr()
      ensures Valid()
      ensures memory != null ==> memory.entries == [] && memory.size == 0
      ensures disk != null ==>
        disk.cache.store == (if old(disk.cache.store).None? || openFails then None
                             else if deleteFails then Some(DiskStore.Store(survivors, map[]))
                             else Some(DiskStore.Empty))
    {
      if hasMemoryCache && memory != null {
        var _ := memory.EvictAll();
      }
      if hasDiskCache && disk != null {
        disk.Clear(deleteFails, survivors, openFails);
      }
    }

    /** flush(): flushes the disk tier, if any. */
    method Flush()
      requires Valid()
      modifies DiskRepr()
      ensures Valid() && DiskStoreOf() == old(DiskStoreOf())
    {
      if hasDiskCache && disk != null {
        disk.Flush();
      }
    }
  }

  /** new BeerBelly(params): isVaild() first, then a memory tier when asked
      for and a disk tier when asked for; a disk tier that fails to open is
      logged and left null, while hasDiskCache() still reports the flag. */
  method NewBeerBelly<V>(p: Lib.Params, sizeOf: (string, V) -> int, digest: string -> seq<Hex.byte>,
                         read: Blob -> Option<V>, write: V -> (bool, Blob),
                         initial: Option<DiskStore.Store>)
    returns (r: Result<BeerBelly<V>>)
    requires initial.Some? ==> DiskStore.Valid(initial.value)
    ensures r.Err? <==> !Lib.Acceptable(p)
    ensures r.Err? ==> r.exception == IllegalState
    ensures r.Ok? ==>
      var b := r.value;
      fresh(b) && b.Valid()
      && b.hasMemoryCache == p.hasMemoryCache && b.hasDiskCache == p.hasDiskCache
      && (b.disk != null <==> p.hasDiskCache && initial.Some?)
      && (b.memory != null ==>
            fresh(b.memory) && b.memory.maxSize == p.memoryCacheMaxSize
            && b.memory.entries == [] && b.memory.sizeOf == sizeOf)
      && (b.disk != null ==>
            fresh(b.DiskRepr()) && b.disk.maxSize == p.diskCacheMaxSize
            && b.disk.cache.store == initial && b.disk.read == read && b.disk.write == write)
  {
    if Lib.Check(p).Some? {
      return Err(IllegalState);
    }
    var memory: ThreadSafeLruCache?<string, V> := null;
    if p.hasMemoryCache {
      memory := new ThreadSafeLruCache(p.memoryCacheMaxSize, sizeOf, k => None);
    }
    var disk: DiskCache?<V> := null;
    if p.hasDiskCache {
      var made := NewDiskCache(p.diskCacheMaxSize, digest, read, write, initial);
      if made.Ok? {
        disk := made.value;
      }
    }
    var b := new BeerBelly(p.hasMemoryCache, p.hasDiskCache, memory, disk);
    return Ok(b);
  }

  /** With the disk tier asked for but its store failing to open,
      hasDiskCache() holds while a put to the disk tier reports false and a
      get from it finds nothing. */
  method DiskFlagWithoutTier<V>(sizeOf: (string, V) -> int, digest: string -> seq<Hex.byte>,
                                read: Blob -> Option<V>, write: V -> (bool, Blob), key: string, value: V)
    returns (flag: bool, put: Result<bool>, got: Option<V>)
    ensures flag && put == Ok(false) && got.None?
  {
    var p := Lib.Params(false, 0, true, Some("cache"), 1);
    var made := NewBeerBelly(p, sizeOf, digest, read, write, None);
    var b := made.value;
    flag := b.hasDiskCache;
    put := b.PutToDisk(key, value, false, false);
    got := b.GetFromDisk(key, false);
  }
}
