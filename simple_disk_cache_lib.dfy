// The library revision of SimpleDiskCache: a DiskLruCache behind a gate
// (mDiskCacheState) and one ReentrantReadWriteLock per disk key, handed out
// from a lock table and recycled through a pool of five.
//
// The wait loops become preconditions on the gate: run on one thread, a
// call whose wait would not end is one the caller must not make. A lock is
// represented by its identity (the n-th one made) and its hold counts;
// blocking between holders is not modelled.
module SimpleDiskCacheLib {
  import opened Common
  import opened DiskStore
  import Hex

  /** A ReentrantReadWriteLock, by identity: the n-th one made. */
  type LockId = nat

  /** The read holds and write holds a lock has. */
  datatype Holds = Holds(readers: nat, writers: nat)

  function HoldsOf(h: map<LockId, Holds>, l: LockId): Holds {
    if l in h then h[l] else Holds(0, 0)
  }

  ghost predicate SameHolds(h: map<LockId, Holds>, h': map<LockId, Holds>) {
    forall l :: HoldsOf(h, l) == HoldsOf(h', l)
  }

  /** The size of mLockPool. */
  const PoolSize := 5

  // ---------------------------------------------------------------------
  // The lock table

  /** mDiskCacheLockMap, the pool's content (oldest first) and the number
      of locks made so far. */
  datatype Registry = Registry(lockMap: map<string, LockId>, pooled: seq<LockId>, made: nat)

  /** obtainLock: the key's registered lock; otherwise the pool's youngest,
      or a new lock when the pool is empty, registered for the key. */
  function Obtained(r: Registry, key: string): (o: (Registry, LockId))
    ensures key in o.0.lockMap && o.0.lockMap[key] == o.1
    ensures forall k :: k != key ==> (k in o.0.lockMap <==> k in r.lockMap)
    ensures key in r.lockMap ==> o.0 == r
  {
    if key in r.lockMap then (r, r.lockMap[key])
    else if r.pooled == [] then (Registry(r.lockMap[key := r.made], [], r.made + 1), r.made)
    else
      var l := r.pooled[|r.pooled| - 1];
      (Registry(r.lockMap[key := l], r.pooled[..|r.pooled| - 1], r.made), l)
  }

  /** releaseLock: unless the lock is write-locked, the key leaves the
      table and the lock goes back to the pool while it has room. Nothing
      counts how many callers still hold the key. */
  function Released(r: Registry, key: string, lock: LockId, writeLocked: bool): (r': Registry)
    ensures writeLocked ==> r' == r
    ensures !writeLocked ==> key !in r'.lockMap
    ensures forall k :: k != key ==> (k in r'.lockMap <==> k in r.lockMap)
    ensures |r.pooled| <= PoolSize ==> |r'.pooled| <= PoolSize
  {
    if writeLocked then r
    else Registry(r.lockMap - {key}, if |r.pooled| < PoolSize then r.pooled + [lock] else r.pooled, r.made)
  }

  /** A keyed call on a key nobody holds, with a lock in the pool, leaves
      the table and the pool as they were. */
  lemma UnusedKeyRestores(r: Registry, key: string)
    requires key !in r.lockMap && r.pooled != [] && |r.pooled| <= PoolSize
    ensures var (r1, lock) := Obtained(r, key);
      Released(r1, key, lock, false) == r
  {
    var n := |r.pooled|;
    assert r.pooled[..n - 1] + [r.pooled[n - 1]] == r.pooled;
    assert r.lockMap[key := r.pooled[n - 1]] - {key} == r.lockMap;
  }

  /** The table does not count holders: when a key is already held (by a
      pipe, say) and a second caller obtains and releases it, the key leaves
      the table and its lock goes back to the pool although the first holder
      has not released it; the next new key is then handed the same lock. */
  lemma ReleaseIgnoresHolders(r: Registry, key: string, other: string)
    requires key in r.lockMap && other !in r.lockMap && |r.pooled| < PoolSize
    ensures var (r1, lock) := Obtained(r, key);
      var r2 := Released(r1, key, lock, false);
      key !in r2.lockMap
      && Obtained(r2, other).1 == r.lockMap[key]
      && Obtained(r2, other).0.lockMap[other] == r.lockMap[key]
  {
  }

  // ---------------------------------------------------------------------
  // Pool

  /** mLockPool: a stack of at most slots.Length spare locks. */
  class Pool {
    const slots: array<Option<LockId>>
    var size: int
    ghost var contents: seq<LockId>

    ghost predicate Valid()
      reads this, slots
    {
      0 <= size <= slots.Length && |contents| == size
      && (forall i :: 0 <= i < size ==> slots[i] == Some(contents[i]))
      && (forall i :: size <= i < slots.Length ==> slots[i].None?)
    }

    /** Pool(size) for size > 0: empty, with room for size locks. */
    constructor (n: int)
      requires n > 0
      ensures Valid() && fresh(slots) && slots.Length == n && contents == []
    {
      slots := new Option<LockId>[n](_ => None);
      size := 0;
      contents := [];
    }

    /** push: keeps the lock when there is room, drops it otherwise. */
    method Push(lock: Option<LockId>)
      requires Valid()
      modifies this, slots
      ensures Valid()
      ensures contents == if lock.Some? && |old(contents)| < slots.Length
        then old(contents) + [lock.value] else old(contents)
    {
      if lock.Some? && size < slots.Length {
        slots[size] := lock;
        size := size + 1;
        contents := contents + [lock.value];
      }
    }

    /** get: the youngest spare lock, or the new one `made` when the pool
        is empty. */
    method Get(made: LockId) returns (lock: LockId)
      requires Valid()
      modifies this, slots
      ensures Valid()
      ensures old(contents) == [] ==> lock == made && contents == []
      ensures old(contents) != [] ==> old(contents) == contents + [lock]
    {
      if size > 0 {
        size := size - 1;
        lock := slots[size].value;
        slots[size] := None;
        contents := contents[..size];
      } else {
        lock := made;
      }
    }
  }

  /** new Pool(size): IllegalStateException for size <= 0. */
  method NewPool(n: int) returns (r: Result<Pool>)
    ensures r.Err? <==> n <= 0
    ensures r.Err? ==> r.exception == IllegalState
    ensures r.Ok? ==> (fresh(r.value) && fresh(r.value.slots) && r.value.Valid()
      && r.value.slots.Length == n && r.value.contents == [])
  {
    if n <= 0 {
      return Err(IllegalState);
    }
    var p := new Pool(n);
    return Ok(p);
  }

  /** Pushing a lock into a pool with room and getting one back returns
      that lock and leaves the pool as it was. */
  method PoolIsLifo(p: Pool, lock: LockId, made: LockId) returns (got: LockId)
    requires p.Valid() && |p.contents| < p.slots.Length
    modifies p, p.slots
    ensures p.Valid() && got == lock && p.contents == old(p.contents)
  {
    ghost var before := p.contents;
    p.Push(Some(lock));
    ghost var pushed := p.contents;
    got := p.Get(made);
    assert pushed == p.contents + [got];
    assert got == pushed[|before|] && p.contents == pushed[..|before|];
  }

  // ---------------------------------------------------------------------
  // SimpleDiskCache

  class SimpleDiskCache {
    /** mSize, the capacity handed to DiskLruCache.open. */
    const maxSize: int
    /** MD5 over key.getBytes(): MessageDigest is not part of this model. */
    const digest: string -> seq<Hex.byte>
    const pool: Pool
    var state: Gate
    var lockMap: map<string, LockId>
    var holds: map<LockId, Holds>
    var made: nat
    /** mDiskLruCache; None is null. */
    var store: Option<Store>

    ghost predicate Valid()
      reads this, pool, pool.slots
    {
      pool.Valid() && pool.slots.Length == PoolSize
      && (store.Some? ==> DiskStore.Valid(store.value))
    }

    ghost function Reg(): Registry
      reads this, pool
    {
      Registry(lockMap, pool.contents, made)
    }

    /** The disk key of a key: hashKeyForDisk. */
    function DiskKey(key: string): string {
      Hex.HexOf(digest(key))
    }

    predicate IsWriteLocked(l: LockId)
      reads this
    {
      HoldsOf(holds, l).writers > 0
    }

    /** The constructor: init() opens the store; an IOException is caught
        and leaves none (initial == None). */
    constructor (maxSize: int, digest: string -> seq<Hex.byte>, initial: Option<Store>)
      requires initial.Some? ==> DiskStore.Valid(initial.value)
      ensures Valid() && fresh(pool) && fresh(pool.slots)
      ensures this.maxSize == maxSize && this.digest == digest
      ensures store == initial && state == Idle && lockMap == map[] && holds == map[]
      ensures made == 0 && pool.contents == []
    {
      this.maxSize := maxSize;
      this.digest := digest;
      pool := new Pool(PoolSize);
      state := Idle;
      lockMap := map[];
      holds := map[];
      made := 0;
      store := initial;
    }

    predicate IsValid()
      reads this
    {
      store.Some?
    }

    /** size(): -1 when no store is open. */
    method Size() returns (n: int)
      ensures store.None? <==> n == -1
      ensures store.Some? ==> n == DiskStore.Size(store.value)
    {
      if store.Some? {
        n := DiskStore.Size(store.value);
      } else {
        n := -1;
      }
    }

    /** hashKeyForDisk: the hex string of the key's digest. */
    method HashKeyForDisk(key: string) returns (dk: string)
      ensures dk == DiskKey(key) && |dk| == 2 * |digest(key)|
    {
      dk := Hex.BytesToHexString(digest(key));
    }

    /** flush(): waits for the gate to be NONE, holds it BUSY while the
        store flushes its journal, and opens it again. */
    method Flush()
      requires state == Idle
      modifies this`state
      ensures state == Idle
    {
      state := Busy;
      state := Idle;
    }

    /** clear(): false at once without a store; otherwise waits for NONE,
        deletes the store and opens it again, false when that open throws.
        An IOException from delete() is only logged: the open then finds
        whatever entries survived, `survivors`, about which nothing is
        assumed beyond what any opened journal gives (distinct keys, no
        editor open). */
    method Clear(deleteFails: bool, survivors: seq<Pair<string, Blob>>, openFails: bool) returns (r: bool)
      requires DiskStore.Valid(Store(survivors, map[]))
      requires store.Some? ==> state == Idle
      modifies this`state, this`store
      ensures old(store).None? ==> !r && store.None? && state == old(state)
      ensures old(store).Some? ==> (r == !openFails && state == Idle
        && store == (if openFails then None
                     else if deleteFails then Some(Store(survivors, map[]))
                     else Some(Empty)))
    {
      if store.None? {
        return false;
      }
      state := Busy;
      store := None;
      r := true;
      if openFails {
        r := false;
      } else if deleteFails {
        store := Some(Store(survivors, map[]));
      } else {
        store := Some(Empty);
      }
      state := Idle;
    }

    /** obtainLock: waits while BUSY, marks the gate IN_USE, and takes the
        key's lock from the table (or the pool) as Obtain says. */
    method ObtainLock(key: string) returns (lock: LockId)
      requires Valid() && state != Busy
      modifies this`state, this`lockMap, this`made, pool, pool.slots
      ensures Valid() && state == InUse
      ensures (Reg(), lock) == Obtained(old(Reg()), key)
    {
      state := InUse;
      if key in lockMap {
        lock := lockMap[key];
      } else {
        var wasEmpty := pool.size == 0;
        lock := pool.Get(made);
        if wasEmpty {
          made := made + 1;
        }
        lockMap := lockMap[key := lock];
      }
    }

    /** releaseLock: as Release says, with the lock's write holds as they
        are now; the gate goes back to NONE once the table is empty. */
    method ReleaseLock(key: string, lock: LockId)
      requires Valid()
      modifies this`state, this`lockMap, pool, pool.slots
      ensures Valid()
      ensures Reg() == Released(old(Reg()), key, lock, IsWriteLocked(lock))
      ensures state == if lockMap == map[] then Idle else old(state)
    {
      if !IsWriteLocked(lock) {
        lockMap := lockMap - {key};
        pool.Push(Some(lock));
      }
      if lockMap == map[] {
        state := Idle;
      }
    }

    method ReadLock(l: LockId)
      modifies this`holds
      ensures holds == old(holds)[l := Holds(HoldsOf(old(holds), l).readers + 1, HoldsOf(old(holds), l).writers)]
    {
      var h := HoldsOf(holds, l);
      holds := holds[l := Holds(h.readers + 1, h.writers)];
    }

    method ReadUnlock(l: LockId)
      requires HoldsOf(holds, l).readers > 0
      modifies this`holds
      ensures holds == old(holds)[l := Holds(HoldsOf(old(holds), l).readers - 1, HoldsOf(old(holds), l).writers)]
    {
      var h := HoldsOf(holds, l);
      holds := holds[l := Holds(h.readers - 1, h.writers)];
    }

    method WriteLock(l: LockId)
      modifies this`holds
      ensures holds == old(holds)[l := Holds(HoldsOf(old(holds), l).readers, HoldsOf(old(holds), l).writers + 1)]
    {
      var h := HoldsOf(holds, l);
      holds := holds[l := Holds(h.readers, h.writers + 1)];
    }

    method WriteUnlock(l: LockId)
      requires HoldsOf(holds, l).writers > 0
      modifies this`holds
      ensures holds == old(holds)[l := Holds(HoldsOf(old(holds), l).readers, HoldsOf(old(holds), l).writers - 1)]
    {
      var h := HoldsOf(holds, l);
      holds := holds[l := Holds(h.readers, h.writers - 1)];
    }

    /** The table and gate after a keyed call that obtained the disk key's
        lock and released it again, its holds as they were. */
    ghost predicate Cycled(r0: Registry, dk: string)
      reads this, pool
    {
      var (r1, lock) := Obtained(r0, dk);
      Reg() == Released(r1, dk, lock, IsWriteLocked(lock))
      && state == (if lockMap == map[] then Idle else InUse)
    }

    /** contain(key): false without a store; otherwise whether the store
        holds the disk key, read under the key's read lock. */
    method Contain(key: string) returns (r: bool)
      requires Valid() && state != Busy
      modifies this`state, this`lockMap, this`made, this`holds, pool, pool.slots
      ensures Valid() && SameHolds(old(holds), holds)
      ensures r == (store.Some? && Get(store.value, DiskKey(key)).Some?)
      ensures Cycled(old(Reg()), DiskKey(key))
    {
      var dk := HashKeyForDisk(key);
      var lock := ObtainLock(dk);
      if store.None? {
        ReleaseLock(dk, lock);
        return false;
      }
      r := ReadContains(dk, lock);
      ReleaseLock(dk, lock);
    }

    /** The part of contain() under the read lock. */
    method ReadContains(dk: string, lock: LockId) returns (r: bool)
      requires store.Some?
      modifies this`holds
      ensures holds == old(holds)[lock := HoldsOf(old(holds), lock)]
      ensures r == Get(store.value, dk).Some?
    {
      ReadLock(lock);
      r := Get(store.value, dk).Some?;
      ReadUnlock(lock);
    }

    /** remove(key): false without a store; otherwise the store's remove
        under the key's write lock, false when it throws. */
    method Remove(key: string, ioFails: bool) returns (r: bool)
      requires Valid() && state != Busy
      modifies this`state, this`lockMap, this`made, this`holds, this`store, pool, pool.slots
      ensures Valid() && SameHolds(old(holds), holds)
      ensures old(store).None? || ioFails ==> !r && store == old(store)
      ensures old(store).Some? && !ioFails ==>
        var (removed, t) := DiskStore.Remove(old(store).value, DiskKey(key));
        r == removed && store == Some(t)
      ensures Cycled(old(Reg()), DiskKey(key))
    {
      var dk := HashKeyForDisk(key);
      var lock := ObtainLock(dk);
      if store.None? {
        ReleaseLock(dk, lock);
        return false;
      }
      r := WriteRemove(dk, lock, ioFails);
      ReleaseLock(dk, lock);
    }

    /** The part of remove() under the write lock. */
    method WriteRemove(dk: string, lock: LockId, ioFails: bool) returns (r: bool)
      requires store.Some? && DiskStore.Valid(store.value)
      modifies this`holds, this`store
      ensures holds == old(holds)[lock := HoldsOf(old(holds), lock)]
      ensures store.Some? && DiskStore.Valid(store.value)
      ensures ioFails ==> !r && store == old(store)
      ensures !ioFails ==> var (removed, t) := DiskStore.Remove(old(store).value, dk);
        r == removed && store == Some(t)
    {
      WriteLock(lock);
      if ioFails {
        r := false;
      } else {
        DiskStore.RemoveForgets(store.value, dk);
        var (removed, t) := DiskStore.Remove(store.value, dk);
        r := removed;
        store := Some(t);
      }
      WriteUnlock(lock);
    }

    /** put(key, is): false without a store; otherwise putToDisk under the
        key's write lock. */
    method Put(key: string, data: Blob, f: PutFaults) returns (r: bool)
      requires Valid() && state != Busy
      modifies this`state, this`lockMap, this`made, this`holds, this`store, pool, pool.slots
      ensures Valid() && SameHolds(old(holds), holds)
      ensures old(store).None? ==> !r && store == old(store)
      ensures old(store).Some? ==>
        var (ok, t) := Stored(old(store).value, DiskKey(key), data, f);
        r == ok && store == Some(t)
      ensures Cycled(old(Reg()), DiskKey(key))
    {
      var dk := HashKeyForDisk(key);
      var lock := ObtainLock(dk);
      if store.None? {
        ReleaseLock(dk, lock);
        return false;
      }
      r := WritePut(dk, lock, data, f);
      ReleaseLock(dk, lock);
    }

    /** The part of put() under the write lock. */
    method WritePut(dk: string, lock: LockId, data: Blob, f: PutFaults) returns (r: bool)
      requires store.Some? && DiskStore.Valid(store.value)
      modifies this`holds, this`store
      ensures holds == old(holds)[lock := HoldsOf(old(holds), lock)]
      ensures store.Some? && DiskStore.Valid(store.value)
      ensures var (ok, t) := Stored(old(store).value, dk, data, f);
        r == ok && store == Some(t)
    {
      WriteLock(lock);
      r := false;
      if IsValid() {
        r := PutToDisk(dk, data, f);
      }
      WriteUnlock(lock);
    }

    /** putToDisk: edit, write, commit; the catch aborts only while the
        edit is incomplete. */
    method PutToDisk(dk: string, data: Blob, f: PutFaults) returns (r: bool)
      requires store.Some? && DiskStore.Valid(store.value)
      modifies this`store
      ensures store.Some? && DiskStore.Valid(store.value)
      ensures var (ok, t) := Stored(old(store).value, dk, data, f);
        r == ok && store == Some(t)
    {
      StoredPublishes(store.value, dk, data, f);
      var s := store.value;
      var editorOpen := false;
      var completeEdit := false;
      if f.editThrows {
        // the IOException reaches the catch with no editor
      } else if !CanEdit(s, dk) {
        return false;
      } else {
        store := Some(Open(s, dk));
        editorOpen := true;
        if f.stream == StreamThrows {
          // the catch
        } else if f.stream == NullStream {
          completeEdit := true;
          AbortFresh(s, dk);
          store := Some(Abort(store.value, dk));
          return false;
        } else if f.copyThrows {
          // the catch
        } else {
          store := Some(Append(store.value, dk, data));
          completeEdit := true;
          if !f.commitThrows {
            store := Some(Commit(store.value, dk));
            return true;
          }
        }
      }
      // catch (IOException e)
      if !completeEdit && editorOpen {
        AbortFresh(s, dk);
        store := Some(Abort(store.value, dk));
      }
      return false;
    }

    /** getInputStreamPipe: a pipe when contain(key) holds, null otherwise. */
    method GetInputStreamPipe(key: string) returns (p: InputPipe?)
      requires Valid() && state != Busy
      modifies this`state, this`lockMap, this`made, this`holds, pool, pool.slots
      ensures Valid() && SameHolds(old(holds), holds)
      ensures p != null <==> store.Some? && Get(store.value, DiskKey(key)).Some?
      ensures p != null ==> (fresh(p) && p.cache == this && p.key == DiskKey(key)
        && p.lock.None? && p.snapshot.None?)
      ensures Cycled(old(Reg()), DiskKey(key))
    {
      var found := Contain(key);
      if found {
        var dk := HashKeyForDisk(key);
        p := new InputPipe(this, dk);
      } else {
        p := null;
      }
    }

    /** getOutputStreamPipe: always a new pipe for the disk key. */
    method GetOutputStreamPipe(key: string) returns (p: OutputPipe)
      ensures fresh(p) && p.cache == this && p.key == DiskKey(key)
        && p.lock.None? && !p.editing
    {
      var dk := HashKeyForDisk(key);
      p := new OutputPipe(this, dk);
    }
  }

  // ---------------------------------------------------------------------
  // The pipes

  /** CacheInputStreamPipe: reads one disk key under its read lock. */
  class InputPipe {
    const cache: SimpleDiskCache
    const key: string
    var lock: Option<LockId>
    /** mCurrentSnapshot: the bytes of the open snapshot. */
    var snapshot: Option<Blob>

    constructor (cache: SimpleDiskCache, key: string)
      ensures this.cache == cache && this.key == key && lock.None? && snapshot.None?
    {
      this.cache := cache;
      this.key := key;
      lock := None;
      snapshot := None;
    }

    /** obtain(): once; takes the key's lock and a read hold on it. */
    method Obtain()
      requires cache.Valid() && (lock.None? ==> cache.state != Busy)
      modifies this`lock, cache`state, cache`lockMap, cache`made, cache`holds, cache.pool, cache.pool.slots
      ensures cache.Valid() && lock.Some?
      ensures old(lock).Some? ==> lock == old(lock) && unchanged(cache, cache.pool, cache.pool.slots)
      ensures old(lock).None? ==>
        var (r, l) := Obtained(old(cache.Reg()), key);
        cache.Reg() == r && lock == Some(l) && cache.state == InUse
        && cache.holds == old(cache.holds)[l := Holds(HoldsOf(old(cache.holds), l).readers + 1, HoldsOf(old(cache.holds), l).writers)]
    {
      if lock.None? {
        var l := cache.ObtainLock(key);
        cache.ReadLock(l);
        lock := Some(l);
      }
    }

    /** release(): IllegalStateException while a snapshot is open; otherwise
        drops the read hold and releases the key's lock. */
    method Release() returns (r: Outcome)
      requires cache.Valid() && (lock.Some? ==> HoldsOf(cache.holds, lock.value).readers > 0)
      modifies this`lock, cache`state, cache`lockMap, cache`holds, cache.pool, cache.pool.slots
      ensures cache.Valid()
      ensures old(snapshot).Some? ==> (r == Thrown(IllegalState) && lock == old(lock)
        && unchanged(cache, cache.pool, cache.pool.slots))
      ensures old(snapshot).None? ==> r == Normal && lock.None?
      ensures old(snapshot).None? && old(lock).None? ==> unchanged(cache, cache.pool, cache.pool.slots)
      ensures old(snapshot).None? && old(lock).Some? ==>
        var l := old(lock).value;
        cache.holds == old(cache.holds)[l := Holds(HoldsOf(old(cache.holds), l).readers - 1, HoldsOf(old(cache.holds), l).writers)]
        && cache.Reg() == Released(old(cache.Reg()), key, l, cache.IsWriteLocked(l))
        && cache.state == if cache.lockMap == map[] then Idle else old(cache.state)
    {
      if snapshot.Some? {
        return Thrown(IllegalState);
      }
      if lock.Some? {
        cache.ReadUnlock(lock.value);
        cache.ReleaseLock(key, lock.value);
        lock := None;
      }
      return Normal;
    }

    /** open(): the bytes of the key's snapshot. */
    method Open() returns (r: Result<Blob>)
      modifies this`snapshot
      ensures old(lock).None? || old(snapshot).Some? ==> r == Err(IllegalState) && snapshot == old(snapshot)
      ensures old(lock).Some? && old(snapshot).None? ==>
        (if cache.store.None? || Get(cache.store.value, key).None? then r == Err(IO) && snapshot.None?
         else r == Ok(Get(cache.store.value, key).value) && snapshot == Some(r.value))
    {
      if lock.None? || snapshot.Some? {
        return Err(IllegalState);
      }
      if cache.store.None? {
        return Err(IO);
      }
      var found := Get(cache.store.value, key);
      if found.None? {
        return Err(IO);
      }
      snapshot := found;
      return Ok(found.value);
    }

    /** close(): closes the snapshot, if any. */
    method Close()
      modifies this`snapshot
      ensures snapshot.None?
    {
      snapshot := None;
    }
  }

  /** CacheOutputStreamPipe: writes one disk key under its write lock. */
  class OutputPipe {
    const cache: SimpleDiskCache
    const key: string
    var lock: Option<LockId>
    /** mCurrentEditor != null. */
    var editing: bool

    constructor (cache: SimpleDiskCache, key: string)
      ensures this.cache == cache && this.key == key && lock.None? && !editing
    {
      this.cache := cache;
      this.key := key;
      lock := None;
      editing := false;
    }

    /** obtain(): once; takes the key's lock and a write hold on it. */
    method Obtain()
      requires cache.Valid() && (lock.None? ==> cache.state != Busy)
      modifies this`lock, cache`state, cache`lockMap, cache`made, cache`holds, cache.pool, cache.pool.slots
      ensures cache.Valid() && lock.Some?
      ensures old(lock).Some? ==> lock == old(lock) && unchanged(cache, cache.pool, cache.pool.slots)
      ensures old(lock).None? ==>
        var (r, l) := Obtained(old(cache.Reg()), key);
        cache.Reg() == r && lock == Some(l) && cache.state == InUse
        && cache.holds == old(cache.holds)[l := Holds(HoldsOf(old(cache.holds), l).readers, HoldsOf(old(cache.holds), l).writers + 1)]
    {
      if lock.None? {
        var l := cache.ObtainLock(key);
        cache.WriteLock(l);
        lock := Some(l);
      }
    }

    /** release(): IllegalStateException while an editor is open; otherwise
        drops the write hold and releases the key's lock. */
    method Release() returns (r: Outcome)
      requires cache.Valid() && (lock.Some? ==> HoldsOf(cache.holds, lock.value).writers > 0)
      modifies this`lock, cache`state, cache`lockMap, cache`holds, cache.pool, cache.pool.slots
      ensures cache.Valid()
      ensures old(editing) ==> (r == Thrown(IllegalState) && lock == old(lock)
        && unchanged(cache, cache.pool, cache.pool.slots))
      ensures !old(editing) ==> r == Normal && lock.None?
      ensures !old(editing) && old(lock).None? ==> unchanged(cache, cache.pool, cache.pool.slots)
      ensures !old(editing) && old(lock).Some? ==>
        var l := old(lock).value;
        cache.holds == old(cache.holds)[l := Holds(HoldsOf(old(cache.holds), l).readers, HoldsOf(old(cache.holds), l).writers - 1)]
        && cache.Reg() == Released(old(cache.Reg()), key, l, cache.IsWriteLocked(l))
        && cache.state == if cache.lockMap == map[] then Idle else old(cache.state)
    {
      if editing {
        return Thrown(IllegalState);
      }
      if lock.Some? {
        cache.WriteUnlock(lock.value);
        cache.ReleaseLock(key, lock.value);
        lock := None;
      }
      return Normal;
    }

    /** open(): an editor on the key; IOException without a store or while
        another editor is open, and when newOutputStream throws (after
        aborting the editor). */
    method Open(streamThrows: bool) returns (r: Outcome)
      modifies this`editing, cache`store
      ensures old(lock).None? || old(editing) ==> (r == Thrown(IllegalState)
        && editing == old(editing) && cache.store == old(cache.store))
      ensures old(lock).Some? && !old(editing) ==>
        if old(cache.store).None? || !CanEdit(old(cache.store).value, key) || streamThrows then
          r == Thrown(IO) && !editing && cache.store == old(cache.store)
        else
          r == Normal && editing && cache.store == Some(DiskStore.Open(old(cache.store).value, key))
    {
      if lock.None? || editing {
        return Thrown(IllegalState);
      }
      if cache.store.None? {
        return Thrown(IO);
      }
      var s := cache.store.value;
      if !CanEdit(s, key) {
        return Thrown(IO);
      }
      cache.store := Some(DiskStore.Open(s, key));
      if streamThrows {
        AbortFresh(s, key);
        cache.store := Some(Abort(cache.store.value, key));
        return Thrown(IO);
      }
      editing := true;
      return Normal;
    }

    /** Bytes the caller writes into the stream open() returned. */
    method Write(bytes: Blob)
      requires editing
      modifies cache`store
      ensures cache.store == if old(cache.store).Some? && key in old(cache.store).value.editing
        then Some(Append(old(cache.store).value, key, bytes)) else old(cache.store)
    {
      if cache.store.Some? && key in cache.store.value.editing {
        cache.store := Some(Append(cache.store.value, key, bytes));
      }
    }

    /** close(): commits the open editor, ignoring an IOException (after
        which the edit stays open). */
    method Close(commitThrows: bool)
      modifies this`editing, cache`store
      ensures !editing
      ensures cache.store == if old(editing) && !commitThrows && old(cache.store).Some?
          && key in old(cache.store).value.editing
        then Some(Commit(old(cache.store).value, key)) else old(cache.store)
    {
      if editing {
        if !commitThrows && cache.store.Some? && key in cache.store.value.editing {
          cache.store := Some(Commit(cache.store.value, key));
        }
        editing := false;
      }
    }
  }

  /** A pipe reading a key is still holding it when a contain() of the same
      key returns: the table forgets the key, the gate reads NONE, and a
      clear() may proceed under the open pipe. */
  method ContainUnderOpenPipe(c: SimpleDiskCache, key: string) returns (p: InputPipe, ok: bool)
    requires c.Valid() && c.state == Idle && c.lockMap == map[] && c.holds == map[] && c.store.Some?
    modifies c, c.pool, c.pool.slots
    ensures c.Valid() && p.lock.Some? && HoldsOf(c.holds, p.lock.value).readers > 0
    ensures c.state == Idle && c.lockMap == map[]
  {
    p := new InputPipe(c, c.DiskKey(key));
    p.Obtain();
    ok := c.Contain(key);
  }
}
