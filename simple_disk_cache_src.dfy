// The src revision of SimpleDiskCache: a DiskLruCache behind the same gate,
// with one CounterLock per disk key that counts the callers holding it. A
// key stays in the table exactly while some obtainLock has not yet been
// matched by a releaseLock, and the gate reads NONE exactly when the table
// is empty.
//
// The wait loops become preconditions on the gate. The ReentrantLock that
// CounterLock extends serialises callers on one key; its lock() and
// unlock() are not part of this model.
module SimpleDiskCacheSrc {
  import opened Common
  import opened DiskStore
  import opened CounterLockModel
  import Hex

  /** Removing a key just added gives back the map it was added to. */
  lemma AddThenRemove<K, V>(m: map<K, V>, key: K, v: V)
    requires key !in m
    ensures m[key := v] - {key} == m
  {
  }

  class SimpleDiskCache {
    /** mSize, the capacity handed to DiskLruCache.open. */
    const maxSize: int
    /** MD5 over key.getBytes(): MessageDigest is not part of this model. */
    const digest: string -> seq<Hex.byte>
    var state: Gate
    /** mDiskCacheLockMap. */
    var lockMap: map<string, CounterLock>
    /** The disk key every lock the table has handed out was made for; its
        domain is the set of those locks. */
    ghost var owner: map<CounterLock, string>
    /** mDiskLruCache; None is null (after a clear whose open failed). */
    var store: Option<Store>

    /** Every registered lock belongs to its own key alone and is held by at
        least one caller; the gate reads NONE exactly while the table is
        empty, and never BUSY outside flush and clear. */
    ghost predicate Valid()
      reads this, owner.Keys
    {
      (forall k | k in lockMap :: lockMap[k] in owner && owner[lockMap[k]] == k && lockMap[k].count > 0)
      && state != Busy && (state == Idle <==> lockMap.Keys == {})
      && (store.Some? ==> DiskStore.Valid(store.value))
    }

    /** The callers holding a key: its lock's count, 0 when unregistered. */
    ghost function Holders(k: string): int
      reads this, owner.Keys
    {
      if k in lockMap && lockMap[k] in owner then lockMap[k].count else 0
    }

    /** The disk key of a key: hashKeyForDisk. */
    function DiskKey(key: string): string {
      Hex.HexOf(digest(key))
    }

    /** The constructor once init() has opened the store; see NewCache for
        the IOException. */
    constructor (maxSize: int, digest: string -> seq<Hex.byte>, initial: Store)
      requires DiskStore.Valid(initial)
      ensures Valid() && this.maxSize == maxSize && this.digest == digest
      ensures store == Some(initial) && state == Idle && lockMap == map[] && owner == map[]
    {
      this.maxSize := maxSize;
      this.digest := digest;
      state := Idle;
      lockMap := map[];
      owner := map[];
      store := Some(initial);
    }

    predicate IsValid()
      reads this
    {
      store.Some?
    }

    /** size(): no null check, so a NullPointerException without a store. */
    method Size() returns (r: Result<int>)
      ensures store.None? <==> r == Err(NullPointer)
      ensures store.Some? ==> r == Ok(DiskStore.Size(store.value))
    {
      if store.None? {
        return Err(NullPointer);
      }
      return Ok(DiskStore.Size(store.value));
    }

    /** hashKeyForDisk: the hex string of the key's digest. */
    method HashKeyForDisk(key: string) returns (dk: string)
      ensures dk == DiskKey(key) && |dk| == 2 * |digest(key)|
    {
      dk := Hex.BytesToHexString(digest(key));
    }

    /** flush(): waits until no key is held, holds the gate BUSY while the
        store flushes its journal, and opens it again. */
    method Flush()
      requires Valid() && state == Idle
      modifies this`state
      ensures Valid() && state == Idle
    {
      state := Busy;
      state := Idle;
    }

    /** clear(): false at once without a store; otherwise waits until no key is held,
        deletes the store and opens it again, false when that open throws.
        An IOException from delete() is only logged: the open then finds
        whatever entries survived, `survivors`, about which nothing is
        assumed beyond what any opened journal gives (distinct keys, no
        editor open). */
    method Clear(deleteFails: bool, survivors: seq<Pair<string, Blob>>, openFails: bool) returns (r: bool)
      requires DiskStore.Valid(Store(survivors, map[]))
      requires Valid() && (store.Some? ==> state == Idle)
      modifies this`state, this`store
      ensures Valid()
      ensures old(store).None? ==> !r && store.None? && state == old(state)
      ensures old(store).Some? ==> (r == !openFails && state == Idle
        && store == (if openFails then None
                     else if deleteFails then Some(Store(survivors, map[]))
                     else Some(Empty)))
    {
      if store.None? {
        return false;
      }
      state := Busy;
      store := None;
      r := true;
      if openFails {
        r := false;
      } else if deleteFails {
        store := Some(Store(survivors, map[]));
      } else {
        store := Some(Empty);
      }
      state := Idle;
    }

    /** obtainLock: marks the gate IN_USE and occupies the key's lock,
        registering a new one when the key has none. No other lock
        changes. */
    method ObtainLock(key: string) returns (lock: CounterLock)
      requires Valid()
      modifies this`state, this`lockMap, this`owner, owner.Keys
      ensures Valid() && state == InUse
      ensures key in old(lockMap) ==> (lock == old(lockMap)[key] && lockMap == old(lockMap)
        && owner == old(owner))
      ensures key !in old(lockMap) ==> (fresh(lock) && lockMap == old(lockMap)[key := lock]
        && lock !in old(owner) && owner == old(owner)[lock := key])
      ensures lock.count == old(Holders(key)) + 1
      ensures forall l | l in old(owner.Keys) && l != lock :: l.count == old(l.count)
    {
      if key in lockMap {
        lock := lockMap[key];
      } else {
        lock := new CounterLock();
        lockMap := lockMap[key := lock];
        owner := owner[lock := key];
      }
      state := InUse;
      lock.Occupy();
    }

    /** releaseLock: releases the key's lock, drops the key once the lock
        is free, and opens the gate once the table is empty. */
    method ReleaseLock(key: string, lock: CounterLock)
      requires Valid() && key in lockMap && lockMap[key] == lock
      modifies this`state, this`lockMap, this`owner, lock`count
      ensures Valid()
      ensures lock.count == old(lock.count) - 1
      ensures lockMap == if lock.count == 0 then old(lockMap) - {key} else old(lockMap)
      ensures owner == if lock.count == 0 then old(owner) - {lock} else old(owner)
      ensures state == if lockMap.Keys == {} then Idle else old(state)
    {
      var r := lock.Release();
      if lock.IsFree() {
        lockMap := lockMap - {key};
        owner := owner - {lock};
      }
      if lockMap.Keys == {} {
        state := Idle;
      }
      assert forall k | k in lockMap && k != key :: lockMap[k] != lock;
    }

    /** releaseLock at the end of a keyed operation: the table, the gate
        and the key's count return to what they were before its obtainLock. */
    method Leave(dk: string, lock: CounterLock, ghost m0: map<string, CounterLock>,
                 ghost o0: map<CounterLock, string>, ghost s0: Gate, ghost c0: int)
      requires Valid() && dk in lockMap && lockMap[dk] == lock && lock.count == c0 + 1
      requires dk in m0 ==> lockMap == m0 && owner == o0 && c0 > 0
      requires dk !in m0 ==> lockMap == m0[dk := lock] && lock !in o0 && owner == o0[lock := dk] && c0 == 0
      requires s0 == if m0.Keys == {} then Idle else InUse
      modifies this`state, this`lockMap, this`owner, lock`count
      ensures Valid() && lockMap == m0 && owner == o0 && state == s0 && lock.count == c0
    {
      if dk !in m0 {
        AddThenRemove(m0, dk, lock);
        AddThenRemove(o0, lock, dk);
      }
      assert dk in lockMap.Keys && state == InUse;
      ReleaseLock(dk, lock);
    }

    /** contain(key): false without a store; otherwise whether get(key)
        gives a snapshot, false when it throws. The table and the gate end
        as they began. */
    method Contain(key: string, getThrows: bool) returns (r: bool)
      requires Valid()
      modifies this`state, this`lockMap, this`owner, owner.Keys
      ensures Valid() && owner == old(owner)
      ensures r == (store.Some? && !getThrows && Get(store.value, DiskKey(key)).Some?)
      ensures lockMap == old(lockMap) && state == old(state)
      ensures forall l | l in owner :: l.count == old(l.count)
    {
      var dk := HashKeyForDisk(key);
      ghost var m0, o0, s0, c0 := lockMap, owner, state, Holders(dk);
      var lock := ObtainLock(dk);
      if !IsValid() {
        Leave(dk, lock, m0, o0, s0, c0);
        return false;
      }
      r := !getThrows && Get(store.value, dk).Some?;
      Leave(dk, lock, m0, o0, s0, c0);
    }

    /** remove(key): nothing without a store; otherwise the store's remove,
        an IOException ignored. */
    method Remove(key: string, ioFails: bool)
      requires Valid()
      modifies this`state, this`lockMap, this`owner, this`store, owner.Keys
      ensures Valid() && owner == old(owner)
      ensures store == if old(store).None? || ioFails then old(store)
        else Some(DiskStore.Remove(old(store).value, DiskKey(key)).1)
      ensures lockMap == old(lockMap) && state == old(state)
      ensures forall l | l in owner :: l.count == old(l.count)
    {
      var dk := HashKeyForDisk(key);
      ghost var m0, o0, s0, c0 := lockMap, owner, state, Holders(dk);
      var lock := ObtainLock(dk);
      RemoveLocked(dk, ioFails);
      Leave(dk, lock, m0, o0, s0, c0);
    }

    /** The part of remove(key) between obtainLock and releaseLock: the
        isValid() guard, then the store's remove. */
    method RemoveLocked(dk: string, ioFails: bool)
      requires Valid()
      modifies this`store
      ensures Valid()
      ensures store == if old(store).None? || ioFails then old(store)
        else Some(DiskStore.Remove(old(store).value, dk).1)
    {
      if !IsValid() {
        return;
      }
      if !ioFails {
        DiskStore.RemoveForgets(store.value, dk);
        store := Some(DiskStore.Remove(store.value, dk).1);
      }
    }

    /** put(key, is): putToDisk when a store is open, false otherwise. */
    method Put(key: string, data: Blob, f: PutFaults) returns (r: bool)
      requires Valid()
      modifies this`state, this`lockMap, this`owner, this`store, owner.Keys
      ensures Valid() && owner == old(owner)
      ensures old(store).None? ==> !r && store == old(store)
      ensures old(store).Some? ==>
        var (ok, t) := Stored(old(store).value, DiskKey(key), data, f);
        r == ok && store == Some(t)
      ensures lockMap == old(lockMap) && state == old(state)
      ensures forall l | l in owner :: l.count == old(l.count)
    {
      var dk := HashKeyForDisk(key);
      ghost var m0, o0, s0, c0 := lockMap, owner, state, Holders(dk);
      var lock := ObtainLock(dk);
      r := PutLocked(dk, data, f);
      Leave(dk, lock, m0, o0, s0, c0);
    }

    /** The part of put(key, is) between obtainLock and releaseLock. */
    method PutLocked(dk: string, data: Blob, f: PutFaults) returns (r: bool)
      requires Valid()
      modifies this`store
      ensures Valid()
      ensures old(store).None? ==> !r && store == old(store)
      ensures old(store).Some? ==>
        var (ok, t) := Stored(old(store).value, dk, data, f);
        r == ok && store == Some(t)
    {
      r := false;
      if IsValid() {
        r := PutToDisk(dk, data, f);
      }
    }

    /** putToDisk: edit, write, commit; the catch aborts only while the
        edit is incomplete. */
    method PutToDisk(dk: string, data: Blob, f: PutFaults) returns (r: bool)
      requires store.Some? && DiskStore.Valid(store.value)
      modifies this`store
      ensures store.Some? && DiskStore.Valid(store.value)
      ensures var (ok, t) := Stored(old(store).value, dk, data, f);
        r == ok && store == Some(t)
    {
      StoredPublishes(store.value, dk, data, f);
      var s := store.value;
      var editorOpen := false;
      var completeEdit := false;
      if f.editThrows {
        // the IOException reaches the catch with no editor
      } else if !CanEdit(s, dk) {
        return false;
      } else {
        store := Some(Open(s, dk));
        editorOpen := true;
        if f.stream == StreamThrows {
          // the catch
        } else if f.stream == NullStream {
          completeEdit := true;
          AbortFresh(s, dk);
          store := Some(Abort(store.value, dk));
          return false;
        } else if f.copyThrows {
          // the catch
        } else {
          store := Some(Append(store.value, dk, data));
          completeEdit := true;
          if !f.commitThrows {
            store := Some(Commit(store.value, dk));
            return true;
          }
        }
      }
      // catch (IOException e)
      if !completeEdit && editorOpen {
        AbortFresh(s, dk);
        store := Some(Abort(store.value, dk));
      }
      return false;
    }

    /** getInputStreamPipe: a pipe when contain(key) holds, null otherwise. */
    method GetInputStreamPipe(key: string, getThrows: bool) returns (p: InputPipe?)
      requires Valid()
      modifies this`state, this`lockMap, this`owner, owner.Keys
      ensures Valid() && lockMap == old(lockMap) && state == old(state)
      ensures owner == old(owner)
      ensures p != null <==> store.Some? && !getThrows && Get(store.value, DiskKey(key)).Some?
      ensures p != null ==> (fresh(p) && p.cache == this && p.key == DiskKey(key)
        && p.lock == null && p.snapshot.None?)
    {
      var found := Contain(key, getThrows);
      if found {
        var dk := HashKeyForDisk(key);
        p := new InputPipe(this, dk);
      } else {
        p := null;
      }
    }

    /** getOutputStreamPipe: always a new pipe for the disk key. */
    method GetOutputStreamPipe(key: string) returns (p: OutputPipe)
      ensures fresh(p) && p.cache == this && p.key == DiskKey(key)
        && p.lock == null && !p.editing
    {
      var dk := HashKeyForDisk(key);
      p := new OutputPipe(this, dk);
    }
  }

  /** The constructor: init() opens the store, and its IOException
      (initial == None) leaves the constructor. */
  method NewCache(maxSize: int, digest: string -> seq<Hex.byte>, initial: Option<Store>)
    returns (r: Result<SimpleDiskCache>)
    requires initial.Some? ==> DiskStore.Valid(initial.value)
    ensures r.Err? <==> initial.None?
    ensures r.Err? ==> r.exception == IO
    ensures r.Ok? ==> (fresh(r.value) && r.value.Valid() && r.value.store == initial
      && r.value.lockMap == map[] && r.value.owner == map[] && r.value.state == Idle)
  {
    if initial.None? {
      return Err(IO);
    }
    var c := new SimpleDiskCache(maxSize, digest, initial.value);
    return Ok(c);
  }

  // ---------------------------------------------------------------------
  // The pipes

  /** CacheInputStreamPipe: reads one disk key while holding its lock. */
  class InputPipe {
    const cache: SimpleDiskCache
    const key: string
    var lock: CounterLock?
    /** mCurrentSnapshot: the bytes of the open snapshot. */
    var snapshot: Option<Blob>

    constructor (cache: SimpleDiskCache, key: string)
      ensures this.cache == cache && this.key == key && lock == null && snapshot.None?
    {
      this.cache := cache;
      this.key := key;
      lock := null;
      snapshot := None;
    }

    /** The pipe's lock, while it has one, is still the key's registered
        lock. */
    ghost predicate Holding()
      reads this, cache
    {
      lock != null ==> key in cache.lockMap && cache.lockMap[key] == lock
    }

    /** obtain(): once; occupies the key's lock. */
    method Obtain()
      requires cache.Valid() && Holding()
      modifies this`lock, cache`state, cache`lockMap, cache`owner, cache.owner.Keys
      ensures cache.Valid() && lock != null && Holding()
      ensures old(cache.owner.Keys) <= cache.owner.Keys && fresh(cache.owner.Keys - old(cache.owner.Keys))
      ensures old(lock) != null ==> lock == old(lock) && unchanged(cache) && unchanged(cache.owner.Keys)
      ensures old(lock) == null ==> (cache.state == InUse && lock.count == old(cache.Holders(key)) + 1)
      ensures old(lock) == null && key in old(cache.lockMap) ==>
        lock == old(cache.lockMap)[key] && cache.lockMap == old(cache.lockMap) && cache.owner == old(cache.owner)
      ensures old(lock) == null && key !in old(cache.lockMap) ==>
        fresh(lock) && cache.lockMap == old(cache.lockMap)[key := lock] && cache.owner == old(cache.owner)[lock := key]
      ensures cache.store == old(cache.store)
      ensures forall l | l in old(cache.owner.Keys) && l != lock :: l.count == old(l.count)
    {
      if lock == null {
        lock := cache.ObtainLock(key);
      }
    }

    /** release(): IllegalStateException while a snapshot is open; otherwise
        releases the key's lock. */
    method Release() returns (r: Outcome)
      requires cache.Valid() && Holding()
      modifies this`lock, cache`state, cache`lockMap, cache`owner, cache.owner.Keys`count
      ensures cache.Valid()
      ensures old(snapshot).Some? ==> (r == Thrown(IllegalState) && lock == old(lock) && unchanged(cache))
      ensures old(snapshot).None? ==> r == Normal && lock == null
      ensures old(snapshot).None? && old(lock) != null ==> old(lock).count == old(lock.count) - 1
      ensures old(snapshot).None? && old(lock) == null ==> unchanged(cache)
      ensures old(snapshot).None? && old(lock) != null ==>
        cache.lockMap == (if old(lock).count == 0 then old(cache.lockMap) - {key} else old(cache.lockMap))
        && cache.owner == (if old(lock).count == 0 then old(cache.owner) - {old(lock)} else old(cache.owner))
        && cache.state == (if cache.lockMap.Keys == {} then Idle else old(cache.state))
        && cache.store == old(cache.store)
      ensures forall l | l in old(cache.owner.Keys) && l != old(lock) :: l.count == old(l.count)
    {
      if snapshot.Some? {
        return Thrown(IllegalState);
      }
      if lock != null {
        cache.ReleaseLock(key, lock);
        lock := null;
      }
      return Normal;
    }

    /** open(): the bytes of the key's snapshot; no null check, so a
        NullPointerException without a store. */
    method Open() returns (r: Result<Blob>)
      modifies this`snapshot
      ensures old(lock) == null || old(snapshot).Some? ==> (r == Err(IllegalState) && snapshot == old(snapshot))
      ensures old(lock) != null && old(snapshot).None? ==>
        (if cache.store.None? then r == Err(NullPointer) && snapshot.None?
         else if Get(cache.store.value, key).None? then r == Err(IO) && snapshot.None?
         else r == Ok(Get(cache.store.value, key).value) && snapshot == Some(r.value))
    {
      if lock == null || snapshot.Some? {
        return Err(IllegalState);
      }
      if cache.store.None? {
        return Err(NullPointer);
      }
      var found := Get(cache.store.value, key);
      if found.None? {
        return Err(IO);
      }
      snapshot := found;
      return Ok(found.value);
    }

    /** close(): closes the snapshot, if any. */
    method Close()
      modifies this`snapshot
      ensures snapshot.None?
    {
      snapshot := None;
    }
  }

  /** CacheOutputStreamPipe: writes one disk key while holding its lock. */
  class OutputPipe {
    const cache: SimpleDiskCache
    const key: string
    var lock: CounterLock?
    /** mCurrentEditor != null. */
    var editing: bool

    constructor (cache: SimpleDiskCache, key: string)
      ensures this.cache == cache && this.key == key && lock == null && !editing
    {
      this.cache := cache;
      this.key := key;
      lock := null;
      editing := false;
    }

    ghost predicate Holding()
      reads this, cache
    {
      lock != null ==> key in cache.lockMap && cache.lockMap[key] == lock
    }

    /** obtain(): once; occupies the key's lock. */
    method Obtain()
      requires cache.Valid() && Holding()
      modifies this`lock, cache`state, cache`lockMap, cache`owner, cache.owner.Keys
      ensures cache.Valid() && lock != null && Holding()
      ensures old(cache.owner.Keys) <= cache.owner.Keys && fresh(cache.owner.Keys - old(cache.owner.Keys))
      ensures old(lock) != null ==> lock == old(lock) && unchanged(cache) && unchanged(cache.owner.Keys)
      ensures old(lock) == null ==> (cache.state == InUse && lock.count == old(cache.Holders(key)) + 1)
      ensures old(lock) == null && key in old(cache.lockMap) ==>
        lock == old(cache.lockMap)[key] && cache.lockMap == old(cache.lockMap) && cache.owner == old(cache.owner)
      ensures old(lock) == null && key !in old(cache.lockMap) ==>
        fresh(lock) && cache.lockMap == old(cache.lockMap)[key := lock] && cache.owner == old(cache.owner)[lock := key]
      ensures cache.store == old(cache.store)
      ensures forall l | l in old(cache.owner.Keys) && l != lock :: l.count == old(l.count)
    {
      if lock == null {
        lock := cache.ObtainLock(key);
      }
    }

    /** release(): IllegalStateException while an editor is open; otherwise
        releases the key's lock. */
    method Release() returns (r: Outcome)
      requires cache.Valid() && Holding()
      modifies this`lock, cache`state, cache`lockMap, cache`owner, cache.owner.Keys`count
      ensures cache.Valid()
      ensures old(editing) ==> (r == Thrown(IllegalState) && lock == old(lock) && unchanged(cache))
      ensures !old(editing) ==> r == Normal && lock == null
      ensures !old(editing) && old(lock) != null ==> old(lock).count == old(lock.count) - 1
      ensures !old(editing) && old(lock) == null ==> unchanged(cache)
      ensures !old(editing) && old(lock) != null ==>
        cache.lockMap == (if old(lock).count == 0 then old(cache.lockMap) - {key} else old(cache.lockMap))
        && cache.owner == (if old(lock).count == 0 then old(cache.owner) - {old(lock)} else old(cache.owner))
        && cache.state == (if cache.lockMap.Keys == {} then Idle else old(cache.state))
        && cache.store == old(cache.store)
      ensures forall l | l in old(cache.owner.Keys) && l != old(lock) :: l.count == old(l.count)
    {
      if editing {
        return Thrown(IllegalState);
      }
      if lock != null {
        cache.ReleaseLock(key, lock);
        lock := null;
      }
      return Normal;
    }

    /** open(): an editor on the key; no null check (NullPointerException
        without a store); IOException while another editor is open, and
        when newOutputStream throws (after aborting the editor). */
    method Open(streamThrows: bool) returns (r: Outcome)
      modifies this`editing, cache`store
      ensures old(lock) == null || old(editing) ==> (r == Thrown(IllegalState)
        && editing == old(editing) && cache.store == old(cache.store))
      ensures old(lock) != null && !old(editing) ==>
        if old(cache.store).None? then r == Thrown(NullPointer) && !editing && cache.store == old(cache.store)
        else if !CanEdit(old(cache.store).value, key) || streamThrows then
          r == Thrown(IO) && !editing && cache.store == old(cache.store)
        else
          r == Normal && editing && cache.store == Some(DiskStore.Open(old(cache.store).value, key))
    {
      if lock == null || editing {
        return Thrown(IllegalState);
      }
      if cache.store.None? {
        return Thrown(NullPointer);
      }
      var s := cache.store.value;
      if !CanEdit(s, key) {
        return Thrown(IO);
      }
      cache.store := Some(DiskStore.Open(s, key));
      if streamThrows {
        AbortFresh(s, key);
        cache.store := Some(Abort(cache.store.value, key));
        return Thrown(IO);
      }
      editing := true;
      return Normal;
    }

    /** Bytes the caller writes into the stream open() returned. */
    method Write(bytes: Blob)
      requires editing
      modifies cache`store
      ensures cache.store == if old(cache.store).Some? && key in old(cache.store).value.editing
        then Some(Append(old(cache.store).value, key, bytes)) else old(cache.store)
    {
      if cache.store.Some? && key in cache.store.value.editing {
        cache.store := Some(Append(cache.store.value, key, bytes));
      }
    }

    /** close(): commits the open editor, ignoring an IOException (after
        which the edit stays open). */
    method Close(commitThrows: bool)
      modifies this`editing, cache`store
      ensures !editing
      ensures cache.store == if old(editing) && !commitThrows && old(cache.store).Some?
          && key in old(cache.store).value.editing
        then Some(Commit(old(cache.store).value, key)) else old(cache.store)
    {
      if editing {
        if !commitThrows && cache.store.Some? && key in cache.store.value.editing {
          cache.store := Some(Commit(cache.store.value, key));
        }
        editing := false;
      }
    }
  }

  // ---------------------------------------------------------------------
  // The reference count at work

  /** A pipe reading a key still holds it when a contain() of the same key
      returns: the key stays registered and the gate stays IN_USE, so a
      clear() waits for the pipe. */
  method ContainUnderOpenPipe(c: SimpleDiskCache, key: string) returns (p: InputPipe, ok: bool)
    requires c.Valid() && c.lockMap == map[]
    modifies c, c.owner.Keys
    ensures c.Valid() && p.lock != null && p.Holding()
    ensures c.state == InUse && c.DiskKey(key) in c.lockMap && c.lockMap[c.DiskKey(key)].count == 1
  {
    p := new InputPipe(c, c.DiskKey(key));
    p.Obtain();
    ok := c.Contain(key, false);
  }

  /** n obtains of one key followed by m releases: the key is registered,
      and the gate IN_USE, exactly while fewer than n have been released. */
  method ObtainsThenReleases(digest: string -> seq<Hex.byte>, key: string, n: nat, m: nat)
    returns (registered: bool, gateOpen: bool)
    requires m <= n
    ensures registered <==> m < n
    ensures gateOpen <==> m == n
  {
    var c := new SimpleDiskCache(0, digest, Empty);
    var i := 0;
    var lock: CounterLock? := null;
    while i < n
      invariant 0 <= i <= n && c.Valid()
      invariant c.lockMap.Keys <= {key}
      invariant fresh(c) && (lock != null ==> fresh(lock))
      invariant i == 0 ==> c.lockMap == map[] && c.owner == map[]
      invariant i > 0 ==> (lock != null && c.owner == map[lock := key]
        && key in c.lockMap && c.lockMap[key] == lock && lock.count == i)
    {
      lock := c.ObtainLock(key);
      i := i + 1;
    }
    var j := 0;
    while j < m
      invariant 0 <= j <= m && c.Valid()
      invariant c.lockMap.Keys <= {key}
      invariant j < n ==> lock != null && key in c.lockMap && c.lockMap[key] == lock && lock.count == n - j
      invariant j == n ==> c.lockMap.Keys == {}
      invariant j < n ==> c.owner == map[lock := key]
      invariant fresh(c) && (lock != null ==> fresh(lock))
    {
      c.ReleaseLock(key, lock);
      j := j + 1;
    }
    registered := key in c.lockMap;
    gateOpen := c.state == Idle;
  }
}
