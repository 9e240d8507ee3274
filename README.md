# BeerBelly caches, modelled in Dafny

BeerBelly is a two-tier cache for Android. A memory tier is an LRU cache
bounded by a total weight. A disk tier is a `SimpleDiskCache` that stores
blobs under hex-encoded MD5 file names in a `DiskLruCache`. The repository
holds two revisions of the code:

- the **library** revision (`library/src/...`): `LruCache` with its
  thread-safe and non-thread-safe implementations, a `SimpleDiskCache`
  whose per-key `ReentrantReadWriteLock`s come from a lock table and a
  pool of five, and a `BeerBelly` facade;
- the **src** revision (`src/...`): an `LruMap` (a linked hash map in
  access order with an optional expiry index, `DuplicateJLMap`), an
  `LruCacheEx` on top of it, a `SimpleDiskCache` whose per-key locks are
  reference-counted `CounterLock`s, and its own `BeerBelly` facade.

The model follows each file's own form:

- Objects whose methods update fields become classes, with `modifies`
  frames and contracts that state the new state. These are `LruMap` and
  its entries, `DuplicateJLMap` over arrays, `LruCacheEx`,
  `ThreadSafeLruCache`, `NonThreadSafeLruCache`, `CounterLock`, both
  `SimpleDiskCache` classes with their pipes and lock pool, and both
  `BeerBelly` facades.
- Each such class is proved against value-level functions whose
  properties are proved as lemmas:
  - `LruPairs`: the map's content as key/value pairs, most recently used
    first;
  - `LruCacheSpec`: a linked hash map in access order, plus the
    bookkeeping shared by the library caches;
  - `LruCacheExSpec`: the running size, the trim loop and the
    `entryRemoved` calls;
  - `DiskStore`: what `SimpleDiskCache` relies on from `DiskLruCache`;
  - `Hex`: the disk file names.

Environment inputs become parameters:

- the clock (`now`);
- the weight, removal and creation hooks (function-valued fields);
- the MD5 digest;
- whether an I/O call throws (boolean fault parameters, or a `PutFaults`
  record for `putToDisk`).

Callbacks (`entryAdded`, `entryRemoved`) are recorded in an `Events` log.
Blocking waits on a monitor become preconditions on the gate state. A call
whose wait would never end on one thread is one the caller must not make.

Modules, one per file: `Common`, `Hex`, `CounterLockModel`, `DiskStore`,
`SimpleDiskCacheLib`, `SimpleDiskCacheSrc`, `LruCacheSpec`, `LruCache`
(`LruCache.create`), `ThreadSafeCache`, `NonThreadSafeCache`, `LruMapModel`,
`LruPairs`, `LruRemoveTail`, `DuplicateJL`, `LruCacheExSpec`,
`LruCacheExModel`, `BeerBellyLib`, `BeerBellySrc`.

## Model

| member | source | states |
|---|---|---|
| Hex.Unsigned | library/src/main/java/com/hippo/beerbelly/SimpleDiskCache.java:335 | `0xFF & b` is the byte read as unsigned: it lies in 0..255, equals the byte when that is non-negative, and is the byte plus 256 otherwise |
| Hex.ToHexString | library/src/main/java/com/hippo/beerbelly/SimpleDiskCache.java:335 | `Integer.toHexString` of a non-negative value has at least one digit |
| Hex.PaddedIsPair | library/src/main/java/com/hippo/beerbelly/SimpleDiskCache.java:335-339 | toHexString of the unsigned byte, with a leading `0` added when it has one digit, is the byte's two-digit pair, high nibble first |
| Hex.BytesToHexString | library/src/main/java/com/hippo/beerbelly/SimpleDiskCache.java:332-342 | the StringBuilder loop returns the concatenated pairs of all bytes, two characters per byte |
| Hex.HexLength | library/src/main/java/com/hippo/beerbelly/SimpleDiskCache.java:332-342 | the file name is exactly twice as long as the digest |
| Hex.HexAlphabet | library/src/main/java/com/hippo/beerbelly/SimpleDiskCache.java:332-342 | every character of the file name is a lower-case hexadecimal digit |
| Hex.HexRoundTrip | library/src/main/java/com/hippo/beerbelly/SimpleDiskCache.java:332-342 | reading the name back two digits at a time gives the digest bytes back: the encoding loses nothing |
| Hex.HexInjective | library/src/main/java/com/hippo/beerbelly/SimpleDiskCache.java:313-323 | two digests with the same file name are equal, so distinct digests never share a disk file |
| CounterLockModel.CounterLock.constructor | src/main/java/com/hippo/beerbelly/CounterLock.java:5-12 | a new lock has count 0 and is free |
| CounterLockModel.CounterLock.Release | src/main/java/com/hippo/beerbelly/CounterLock.java:14-19 | the count drops by one first; IllegalStateException exactly when the count was already 0 or less |
| CounterLockModel.CounterLock.Occupy | src/main/java/com/hippo/beerbelly/CounterLock.java:21-23 | the count rises by one |
| CounterLockModel.BalancedUseIsFree | src/main/java/com/hippo/beerbelly/CounterLock.java:10-23 | n occupy() calls followed by n release() calls on a new lock never throw and leave it free |
| DiskStore.StoredPublishes | library/src/main/java/com/hippo/beerbelly/SimpleDiskCache.java:271-305 | putToDisk returns true exactly when the edit can start and no step fails. A true put publishes exactly its bytes; a false one leaves the key's entry as it was. No other key changes |
| DiskStore.StuckAfterFailedCommit | library/src/main/java/com/hippo/beerbelly/SimpleDiskCache.java:283-288 | when commit throws, completeEdit is already set and the catch does not abort; taking DiskLruCache to keep the edit open after a throwing commit, every later put of that key returns false |
| DiskStore.Size | library/src/main/java/com/hippo/beerbelly/SimpleDiskCache.java:82-90 | size() is the published entries' byte count, never negative |
| DiskStore.CommitPublishes | library/src/main/java/com/hippo/beerbelly/SimpleDiskCache.java:276-287 | an edit opened, written and committed publishes exactly the bytes written under the key and leaves every other key as it was |
| DiskStore.AbortRestores | library/src/main/java/com/hippo/beerbelly/SimpleDiskCache.java:288-300 | aborting an edit restores the store it was opened on |
| DiskStore.AbortFresh | library/src/main/java/com/hippo/beerbelly/SimpleDiskCache.java:288-300 | aborting an edit that wrote nothing restores the store |
| DiskStore.RemoveForgets | library/src/main/java/com/hippo/beerbelly/SimpleDiskCache.java:215-223 | a remove that succeeds makes the key read as absent; it succeeds exactly when the key has an entry and no open edit; a refused remove changes nothing; no other key changes |
| SimpleDiskCacheLib.Obtained | library/src/main/java/com/hippo/beerbelly/SimpleDiskCache.java:153-174 | obtainLock leaves the key registered with the returned lock, changes no other key's registration, and leaves the table alone when the key already had a lock |
| SimpleDiskCacheLib.Released | library/src/main/java/com/hippo/beerbelly/SimpleDiskCache.java:176-188 | releaseLock changes nothing when the lock is write-locked; otherwise the key leaves the table, other keys stay, and the pool keeps within its five slots |
| SimpleDiskCacheLib.UnusedKeyRestores | library/src/main/java/com/hippo/beerbelly/SimpleDiskCache.java:153-188 | obtaining and releasing a key nobody holds, with a lock in the pool, restores the table and the pool exactly |
| SimpleDiskCacheLib.ReleaseIgnoresHolders | library/src/main/java/com/hippo/beerbelly/SimpleDiskCache.java:176-181 | when a held key is obtained and released by a second caller, the key leaves the table, and the next new key is handed the lock the first holder still uses |
| SimpleDiskCacheLib.Pool.constructor | library/src/main/java/com/hippo/beerbelly/SimpleDiskCache.java:486-493 | a new pool is empty, with room for size locks |
| SimpleDiskCacheLib.Pool.Push | library/src/main/java/com/hippo/beerbelly/SimpleDiskCache.java:495-499 | a non-null lock is kept on top when there is room; otherwise the pool is unchanged |
| SimpleDiskCacheLib.Pool.Get | library/src/main/java/com/hippo/beerbelly/SimpleDiskCache.java:501-509 | get takes the youngest spare lock off the pool, or returns a new lock when the pool is empty |
| SimpleDiskCacheLib.NewPool | library/src/main/java/com/hippo/beerbelly/SimpleDiskCache.java:486-489 | new Pool(size) throws IllegalStateException exactly when size <= 0; otherwise it gives an empty valid pool |
| SimpleDiskCacheLib.PoolIsLifo | library/src/main/java/com/hippo/beerbelly/SimpleDiskCache.java:495-509 | a lock pushed into a pool with room is the one get returns next, and the pool ends as it began |
| SimpleDiskCacheLib.SimpleDiskCache.constructor | library/src/main/java/com/hippo/beerbelly/SimpleDiskCache.java:57-66 | the store is the one init() opened, or none when the open threw (the exception is caught); the gate is NONE and the table empty |
| SimpleDiskCacheLib.SimpleDiskCache.Size | library/src/main/java/com/hippo/beerbelly/SimpleDiskCache.java:82-90 | size() is -1 exactly when no store is open, and the store's size otherwise |
| SimpleDiskCacheLib.SimpleDiskCache.HashKeyForDisk | library/src/main/java/com/hippo/beerbelly/SimpleDiskCache.java:313-323 | the disk key is the hex name of the key's digest, two characters per digest byte |
| SimpleDiskCacheLib.SimpleDiskCache.Flush | library/src/main/java/com/hippo/beerbelly/SimpleDiskCache.java:92-115 | flush() waits for NONE and leaves the gate at NONE |
| SimpleDiskCacheLib.SimpleDiskCache.Clear | library/src/main/java/com/hippo/beerbelly/SimpleDiskCache.java:117-151 | clear() returns false at once, changing nothing, without a store. Otherwise it returns true exactly when the reopen succeeds and leaves the gate at NONE; the store is none when the reopen throws, whatever entries survived (unconstrained beyond distinct keys and no open editor) when delete() threw and was only logged, and empty otherwise |
| SimpleDiskCacheLib.SimpleDiskCache.ObtainLock | library/src/main/java/com/hippo/beerbelly/SimpleDiskCache.java:153-174 | the gate becomes IN_USE and the table and pool change as Obtained says |
| SimpleDiskCacheLib.SimpleDiskCache.ReleaseLock | library/src/main/java/com/hippo/beerbelly/SimpleDiskCache.java:176-188 | the table and pool change as Released says for the lock's current write holds, and the gate returns to NONE exactly when the table is empty |
| SimpleDiskCacheLib.SimpleDiskCache.ReadLock | library/src/main/java/com/hippo/beerbelly/SimpleDiskCache.java:197 | lock.readLock().lock() adds one reader hold on that lock and no other |
| SimpleDiskCacheLib.SimpleDiskCache.ReadUnlock | library/src/main/java/com/hippo/beerbelly/SimpleDiskCache.java:201 | lock.readLock().unlock() takes one reader hold off that lock |
| SimpleDiskCacheLib.SimpleDiskCache.WriteLock | library/src/main/java/com/hippo/beerbelly/SimpleDiskCache.java:214 | lock.writeLock().lock() adds one writer hold on that lock |
| SimpleDiskCacheLib.SimpleDiskCache.WriteUnlock | library/src/main/java/com/hippo/beerbelly/SimpleDiskCache.java:224 | lock.writeLock().unlock() takes one writer hold off that lock |
| SimpleDiskCacheLib.SimpleDiskCache.Contain | library/src/main/java/com/hippo/beerbelly/SimpleDiskCache.java:190-205 | contain() is true exactly when a store is open and holds the disk key; the lock holds end as they began and the table as obtain-then-release leaves it |
| SimpleDiskCacheLib.SimpleDiskCache.ReadContains | library/src/main/java/com/hippo/beerbelly/SimpleDiskCache.java:197-201 | under a read hold that is given back, the answer is whether the store holds the disk key |
| SimpleDiskCacheLib.SimpleDiskCache.Remove | library/src/main/java/com/hippo/beerbelly/SimpleDiskCache.java:207-228 | remove() is false, with the store unchanged, without a store or when the store's remove throws; otherwise it is the store's remove of the disk key |
| SimpleDiskCacheLib.SimpleDiskCache.WriteRemove | library/src/main/java/com/hippo/beerbelly/SimpleDiskCache.java:214-225 | under a write hold that is given back, the store's remove of the disk key, or nothing when it throws |
| SimpleDiskCacheLib.SimpleDiskCache.Put | library/src/main/java/com/hippo/beerbelly/SimpleDiskCache.java:251-269 | put() is false, with the store unchanged, without a store; otherwise its result and new store are putToDisk's (DiskStore.Stored) on the disk key |
| SimpleDiskCacheLib.SimpleDiskCache.WritePut | library/src/main/java/com/hippo/beerbelly/SimpleDiskCache.java:258-265 | under a write hold that is given back, the result and store are putToDisk's |
| SimpleDiskCacheLib.SimpleDiskCache.PutToDisk | library/src/main/java/com/hippo/beerbelly/SimpleDiskCache.java:271-305 | the step-by-step edit, copy, commit and catch ends with the result and store DiskStore.Stored gives |
| SimpleDiskCacheLib.SimpleDiskCache.GetInputStreamPipe | library/src/main/java/com/hippo/beerbelly/SimpleDiskCache.java:236-243 | a new pipe on the disk key exactly when contain(key) holds, null otherwise |
| SimpleDiskCacheLib.SimpleDiskCache.GetOutputStreamPipe | library/src/main/java/com/hippo/beerbelly/SimpleDiskCache.java:246-249 | always a new pipe on the disk key, holding no lock and no editor |
| SimpleDiskCacheLib.InputPipe.constructor | library/src/main/java/com/hippo/beerbelly/SimpleDiskCache.java:350-352 | a new pipe on its key holds no lock and no snapshot |
| SimpleDiskCacheLib.InputPipe.Obtain | library/src/main/java/com/hippo/beerbelly/SimpleDiskCache.java:355-360 | the first obtain() takes the key's lock as obtainLock does and adds one read hold; later calls change nothing |
| SimpleDiskCacheLib.InputPipe.Release | library/src/main/java/com/hippo/beerbelly/SimpleDiskCache.java:363-373 | IllegalStateException, changing nothing, while a snapshot is open. Otherwise it drops the read hold, releases the key as releaseLock does, and forgets the lock |
| SimpleDiskCacheLib.InputPipe.Open | library/src/main/java/com/hippo/beerbelly/SimpleDiskCache.java:376-394 | IllegalStateException before obtain() or while a snapshot is open; IOException without a store or when the key is missing; otherwise the key's bytes, kept as the open snapshot |
| SimpleDiskCacheLib.InputPipe.Close | library/src/main/java/com/hippo/beerbelly/SimpleDiskCache.java:397-400 | no snapshot is open afterwards |
| SimpleDiskCacheLib.OutputPipe.constructor | library/src/main/java/com/hippo/beerbelly/SimpleDiskCache.java:409-411 | a new pipe on its key holds no lock and no editor |
| SimpleDiskCacheLib.OutputPipe.Obtain | library/src/main/java/com/hippo/beerbelly/SimpleDiskCache.java:414-419 | the first obtain() takes the key's lock as obtainLock does and adds one write hold; later calls change nothing |
| SimpleDiskCacheLib.OutputPipe.Release | library/src/main/java/com/hippo/beerbelly/SimpleDiskCache.java:422-432 | IllegalStateException, changing nothing, while an editor is open. Otherwise it drops the write hold, releases the key as releaseLock does, and forgets the lock |
| SimpleDiskCacheLib.OutputPipe.Open | library/src/main/java/com/hippo/beerbelly/SimpleDiskCache.java:435-465 | IllegalStateException before obtain() or while an editor is open. IOException without a store, while another edit of the key is open, or when newOutputStream throws (the edit is aborted, so the store is as before). Otherwise an edit of the key is open |
| SimpleDiskCacheLib.OutputPipe.Write | library/src/main/java/com/hippo/beerbelly/SimpleDiskCache.java:453-455 | bytes written into the open stream are appended to the key's edit |
| SimpleDiskCacheLib.OutputPipe.Close | library/src/main/java/com/hippo/beerbelly/SimpleDiskCache.java:468-477 | an open edit is committed unless commit throws, in which case it stays open in the store; no editor is held afterwards |
| SimpleDiskCacheLib.ContainUnderOpenPipe | library/src/main/java/com/hippo/beerbelly/SimpleDiskCache.java:176-188 | while a pipe still holds a read lock on a key, a contain() of that key empties the table and opens the gate to NONE, so clear() may run under the open pipe |
| SimpleDiskCacheSrc.SimpleDiskCache.constructor | src/main/java/com/hippo/beerbelly/SimpleDiskCache.java:55-60 | once init() has opened the store: gate NONE, empty table |
| SimpleDiskCacheSrc.NewCache | src/main/java/com/hippo/beerbelly/SimpleDiskCache.java:55-74 | the constructor fails with the IOException of init() exactly when the open fails (it is not caught here); otherwise an empty table and the gate at NONE |
| SimpleDiskCacheSrc.SimpleDiskCache.Size | src/main/java/com/hippo/beerbelly/SimpleDiskCache.java:76-80 | size() has no null check: NullPointerException exactly when no store is open, the store's size otherwise |
| SimpleDiskCacheSrc.SimpleDiskCache.HashKeyForDisk | src/main/java/com/hippo/beerbelly/SimpleDiskCache.java:326-336 | the disk key is the hex name of the key's digest, two characters per digest byte |
| SimpleDiskCacheSrc.SimpleDiskCache.Flush | src/main/java/com/hippo/beerbelly/SimpleDiskCache.java:82-105 | flush() waits until no key is held and leaves the gate at NONE with the invariant kept |
| SimpleDiskCacheSrc.SimpleDiskCache.Clear | src/main/java/com/hippo/beerbelly/SimpleDiskCache.java:108-142 | clear() returns false at once, changing nothing, without a store. Otherwise it returns true exactly when the reopen succeeds and leaves the gate at NONE; the store is none when the reopen throws, whatever entries survived (unconstrained beyond distinct keys and no open editor) when delete() threw and was only logged, and empty otherwise |
| SimpleDiskCacheSrc.SimpleDiskCache.ObtainLock | src/main/java/com/hippo/beerbelly/SimpleDiskCache.java:145-167 | the gate becomes IN_USE; the key keeps its registered lock, or a new lock is registered for it alone. Its count becomes the number of holders plus one, and no other lock's count changes |
| SimpleDiskCacheSrc.SimpleDiskCache.ReleaseLock | src/main/java/com/hippo/beerbelly/SimpleDiskCache.java:169-181 | the key's count drops by one, and the key leaves the table exactly when the count reaches 0. The gate returns to NONE exactly when the table is empty |
| SimpleDiskCacheSrc.SimpleDiskCache.Leave | src/main/java/com/hippo/beerbelly/SimpleDiskCache.java:169-181 | the releaseLock that ends a keyed operation restores the table, the owners, the gate and the key's count to what they were before its obtainLock |
| SimpleDiskCacheSrc.SimpleDiskCache.Contain | src/main/java/com/hippo/beerbelly/SimpleDiskCache.java:183-214 | contain() is true exactly when a store is open, get() does not throw and the store holds the disk key; the table, the gate and every count end as they began |
| SimpleDiskCacheSrc.SimpleDiskCache.Remove | src/main/java/com/hippo/beerbelly/SimpleDiskCache.java:216-237 | remove() leaves the store as it was without a store or when the store's remove throws, and removes the disk key otherwise; the table, the gate and every count end as they began |
| SimpleDiskCacheSrc.SimpleDiskCache.RemoveLocked | src/main/java/com/hippo/beerbelly/SimpleDiskCache.java:221-232 | the isValid() guard, then the store's remove of the disk key, an IOException ignored |
| SimpleDiskCacheSrc.SimpleDiskCache.Put | src/main/java/com/hippo/beerbelly/SimpleDiskCache.java:259-274 | put() is false, with the store unchanged, without a store; otherwise its result and new store are putToDisk's. The table, the gate and every count end as they began |
| SimpleDiskCacheSrc.SimpleDiskCache.PutLocked | src/main/java/com/hippo/beerbelly/SimpleDiskCache.java:264-269 | putToDisk on the disk key when a store is open, false otherwise |
| SimpleDiskCacheSrc.SimpleDiskCache.PutToDisk | src/main/java/com/hippo/beerbelly/SimpleDiskCache.java:276-309 | the step-by-step edit, copy, commit and catch ends with the result and store DiskStore.Stored gives |
| SimpleDiskCacheSrc.SimpleDiskCache.GetInputStreamPipe | src/main/java/com/hippo/beerbelly/SimpleDiskCache.java:244-251 | a new pipe on the disk key exactly when contain(key) holds, null otherwise; the table and gate end as they began |
| SimpleDiskCacheSrc.SimpleDiskCache.GetOutputStreamPipe | src/main/java/com/hippo/beerbelly/SimpleDiskCache.java:253-256 | always a new pipe on the disk key, holding no lock and no editor |
| SimpleDiskCacheSrc.InputPipe.constructor | src/main/java/com/hippo/beerbelly/SimpleDiskCache.java:363-365 | a new pipe on its key holds no lock and no snapshot |
| SimpleDiskCacheSrc.InputPipe.Obtain | src/main/java/com/hippo/beerbelly/SimpleDiskCache.java:368-373 | the first obtain() occupies the key's lock as obtainLock does: the count plus one and the gate IN_USE; a registered key keeps its lock, table and owners, a new key gets a fresh lock registered for it; no other lock's count and not the store changes; later calls change nothing |
| SimpleDiskCacheSrc.InputPipe.Release | src/main/java/com/hippo/beerbelly/SimpleDiskCache.java:376-386 | IllegalStateException, changing nothing, while a snapshot is open. Otherwise, without a lock, nothing changes; with one, its count drops by one, the key and its lock leave the table and owners exactly when the count reaches 0 and stay otherwise, the gate turns NONE exactly when the table is empty, and no other lock's count and not the store changes |
| SimpleDiskCacheSrc.InputPipe.Open | src/main/java/com/hippo/beerbelly/SimpleDiskCache.java:389-404 | IllegalStateException before obtain() or while a snapshot is open; NullPointerException without a store (no null check); IOException when the key is missing; otherwise the key's bytes |
| SimpleDiskCacheSrc.InputPipe.Close | src/main/java/com/hippo/beerbelly/SimpleDiskCache.java:407-410 | no snapshot is open afterwards |
| SimpleDiskCacheSrc.OutputPipe.constructor | src/main/java/com/hippo/beerbelly/SimpleDiskCache.java:419-421 | a new pipe on its key holds no lock and no editor |
| SimpleDiskCacheSrc.OutputPipe.Obtain | src/main/java/com/hippo/beerbelly/SimpleDiskCache.java:424-429 | the first obtain() occupies the key's lock as obtainLock does: the count plus one and the gate IN_USE; a registered key keeps its lock, table and owners, a new key gets a fresh lock registered for it; no other lock's count and not the store changes; later calls change nothing |
| SimpleDiskCacheSrc.OutputPipe.Release | src/main/java/com/hippo/beerbelly/SimpleDiskCache.java:432-442 | IllegalStateException, changing nothing, while an editor is open. Otherwise, without a lock, nothing changes; with one, its count drops by one, the key and its lock leave the table and owners exactly when the count reaches 0 and stay otherwise, the gate turns NONE exactly when the table is empty, and no other lock's count and not the store changes |
| SimpleDiskCacheSrc.OutputPipe.Open | src/main/java/com/hippo/beerbelly/SimpleDiskCache.java:445-472 | IllegalStateException before obtain() or while an editor is open. NullPointerException without a store. IOException while another edit of the key is open or when newOutputStream throws (the edit is aborted). Otherwise an edit of the key is open |
| SimpleDiskCacheSrc.OutputPipe.Write | src/main/java/com/hippo/beerbelly/SimpleDiskCache.java:460-462 | bytes written into the open stream are appended to the key's edit |
| SimpleDiskCacheSrc.OutputPipe.Close | src/main/java/com/hippo/beerbelly/SimpleDiskCache.java:475-484 | an open edit is committed unless commit throws, in which case it stays open in the store; no editor is held afterwards |
| SimpleDiskCacheSrc.ContainUnderOpenPipe | src/main/java/com/hippo/beerbelly/SimpleDiskCache.java:145-181 | while a pipe holds a key, a contain() of that key leaves it registered with count 1 and the gate IN_USE, so clear() waits for the pipe |
| SimpleDiskCacheSrc.ObtainsThenReleases | src/main/java/com/hippo/beerbelly/SimpleDiskCache.java:145-181 | after n obtains of a key and m <= n releases, the key is registered exactly when m < n, and the gate is NONE exactly when m = n |
| LruCacheSpec.PutLastTwice | library/src/main/java/com/hippo/beerbelly/ThreadSafeLruCache.java:129 | putting the same key twice into the access-ordered map leaves only the second value, as the youngest entry |
| LruCacheSpec.LookupNone | library/src/main/java/com/hippo/beerbelly/ThreadSafeLruCache.java:80 | get finds nothing exactly when no pair has the key |
| LruCacheSpec.LookupSome | library/src/main/java/com/hippo/beerbelly/ThreadSafeLruCache.java:80 | a value get finds is the value of a pair of that key |
| LruCacheSpec.RemoveKeyProps | library/src/main/java/com/hippo/beerbelly/ThreadSafeLruCache.java:151 | after LinkedHashMap.remove no pair has the key, every other pair is kept in order with its lookups unchanged, keys stay distinct, and removing an absent key changes nothing |
| LruCacheSpec.PutLastProps | library/src/main/java/com/hippo/beerbelly/ThreadSafeLruCache.java:129 | after LinkedHashMap.put the key maps to the new value, other keys keep their values, and keys stay distinct |
| LruCacheSpec.WeightNonNegative | library/src/main/java/com/hippo/beerbelly/ThreadSafeLruCache.java:195-201 | with every weight non-negative (safeSizeOf's check), the running size is non-negative, and 0 for an empty map |
| LruCacheSpec.WeightRemoveKey | library/src/main/java/com/hippo/beerbelly/ThreadSafeLruCache.java:150-154 | removing a key takes exactly its pair's weight off the total |
| LruCacheSpec.WeightPutLast | library/src/main/java/com/hippo/beerbelly/ThreadSafeLruCache.java:127-133 | a put changes the total by the new weight minus the weight of the replaced value |
| LruCacheSpec.Evicted | library/src/main/java/com/hippo/beerbelly/ThreadSafeLruCache.java:165-188 | trimToSize evicts at most all entries |
| LruCacheSpec.EvictedMeetsLimit | library/src/main/java/com/hippo/beerbelly/ThreadSafeLruCache.java:165-188 | after trimToSize the total is at most the limit or the map is empty, and every evicted entry was evicted while the total was over the limit |
| LruCacheSpec.EvictAllEmpties | library/src/main/java/com/hippo/beerbelly/ThreadSafeLruCache.java:190-193 | trimToSize(-1), as evictAll and close use it, evicts every entry, zero-weight ones included |
| LruCacheSpec.SuffixInvariant | library/src/main/java/com/hippo/beerbelly/ThreadSafeLruCache.java:179-183 | each eviction keeps keys distinct and weights non-negative, and lowers the size by exactly the evicted entry's weight |
| LruCacheSpec.YoungestSurvives | library/src/main/java/com/hippo/beerbelly/ThreadSafeLruCache.java:165-188 | an entry that fits under the limit on its own and was used last is never evicted by the trim |
| LruCache.Create | library/src/main/java/com/hippo/beerbelly/LruCache.java:33-37 | create gives a ThreadSafeLruCache when threadSafe and a NonThreadSafeLruCache otherwise, empty and with the given maximum, or IllegalArgumentException exactly when maxSize <= 0 |
| ThreadSafeCache.ThreadSafeLruCache.constructor | library/src/main/java/com/hippo/beerbelly/ThreadSafeLruCache.java:33-40 | a new cache is empty, consistent (size 0) and has the given maximum and hooks; maxSize <= 0 is left to LruCache.Create |
| ThreadSafeCache.ThreadSafeLruCache.TrimToSize | library/src/main/java/com/hippo/beerbelly/ThreadSafeLruCache.java:165-188 | only the eldest entries go. On a consistent cache it evicts exactly as many eldest entries as Evicted says, never throws, reports each eviction as onEntryRemoved(true, key, value, null), and ends with the size at most the limit or the map empty |
| ThreadSafeCache.ThreadSafeLruCache.Put | library/src/main/java/com/hippo/beerbelly/ThreadSafeLruCache.java:119-141 | onEntryAdded is called first. A negative weight throws IllegalStateException with the map unchanged. Otherwise the previous value is returned, the key becomes the youngest with the new value, a replacement is reported, the cache is trimmed to maxSize, and the size stays the entries' weight |
| ThreadSafeCache.ThreadSafeLruCache.Get | library/src/main/java/com/hippo/beerbelly/ThreadSafeLruCache.java:73-116 | a hit returns the value and makes it the youngest, changing nothing else. A miss with no created value returns null and changes nothing. A created value is inserted as the youngest and the cache trimmed, with no onEntryAdded; with a negative weight it throws after the insert |
| ThreadSafeCache.ThreadSafeLruCache.InstallCreated | library/src/main/java/com/hippo/beerbelly/ThreadSafeLruCache.java:98-115 | if another thread mapped the key while create ran, that value is put back as the youngest and returned, and the created value is reported as onEntryRemoved(false, key, created, mapped). Otherwise the created value is counted and the cache trimmed |
| ThreadSafeCache.ThreadSafeLruCache.Remove | library/src/main/java/com/hippo/beerbelly/ThreadSafeLruCache.java:144-162 | the previous value is returned, the key is gone, other entries keep their order, the size drops by its weight, and the removal is reported as onEntryRemoved(false, key, value, null) |
| ThreadSafeCache.ThreadSafeLruCache.Resize | library/src/main/java/com/hippo/beerbelly/ThreadSafeLruCache.java:53-62 | IllegalArgumentException, changing nothing, for maxSize <= 0; otherwise the maximum is set and the cache trimmed to it |
| ThreadSafeCache.ThreadSafeLruCache.Close | library/src/main/java/com/hippo/beerbelly/ThreadSafeLruCache.java:65-70 | the maximum becomes -1 and every entry is evicted and reported, leaving size 0 |
| ThreadSafeCache.ThreadSafeLruCache.EvictAll | library/src/main/java/com/hippo/beerbelly/ThreadSafeLruCache.java:190-193 | every entry, zero-weight ones included, is evicted and reported, leaving size 0; the maximum stays |
| NonThreadSafeCache.NonThreadSafeLruCache.constructor | library/src/main/java/com/hippo/beerbelly/NonThreadSafeLruCache.java:35-42 | a new cache is empty, consistent (size 0) and has the given maximum and hooks; maxSize <= 0 is left to LruCache.Create |
| NonThreadSafeCache.NonThreadSafeLruCache.TrimToSize | library/src/main/java/com/hippo/beerbelly/NonThreadSafeLruCache.java:134-153 | only the eldest entries go. On a consistent cache it evicts exactly as many eldest entries as Evicted says, never throws, reports each eviction as onEntryRemoved(true, key, value, null), and ends with the size at most the limit or the map empty |
| NonThreadSafeCache.NonThreadSafeLruCache.Put | library/src/main/java/com/hippo/beerbelly/NonThreadSafeLruCache.java:94-113 | onEntryAdded is called first. A negative weight throws IllegalStateException with the map unchanged. Otherwise the previous value is returned, the key becomes the youngest with the new value, a replacement is reported, the cache is trimmed to maxSize, and the size stays the entries' weight |
| NonThreadSafeCache.NonThreadSafeLruCache.Get | library/src/main/java/com/hippo/beerbelly/NonThreadSafeLruCache.java:71-91 | a hit returns the value and makes it the youngest, changing nothing else. A miss with no created value returns null and changes nothing. A created value is inserted as the youngest and the cache trimmed, with no onEntryAdded; with a negative weight it throws after the insert |
| NonThreadSafeCache.NonThreadSafeLruCache.Remove | library/src/main/java/com/hippo/beerbelly/NonThreadSafeLruCache.java:116-131 | the previous value is returned, the key is gone, other entries keep their order, the size drops by its weight, and the removal is reported as onEntryRemoved(false, key, value, null) |
| NonThreadSafeCache.NonThreadSafeLruCache.Resize | library/src/main/java/com/hippo/beerbelly/NonThreadSafeLruCache.java:55-62 | IllegalArgumentException, changing nothing, for maxSize <= 0; otherwise the maximum is set and the cache trimmed to it |
| NonThreadSafeCache.NonThreadSafeLruCache.Close | library/src/main/java/com/hippo/beerbelly/NonThreadSafeLruCache.java:65-68 | the maximum becomes -1 and every entry is evicted and reported, leaving size 0 |
| NonThreadSafeCache.NonThreadSafeLruCache.EvictAll | library/src/main/java/com/hippo/beerbelly/NonThreadSafeLruCache.java:156-158 | every entry, zero-weight ones included, is evicted and reported, leaving size 0; the maximum stays |
| LruMapModel.Find | src/main/java/com/hippo/beerbelly/LruMap.java:133 | mMap.get finds a position holding the key, and finds none exactly when no entry holds it |
| LruMapModel.WithoutKey | src/main/java/com/hippo/beerbelly/LruMap.java:192-197 | mMap.remove with the unlinking of its entry takes out exactly one entry when the key is present and nothing otherwise |
| LruMapModel.WithoutKeyValues | src/main/java/com/hippo/beerbelly/LruMap.java:189-207 | after remove the key reads as absent, every other key reads as before, and keys stay distinct |
| LruMapModel.MoveToFrontValues | src/main/java/com/hippo/beerbelly/LruMap.java:90-107 | frontEntry changes no lookup and keeps keys distinct |
| LruMapModel.MoveToFront | src/main/java/com/hippo/beerbelly/LruMap.java:90-107 | frontEntry puts the chosen entry at the head and keeps the same entries |
| LruMapModel.PushKeys | src/main/java/com/hippo/beerbelly/LruMap.java:166-178 | the new head entry of put reads as the value put, and every other key as before |
| LruMapModel.UnexpiredValues | src/main/java/com/hippo/beerbelly/LruMap.java:109-128 | after trimToTimeout a key reads as its value while its expiry is after now, and as absent once it has expired |
| LruMapModel.Unexpired | src/main/java/com/hippo/beerbelly/LruMap.java:109-128 | the entries trimToTimeout keeps are a subsequence, no longer than the list |
| LruMapModel.TimedOf | src/main/java/com/hippo/beerbelly/LruMap.java:182-185 | the timeout index holds one record (expired, entry) per entry, in the same positions |
| LruMapModel.Later | src/main/java/com/hippo/beerbelly/LruMap.java:366-386 | the records whose expiry is after l, no more than there were |
| LruMapModel.LaterTimedOf | src/main/java/com/hippo/beerbelly/LruMap.java:366-386 | the records after now are exactly the records of the unexpired entries |
| LruMapModel.UnexpiredDistinct | src/main/java/com/hippo/beerbelly/LruMap.java:109-128 | trimToTimeout keeps keys distinct and only drops keys |
| LruMapModel.GoneIffExpired | src/main/java/com/hippo/beerbelly/LruMap.java:114-127 | with the timeout index a sorted permutation of the entries' records, split at getRemoveSize, an entry is among the first removeSize records exactly when it has expired |
| LruMapModel.KeepUnexpired | src/main/java/com/hippo/beerbelly/LruMap.java:118-127 | dropping the entries of the first removeSize records drops exactly the expired entries and keeps the order |
| LruMapModel.TrimStep | src/main/java/com/hippo/beerbelly/LruMap.java:118-125 | each round of the trim loop finds the record's entry still in the list and removes exactly that entry |
| LruMapModel.TrimOutcome | src/main/java/com/hippo/beerbelly/LruMap.java:109-128 | the trim loop plus removeAtRange leaves the list holding exactly the unexpired entries and the index holding exactly their records |
| LruMapModel.LaterMultiset | src/main/java/com/hippo/beerbelly/LruMap.java:366-386 | filtering records by expiry preserves being a permutation |
| LruMapModel.DistinctValues | src/main/java/com/hippo/beerbelly/LruMap.java:244-252 | an index that is a permutation of records with distinct entries has distinct entries |
| LruMapModel.KeySetSize | src/main/java/com/hippo/beerbelly/LruMap.java:223-225 | with distinct keys there are as many keys as entries |
| LruMapModel.TabledSize | src/main/java/com/hippo/beerbelly/LruMap.java:223-225 | mMap.size() equals the number of entries in the list when the table is in step with it |
| LruMapModel.Unlink | src/main/java/com/hippo/beerbelly/LruMap.java:66-78 | removeEntry's first half joins the neighbours of the entry and clears its links, leaving every key, value and expiry unchanged |
| LruMapModel.Splice | src/main/java/com/hippo/beerbelly/LruMap.java:66-88 | removeEntry on a well-linked list leaves a well-linked list without the entry, with head and tail updated |
| LruMapModel.Fill | src/main/java/com/hippo/beerbelly/LruMap.java:163-165 | put stores the key and value (and expiry) in the entry and leaves its links alone |
| LruMapModel.Reindex | src/main/java/com/hippo/beerbelly/LruMap.java:182-185 | mTimeoutMap.put adds exactly the new entry's record to the index |
| LruMapModel.Unindex | src/main/java/com/hippo/beerbelly/LruMap.java:158-160 | mTimeoutMap.delete(expired, entry) takes exactly that entry's record out of the index |
| LruMapModel.LruMap.constructor | src/main/java/com/hippo/beerbelly/LruMap.java:50-64 | LruMap(timeout) is empty and keeps a timeout index exactly when timeout > 0; LruMap() passes 0 |
| LruMapModel.LruMap.TrimToTimeout | src/main/java/com/hippo/beerbelly/LruMap.java:109-128 | trimToTimeout leaves exactly the entries whose expiry is after now, in the same order, and the map valid; without a timeout nothing changes |
| LruMapModel.LruMap.TrimNext | src/main/java/com/hippo/beerbelly/LruMap.java:119-125 | one round of the trim loop: the i-th index record's entry leaves the list and the table, and the loop state advances to i + 1 with the index untouched |
| LruMapModel.LruMap.RemoveExpired | src/main/java/com/hippo/beerbelly/LruMap.java:118-125 | the trim loop removes from the list and the table the entries of the first removeSize index records |
| LruMapModel.LruMap.FinishTrim | src/main/java/com/hippo/beerbelly/LruMap.java:127 | removeAtRange(0, removeSize) marks the first records deleted, after which the index holds exactly the remaining entries' records |
| LruMapModel.LruMap.FrontEntry | src/main/java/com/hippo/beerbelly/LruMap.java:90-107 | frontEntry moves the j-th entry to the head and keeps the rest in order |
| LruMapModel.LruMap.Get | src/main/java/com/hippo/beerbelly/LruMap.java:130-140 | after trimToTimeout, get returns the value of the key if present and moves its entry to the head; a missing key returns null and nothing moves |
| LruMapModel.LruMap.Lookup | src/main/java/com/hippo/beerbelly/LruMap.java:133-139 | the lookup and the move to the head of get, on an already trimmed map |
| LruMapModel.LruMap.DetachKey | src/main/java/com/hippo/beerbelly/LruMap.java:152-163 | mMap.remove, removeEntry and the index delete: the key's entry, if any, leaves the table, the list and the index; null exactly when the key was absent |
| LruMapModel.LruMap.RemoveEntry | src/main/java/com/hippo/beerbelly/LruMap.java:66-88 | removeEntry unlinks the j-th entry: the list loses exactly it, the links stay consistent, and its key, value and expiry are kept |
| LruMapModel.LruMap.Put | src/main/java/com/hippo/beerbelly/LruMap.java:145-187 | after trimToTimeout, put returns the previous value of the key (null if none), the key heads the list with the new value and expiry now + timeout, and the rest is the old list without the key |
| LruMapModel.LruMap.PutTrimmed | src/main/java/com/hippo/beerbelly/LruMap.java:148-186 | put on an already trimmed map |
| LruMapModel.LruMap.Reinsert | src/main/java/com/hippo/beerbelly/LruMap.java:165-186 | the old entry, if any, is reused (else a new one made), takes the key and value and goes to the head, the table and the index |
| LruMapModel.LruMap.AttachNew | src/main/java/com/hippo/beerbelly/LruMap.java:165-186 | put of an absent key: a new entry heads the list with the key, the value and expiry now + timeout (0 without a timeout) |
| LruMapModel.LruMap.Remove | src/main/java/com/hippo/beerbelly/LruMap.java:189-207 | after trimToTimeout, remove returns the key's value (null if absent) and the key's entry leaves the list, the table and the index; the rest keeps its order |
| LruMapModel.LruMap.RemoveTail | src/main/java/com/hippo/beerbelly/LruMap.java:210-221 | after trimToTimeout, removeTail returns null exactly on an empty map, and otherwise unlinks and returns the least recently used entry with its key and value; the rest keeps its order. The index record is deleted too, which the source does not do |
| LruMapModel.LruMap.Size | src/main/java/com/hippo/beerbelly/LruMap.java:223-234 | size() and mapSize() are the number of entries |
| LruMapModel.LruMap.IsEmpty | src/main/java/com/hippo/beerbelly/LruMap.java:227-229 | isEmpty() exactly when there are no entries |
| LruMapModel.LruMap.ListSize | src/main/java/com/hippo/beerbelly/LruMap.java:236-241 | walking the links from the head counts the entries, so listSize() equals size() |
| LruPairs.PairsOf | src/main/java/com/hippo/beerbelly/LruMap.java:29-48 | the (key, value) pairs the entries hold, head first |
| LruPairs.IndexOf | src/main/java/com/hippo/beerbelly/LruMap.java:133 | the first position holding the key, or none exactly when no pair has it |
| LruPairs.IndexOfFind | src/main/java/com/hippo/beerbelly/LruMap.java:133 | searching the pairs finds the position Find finds in the nodes |
| LruPairs.LookupValueOf | src/main/java/com/hippo/beerbelly/LruMap.java:130-140 | a lookup on the pairs answers what get answers |
| LruPairs.DropWithoutKey | src/main/java/com/hippo/beerbelly/LruMap.java:189-207 | remove on the nodes is Drop on the pairs |
| LruPairs.PutStep | src/main/java/com/hippo/beerbelly/LruMap.java:145-187 | without a timeout, the heap put is PutPairs on the pairs and returns Lookup |
| LruPairs.GetStep | src/main/java/com/hippo/beerbelly/LruMap.java:130-140 | without a timeout, the heap get is GetPairs on the pairs and returns Lookup |
| LruPairs.RemoveStep | src/main/java/com/hippo/beerbelly/LruMap.java:189-207 | without a timeout, the heap remove is Drop on the pairs and returns Lookup |
| LruPairs.RemoveTailStep | src/main/java/com/hippo/beerbelly/LruMap.java:210-221 | removeTail takes the last pair off |
| LruPairs.PutPut | src/main/java/com/hippo/beerbelly/LruMap.java:145-187 | two puts on one key leave one pair for it, the second value |
| LruPairs.LookupAfterPut | src/main/java/com/hippo/beerbelly/LruMap.java:145-187 | after put the key reads as the value put and every other key as before |
| LruPairs.DropLookup | src/main/java/com/hippo/beerbelly/LruMap.java:189-207 | remove leaves every other key's value alone |
| LruPairs.Replay | src/androidTest/java/com/hippo/beerbelly/LruMapTest.java:23-91 | a sequence of calls answers once per call |
| LruPairs.StepOn | src/main/java/com/hippo/beerbelly/LruMap.java:130-241 | one call on the heap map changes its pairs and answers as the value-level Step says |
| LruPairs.PutOn | src/main/java/com/hippo/beerbelly/LruMap.java:145-187 | a put on the heap map, without a timeout, is PutPairs and answers the old value |
| LruPairs.GetOn | src/main/java/com/hippo/beerbelly/LruMap.java:130-140 | a get on the heap map, without a timeout, is GetPairs and answers the value |
| LruPairs.RemoveOn | src/main/java/com/hippo/beerbelly/LruMap.java:189-207 | a remove on the heap map, without a timeout, is Drop and answers the value |
| LruPairs.RemoveTailOn | src/main/java/com/hippo/beerbelly/LruMap.java:210-221 | a removeTail on the heap map answers the last pair, or null on an empty map |
| LruPairs.ReplayOn | src/main/java/com/hippo/beerbelly/LruMap.java:130-241 | calls on the heap map one after another end in the pairs and answers Replay gives |
| LruPairs.Replay1 | src/androidTest/java/com/hippo/beerbelly/LruMapTest.java:26-30 | three puts on key 1 leave one entry with the last value and answer null, then the replaced values |
| LruPairs.Replay2 | src/androidTest/java/com/hippo/beerbelly/LruMapTest.java:30-38 | both sizes are 1, and removeTail answers that entry and leaves the map empty |
| LruPairs.Replay3 | src/androidTest/java/com/hippo/beerbelly/LruMapTest.java:40-44 | removeTail on the empty map answers null and both sizes stay 0 |
| LruPairs.Replay4 | src/androidTest/java/com/hippo/beerbelly/LruMapTest.java:46-48 | new keys go to the head |
| LruPairs.Replay5 | src/androidTest/java/com/hippo/beerbelly/LruMapTest.java:49-50 | remove answers the value it drops |
| LruPairs.Replay6 | src/androidTest/java/com/hippo/beerbelly/LruMapTest.java:51-52 | more new keys go to the head |
| LruPairs.Replay7 | src/androidTest/java/com/hippo/beerbelly/LruMapTest.java:53 | a new key goes to the head |
| LruPairs.Replay8 | src/androidTest/java/com/hippo/beerbelly/LruMapTest.java:54 | a put on a present key moves it to the head and answers its old value |
| LruPairs.Replay9 | src/androidTest/java/com/hippo/beerbelly/LruMapTest.java:55 | a get moves its key to the head |
| LruPairs.Replay10 | src/androidTest/java/com/hippo/beerbelly/LruMapTest.java:56 | a new key goes to the head |
| LruPairs.Replay11 | src/androidTest/java/com/hippo/beerbelly/LruMapTest.java:57-60 | the put on 9 answers the 999 it replaces |
| LruPairs.Replay12 | src/androidTest/java/com/hippo/beerbelly/LruMapTest.java:61-62 | both sizes are 7 |
| LruPairs.Replay13 | src/androidTest/java/com/hippo/beerbelly/LruMapTest.java:64-70 | removeTail answers 1 and then 8 |
| LruPairs.Replay14 | src/androidTest/java/com/hippo/beerbelly/LruMapTest.java:72-78 | removeTail answers 7 and then 3 |
| LruPairs.Replay15 | src/androidTest/java/com/hippo/beerbelly/LruMapTest.java:80-90 | removeTail answers 232, 2 and 9, leaving the map empty |
| LruPairs.LruMapTrace | src/androidTest/java/com/hippo/beerbelly/LruMapTest.java:23-91 | on the heap map, every assertion of the repository's LruMap test holds: the removed entries, the null, the replaced 999, the sizes and the drain order |
| LruRemoveTail.Insert | src/main/java/com/hippo/beerbelly/LruMap.java:316-341 | the timeout index's put adds exactly one record |
| LruRemoveTail.Delete | src/main/java/com/hippo/beerbelly/LruMap.java:288-314 | the timeout index's delete takes out one copy of the record if present and changes nothing otherwise |
| LruRemoveTail.Without | src/main/java/com/hippo/beerbelly/LruMap.java:66-88 | removeEntry: the entry leaves the list and every other entry stays |
| LruRemoveTail.CountExpired | src/main/java/com/hippo/beerbelly/LruMap.java:366-386 | getRemoveSize counts a prefix of expired records |
| LruRemoveTail.Evict | src/main/java/com/hippo/beerbelly/LruMap.java:118-125 | the trim loop changes only the list and the table |
| LruRemoveTail.Trim | src/main/java/com/hippo/beerbelly/LruMap.java:109-128 | trimToTimeout changes no entry object and not the timeout |
| LruRemoveTail.Put | src/main/java/com/hippo/beerbelly/LruMap.java:145-187 | after put the key is in the table and its entry heads the list |
| LruRemoveTail.Get | src/main/java/com/hippo/beerbelly/LruMap.java:130-140 | get changes neither the table nor the index beyond the trim |
| LruRemoveTail.RemoveTail | src/main/java/com/hippo/beerbelly/LruMap.java:210-221 | removeTail as written: the tail leaves the list (null on an empty list) but its record stays in the timeout index |
| LruRemoveTail.RemoveTailFixed | src/main/java/com/hippo/beerbelly/LruMap.java:189-207 | removeTail doing what remove does: the tail leaves the list and its index record goes too |
| LruRemoveTail.StaleRecordExample | src/main/java/com/hippo/beerbelly/LruMap.java:210-221 | with a timeout of 10, put(1) at 0, removeTail at 1, put(1) at 5 and a get at 12 leave size() 0 while listSize() is 1, and a put on 1 at 13 makes a second entry for key 1 |
| LruRemoveTail.FixedExample | src/main/java/com/hippo/beerbelly/LruMap.java:210-221 | with removeTail deleting the record, the same calls keep key 1 mapped to its entry in the list |
| DuplicateJL.Search | src/main/java/com/hippo/beerbelly/LruMap.java:289 | ContainerHelpers.binarySearch: a hit is an index holding the key, a miss encodes a point within the range |
| DuplicateJL.InsertionPoint | src/main/java/com/hippo/beerbelly/LruMap.java:317-320 | the hit, or ~miss, is a position from 0 to size |
| DuplicateJL.SearchFinds | src/main/java/com/hippo/beerbelly/LruMap.java:289 | on sorted keys binarySearch hits exactly when the key is present, and a miss splits the keys into smaller and larger |
| DuplicateJL.InsertionPointOrder | src/main/java/com/hippo/beerbelly/LruMap.java:317-320 | inserting at the insertion point keeps the keys sorted |
| DuplicateJL.BinarySearch | src/main/java/com/hippo/beerbelly/LruMap.java:289 | the loop computes Search over the first size keys |
| DuplicateJL.CompactProps | src/main/java/com/hippo/beerbelly/LruMap.java:264-286 | gc keeps the live records in order, leaves no DELETED slot, and keeps the keys sorted |
| DuplicateJL.PutCellsProps | src/main/java/com/hippo/beerbelly/LruMap.java:316-341 | put keeps the keys sorted and adds exactly one record (key, value), at one place |
| DuplicateJL.MarkPrefixRecords | src/main/java/com/hippo/beerbelly/LruMap.java:352-357 | removeAtRange(0, n) on a collected index drops exactly the first n records |
| DuplicateJL.MarkDeletedRecords | src/main/java/com/hippo/beerbelly/LruMap.java:359-364 | marking one live slot DELETED removes exactly its record |
| DuplicateJL.GrowSize | src/main/java/com/hippo/beerbelly/LruMap.java:338-339 | ArrayUtils.insert grows a full array to a larger capacity |
| DuplicateJL.CountExpired | src/main/java/com/hippo/beerbelly/LruMap.java:371-385 | after gc, the binary search for l and the scan past equal keys give the number of records with key at most l |
| DuplicateJL.FindSlot | src/main/java/com/hippo/beerbelly/LruMap.java:289-313 | delete's scans, bounded by size, find a slot holding (key, o) exactly when there is one |
| DuplicateJL.Collect | src/main/java/com/hippo/beerbelly/LruMap.java:264-286 | gc's loop moves the non-DELETED slots to the front in order |
| DuplicateJL.InsertKeys | src/main/java/com/hippo/beerbelly/LruMap.java:338 | ArrayUtils.insert with room shifts the keys from index up by one and places the key |
| DuplicateJL.InsertSlots | src/main/java/com/hippo/beerbelly/LruMap.java:339 | the same on the value array |
| DuplicateJL.CopyInsertKeys | src/main/java/com/hippo/beerbelly/LruMap.java:338 | ArrayUtils.insert into a grown key array copies around the inserted key |
| DuplicateJL.CopyInsertSlots | src/main/java/com/hippo/beerbelly/LruMap.java:339 | ArrayUtils.insert into a grown value array copies around the inserted value |
| DuplicateJL.DuplicateJLMap.constructor | src/main/java/com/hippo/beerbelly/LruMap.java:254-262 | a new index is empty with capacity 10 |
| DuplicateJL.DuplicateJLMap.Gc | src/main/java/com/hippo/beerbelly/LruMap.java:264-286 | gc compacts the slots, clears the garbage flag and keeps the content |
| DuplicateJL.DuplicateJLMap.Delete | src/main/java/com/hippo/beerbelly/LruMap.java:288-314 | delete, with its scans bounded by size: the record (key, o) is marked DELETED if present, otherwise nothing changes |
| DuplicateJL.DuplicateJLMap.InsertAt | src/main/java/com/hippo/beerbelly/LruMap.java:338-340 | ArrayUtils.insert on both arrays and mSize++: one cell inserted at index |
| DuplicateJL.DuplicateJLMap.Put | src/main/java/com/hippo/beerbelly/LruMap.java:316-341 | put reuses a DELETED slot at the insertion point, or gcs full arrays with garbage and inserts; the content gains exactly the record (key, value) and stays sorted |
| DuplicateJL.DuplicateJLMap.ValueAt | src/main/java/com/hippo/beerbelly/LruMap.java:344-350 | valueAt gcs pending garbage and returns the index-th record's value |
| DuplicateJL.DuplicateJLMap.Peek | src/main/java/com/hippo/beerbelly/LruMap.java:349 | on a collected index the slot read is the index-th record's value |
| DuplicateJL.DuplicateJLMap.RemoveAt | src/main/java/com/hippo/beerbelly/LruMap.java:359-364 | removeAt marks the slot DELETED and sets garbage when it was live |
| DuplicateJL.DuplicateJLMap.RemoveAtRange | src/main/java/com/hippo/beerbelly/LruMap.java:352-357 | removeAtRange marks the slots from index up to min(size, index + n) DELETED |
| DuplicateJL.DuplicateJLMap.GetRemoveSize | src/main/java/com/hippo/beerbelly/LruMap.java:366-386 | after a gc, getRemoveSize returns r such that exactly the first r records expire at or before l, with the content unchanged |
| DuplicateJL.TenEqualPuts | src/main/java/com/hippo/beerbelly/LruMap.java:316-341 | ten records with one expiry, put in order 0..9, end in the order the binary search's middle probes give |
| DuplicateJL.DeleteOutOfBoundsExample | src/main/java/com/hippo/beerbelly/LruMap.java:288-302 | delete as written, on those ten records filling the capacity, reads mKeys[10] when deleting record 2 |
| LruCacheExSpec.TrimLoop | src/main/java/com/hippo/beerbelly/LruCacheEx.java:133-175 | the loop of trimToSize ends normally or with IllegalStateException, and evicts no more entries than the map held |
| LruCacheExSpec.TrimEvictsRemovable | src/main/java/com/hippo/beerbelly/LruCacheEx.java:164-167 | an entry is evicted only if canBeRemoved allows it and its value is not keepValue |
| LruCacheExSpec.TrimDistinct | src/main/java/com/hippo/beerbelly/LruCacheEx.java:157-172 | evicting from the tail and putting back at the head keep keys distinct |
| LruCacheExSpec.TrimWeight | src/main/java/com/hippo/beerbelly/LruCacheEx.java:149-172 | a trim that ends normally takes off exactly the evicted entries' weight, keeps the other entries, and ends at most at the limit unless it gave up after count put-backs or ran out of entries |
| LruCacheExSpec.TrimNoThrow | src/main/java/com/hippo/beerbelly/LruCacheEx.java:144-147 | when the size is the content's weight and no weight is negative, the consistency check never throws |
| LruCacheExSpec.Reverse | src/main/java/com/hippo/beerbelly/LruCacheEx.java:157-171 | the entries in reverse order, the order the trim visits them |
| LruCacheExSpec.TrimPlain | src/main/java/com/hippo/beerbelly/LruCacheEx.java:140-174 | when every entry may be removed and none is keepValue, trimToSize is the plain LRU trim: the entries left are a head part within the limit, and the evicted ones the rest, least recently used first |
| LruCacheExSpec.EvictAllEmpties | src/main/java/com/hippo/beerbelly/LruCacheEx.java:245-247 | evictAll (trimToSize(-1)) with every entry removable evicts all of them and leaves size 0 |
| LruCacheExSpec.PinnedStays | src/main/java/com/hippo/beerbelly/LruCacheEx.java:153-155 | an entry canBeRemoved refuses stays, with the cache still over its limit, once the loop has put back as many entries as the map held |
| LruCacheExSpec.PutDistinct | src/main/java/com/hippo/beerbelly/LruCacheEx.java:99-120 | put keeps the keys distinct |
| LruCacheExSpec.KeptAfterTrim | src/main/java/com/hippo/beerbelly/LruCacheEx.java:118 | the trim after put never evicts the value just put |
| LruCacheExSpec.PutKept | src/main/java/com/hippo/beerbelly/LruCacheEx.java:99-120 | a put that returns normally returns the previous value, keeps size minus weight unchanged, and leaves the new pair in the cache |
| LruCacheExSpec.PutSafe | src/main/java/com/hippo/beerbelly/LruCacheEx.java:99-120 | on a consistent cache a put with a non-negative weight does not throw and leaves no negative weight |
| LruCacheExSpec.PutAccounting | src/main/java/com/hippo/beerbelly/LruCacheEx.java:99-120 | put keeps keys distinct, and a normal return gives the previous value, keeps the accounting, and keeps the new pair |
| LruCacheExSpec.RemoveAccounting | src/main/java/com/hippo/beerbelly/LruCacheEx.java:182-200 | after remove the key is absent and keys stay distinct; with non-negative weights it returns the previous value; a normal return keeps the accounting |
| LruCacheExSpec.GetConsistent | src/main/java/com/hippo/beerbelly/LruCacheEx.java:76-91 | get keeps the accounting, since it only reorders |
| LruCacheExSpec.TrimConsistent | src/main/java/com/hippo/beerbelly/LruCacheEx.java:133-175 | trimToSize on a consistent cache never throws and leaves it consistent |
| LruCacheExSpec.EvictAllConsistent | src/main/java/com/hippo/beerbelly/LruCacheEx.java:245-247 | evictAll on a consistent cache with every entry removable empties it and leaves size 0 |
| LruCacheExSpec.ResizeConsistent | src/main/java/com/hippo/beerbelly/LruCacheEx.java:59-68 | resize as intended (assigning the maximum) keeps the cache consistent and within the new maximum |
| LruCacheExSpec.ResizeAsWrittenThrowsOnEmpty | src/main/java/com/hippo/beerbelly/LruCacheEx.java:64-67 | resize as written on an empty cache sets a non-zero size with an empty map, so its trim throws IllegalStateException |
| LruCacheExSpec.ResizeAsWrittenBreaksAccounting | src/main/java/com/hippo/beerbelly/LruCacheEx.java:64-67 | resize(5) as written on a cache holding one entry of weight 1 leaves size 5, so size no longer matches the content |
| LruCacheExSpec.PutWithin | src/main/java/com/hippo/beerbelly/LruCacheEx.java:99-120 | a put of a new key that stays within the maximum adds its pair at the head and its weight, and reports nothing |
| LruCacheExSpec.FourthPut | src/androidTest/java/com/hippo/beerbelly/LruCacheExTest.java:41-43 | put(10, "10") on [20, 30, 50] at size 100 evicts 50, reports it, and leaves size 60 |
| LruCacheExSpec.FourPuts | src/androidTest/java/com/hippo/beerbelly/LruCacheExTest.java:24-43 | the test's four puts with sizeOf = key and maxSize 100 all return null; only 50 is evicted and reported, and size() is 60 |
| LruCacheExSpec.ExpiryTrace | src/main/java/com/hippo/beerbelly/LruCacheEx.java:99-175 | on pairs: dropping an entry without taking its weight off makes the cache inconsistent, and two later puts with maxSize 1 end in a trim that throws IllegalStateException |
| LruCacheExModel.UnexpiredFresh | src/main/java/com/hippo/beerbelly/LruMap.java:109-128 | after trimToTimeout no entry has expired at now |
| LruCacheExModel.SettledAt | src/main/java/com/hippo/beerbelly/LruMap.java:109-128 | trimming a map already trimmed at now changes nothing |
| LruCacheExModel.SizeAt | src/main/java/com/hippo/beerbelly/LruCacheEx.java:137 | mLruMap.size() is the number of linked entries |
| LruCacheExModel.EmptyAt | src/main/java/com/hippo/beerbelly/LruCacheEx.java:144 | mLruMap.isEmpty() exactly when no entry is linked |
| LruCacheExModel.PutAt | src/main/java/com/hippo/beerbelly/LruCacheEx.java:108 | mLruMap.put, read as pairs, is PutPairs of the trimmed content and returns the old value |
| LruCacheExModel.GetAt | src/main/java/com/hippo/beerbelly/LruCacheEx.java:83 | mLruMap.get, read as pairs, is GetPairs of the trimmed content and returns the value |
| LruCacheExModel.RemoveAt | src/main/java/com/hippo/beerbelly/LruCacheEx.java:189 | mLruMap.remove, read as pairs, is Drop of the trimmed content and returns the value |
| LruCacheExModel.TakeTail | src/main/java/com/hippo/beerbelly/LruCacheEx.java:157 | mLruMap.removeTail answers the last pair of the trimmed content, or null, and takes it off |
| LruCacheExModel.PairsDistinct | src/main/java/com/hippo/beerbelly/LruMap.java:33 | the keys of the map's pairs are distinct |
| LruCacheExModel.MapTrim | src/main/java/com/hippo/beerbelly/LruCacheEx.java:133-175 | the loop of trimToSize on the map ends where TrimSpec says: outcome, pairs, size, events and evictions |
| LruCacheExModel.TrimStep | src/main/java/com/hippo/beerbelly/LruCacheEx.java:143-173 | one pass of the loop: its checks and, past them, an eviction or a put-back, keeping the loop on its course |
| LruCacheExModel.TrimPass | src/main/java/com/hippo/beerbelly/LruCacheEx.java:157-172 | removeTail, then evict the tail if canBeRemoved allows it and it is not keepValue, otherwise put it back at the head |
| LruCacheExModel.MapRemove | src/main/java/com/hippo/beerbelly/LruCacheEx.java:187-197 | the synchronized block of remove on the map is RemoveSpec |
| LruCacheExModel.PutPart | src/main/java/com/hippo/beerbelly/LruCacheEx.java:105-116 | put's synchronized block: a negative new or old weight throws as PutSpec says, otherwise the map and the running size are updated |
| LruCacheExModel.MapPut | src/main/java/com/hippo/beerbelly/LruCacheEx.java:99-120 | put on the map, including its trim, is PutSpec |
| LruCacheExModel.PutTrim | src/main/java/com/hippo/beerbelly/LruCacheEx.java:118 | the trimToSize(maxSize, value) that ends put gives PutSpec's result |
| LruCacheExModel.LruCacheEx.constructor | src/main/java/com/hippo/beerbelly/LruCacheEx.java:45-52 | a new cache is empty with size 0, the given maximum and zero counters, over an LruMap with a timeout exactly when timeout > 0 |
| LruCacheExModel.LruCacheEx.ResizeAsWritten | src/main/java/com/hippo/beerbelly/LruCacheEx.java:59-68 | resize as written: IllegalArgumentException for maxSize <= 0, otherwise the running size (not the maximum) is set and the cache trimmed to it |
| LruCacheExModel.LruCacheEx.Resize | src/main/java/com/hippo/beerbelly/LruCacheEx.java:59-68 | resize as intended: IllegalArgumentException for maxSize <= 0; otherwise the maximum is set, the cache trimmed, and a consistent cache stays consistent |
| LruCacheExModel.LruCacheEx.Count | src/main/java/com/hippo/beerbelly/LruCacheEx.java:85-88 | a hit counts a hit, a miss counts a miss, and nothing else changes |
| LruCacheExModel.LruCacheEx.Record | src/main/java/com/hippo/beerbelly/LruCacheEx.java:165-167 | the running size, eviction count and reported calls are updated and nothing else |
| LruCacheExModel.LruCacheEx.Get | src/main/java/com/hippo/beerbelly/LruCacheEx.java:76-91 | get is GetSpec on the cache as seen at now: a hit moves the key to the head; hit and miss are counted; a consistent cache stays consistent |
| LruCacheExModel.LruCacheEx.Put | src/main/java/com/hippo/beerbelly/LruCacheEx.java:99-120 | put is PutSpec on the cache as seen at now and counts the put; on a consistent cache a non-negative weight returns the previous value, keeps it consistent and keeps the new pair |
| LruCacheExModel.LruCacheEx.TrimToSize | src/main/java/com/hippo/beerbelly/LruCacheEx.java:133-175 | trimToSize(maxSize, keepValue) is TrimSpec on the cache as seen at now; the counters and the maximum are unchanged |
| LruCacheExModel.LruCacheEx.Trim | src/main/java/com/hippo/beerbelly/LruCacheEx.java:122-124 | trimToSize(maxSize) is TrimSpec with no value kept; a consistent cache never throws and stays consistent |
| LruCacheExModel.LruCacheEx.Remove | src/main/java/com/hippo/beerbelly/LruCacheEx.java:182-200 | remove is RemoveSpec; on a consistent cache it returns the previous value, the key is gone, and the cache stays consistent |
| LruCacheExModel.LruCacheEx.EvictAll | src/main/java/com/hippo/beerbelly/LruCacheEx.java:245-247 | evictAll is trimToSize(-1); on a consistent cache with every entry removable it empties the cache and leaves size 0 |
| LruCacheExModel.NewLruCacheEx | src/main/java/com/hippo/beerbelly/LruCacheEx.java:45-52 | the constructor throws IllegalArgumentException exactly when maxSize <= 0 and otherwise gives a new valid cache |
| LruCacheExModel.ExpiryBreaksAccounting | src/main/java/com/hippo/beerbelly/LruMap.java:109-128 | with timeout 10 and sizeOf 1: an entry put at 0 has expired by 20, trimToTimeout drops it without taking its weight off, and after two more puts with maxSize 1, evictAll throws IllegalStateException |
| BeerBellyLib.Check | library/src/main/java/com/hippo/beerbelly/BeerBelly.java:352-369 | isValid() returns exactly when the parameters are acceptable; it throws "No memory cache and no disk cache" exactly when neither tier is asked for, and each other message only when its check fails |
| BeerBellyLib.PromotedSurvives | library/src/main/java/com/hippo/beerbelly/BeerBelly.java:196-199 | a value get promotes from disk into the memory tier is still there after the trim when its weight fits under the maximum on its own |
| BeerBellyLib.FailedWriteIsCommitted | library/src/main/java/com/hippo/beerbelly/BeerBelly.java:444-459 | DiskCache.put commits the bytes the write hook wrote even when the hook reports false: the entry is published and other entries are unchanged |
| BeerBellyLib.CycleEmpties | library/src/main/java/com/hippo/beerbelly/BeerBelly.java:435-459 | a disk call that obtained and released its key's lock on an empty lock table leaves the table empty |
| BeerBellyLib.SettleAfterCycle | library/src/main/java/com/hippo/beerbelly/BeerBelly.java:435-459 | after such a call, with no holds left, the disk cache is back between calls: no lock registered and the store idle |
| BeerBellyLib.DiskCache.constructor | library/src/main/java/com/hippo/beerbelly/BeerBelly.java:407-413 | new DiskCache opens a SimpleDiskCache with the given maximum and keeps the hooks |
| BeerBellyLib.DiskCache.Size | library/src/main/java/com/hippo/beerbelly/BeerBelly.java:423-425 | size() is the store's size, or -1 without a store |
| BeerBellyLib.DiskCache.Flush | library/src/main/java/com/hippo/beerbelly/BeerBelly.java:427-429 | flush() leaves the cache between calls |
| BeerBellyLib.DiskCache.Clear | library/src/main/java/com/hippo/beerbelly/BeerBelly.java:431-433 | clear() leaves no store when reopening fails, the surviving entries when delete() threw, and an empty store otherwise |
| BeerBellyLib.DiskCache.ReadPipe | library/src/main/java/com/hippo/beerbelly/BeerBelly.java:440 | the read hook's pipe steps read exactly the bytes of the entry and leave the cache between calls |
| BeerBellyLib.DiskCache.WritePipe | library/src/main/java/com/hippo/beerbelly/BeerBelly.java:445-458 | put's pipe steps: without a store nothing starts; otherwise the bytes written are committed unless the stream or the commit throws |
| BeerBellyLib.DiskCache.Get | library/src/main/java/com/hippo/beerbelly/BeerBelly.java:435-442 | get(key) returns what the read hook makes of the entry, or null when there is none; the store is unchanged |
| BeerBellyLib.DiskCache.Put | library/src/main/java/com/hippo/beerbelly/BeerBelly.java:444-459 | put(key, value) returns false without a store or when open() throws, otherwise the write hook's verdict, and the store holds what was written |
| BeerBellyLib.DiskCache.Remove | library/src/main/java/com/hippo/beerbelly/BeerBelly.java:461-463 | remove(key) takes the entry out of the store, unless the removal fails |
| BeerBellyLib.DiskCache.PushRaw | library/src/main/java/com/hippo/beerbelly/BeerBelly.java:465-467 | pushRaw is SimpleDiskCache.put of the bytes |
| BeerBellyLib.DiskCache.PullRaw | library/src/main/java/com/hippo/beerbelly/BeerBelly.java:469-486 | pullRaw returns false when there is no entry or the copy throws, otherwise true with the entry's bytes copied out |
| BeerBellyLib.BeerBelly.constructor | library/src/main/java/com/hippo/beerbelly/BeerBelly.java:41-51 | the facade holds the memory tier and the disk tier it was built with |
| BeerBellyLib.BeerBelly.MemorySize | library/src/main/java/com/hippo/beerbelly/BeerBelly.java:113-119 | memorySize() is -1 exactly without a memory tier, otherwise its total weight |
| BeerBellyLib.BeerBelly.MemoryMaxSize | library/src/main/java/com/hippo/beerbelly/BeerBelly.java:124-130 | memoryMaxSize() is -1 exactly without a memory tier, otherwise its maximum |
| BeerBellyLib.BeerBelly.DiskSize | library/src/main/java/com/hippo/beerbelly/BeerBelly.java:135-141 | diskSize() is -1 exactly without a disk store, otherwise its size |
| BeerBellyLib.BeerBelly.DiskMaxSize | library/src/main/java/com/hippo/beerbelly/BeerBelly.java:146-152 | diskMaxSize() is -1 exactly without a disk tier, otherwise its maximum |
| BeerBellyLib.BeerBelly.GetFromMemory | library/src/main/java/com/hippo/beerbelly/BeerBelly.java:159-165 | getFromMemory returns the memory tier's value, which becomes its most recently used entry, or null without the tier |
| BeerBellyLib.BeerBelly.GetFromDisk | library/src/main/java/com/hippo/beerbelly/BeerBelly.java:173-179 | getFromDisk returns the disk tier's value, or null without the tier; the store is unchanged |
| BeerBellyLib.BeerBelly.PutToMemory | library/src/main/java/com/hippo/beerbelly/BeerBelly.java:209-216 | putToMemory returns false without a memory tier; otherwise it is the tier's put: a negative weight throws, and a value that fits on its own stays in the tier |
| BeerBellyLib.BeerBelly.PutToDisk | library/src/main/java/com/hippo/beerbelly/BeerBelly.java:221-227 | putToDisk returns false without a disk tier; otherwise it is DiskCache.put |
| BeerBellyLib.BeerBelly.Get | library/src/main/java/com/hippo/beerbelly/BeerBelly.java:187-204 | get returns the memory tier's value on a hit; on a miss the disk tier's value, which is then put into the memory tier; null when neither has the key |
| BeerBellyLib.BeerBelly.Put | library/src/main/java/com/hippo/beerbelly/BeerBelly.java:232-235 | put is putToMemory then putToDisk; a negative weight throws before the disk is touched |
| BeerBellyLib.BeerBelly.Remove | library/src/main/java/com/hippo/beerbelly/BeerBelly.java:240-261 | remove takes the key out of the memory tier and the disk tier |
| BeerBellyLib.BeerBelly.PullRawFromDisk | library/src/main/java/com/hippo/beerbelly/BeerBelly.java:266-272 | pullRawFromDisk returns false without a disk tier, otherwise DiskCache.pullRaw |
| BeerBellyLib.BeerBelly.PushRawToDisk | library/src/main/java/com/hippo/beerbelly/BeerBelly.java:277-283 | pushRawToDisk returns false without a disk tier, otherwise DiskCache.pushRaw |
| BeerBellyLib.BeerBelly.Clear | library/src/main/java/com/hippo/beerbelly/BeerBelly.java:288-310 | clear evicts the whole memory tier (size 0) and clears the disk tier: no store when reopening fails, the surviving entries when delete() threw, otherwise empty |
| BeerBellyLib.BeerBelly.Flush | library/src/main/java/com/hippo/beerbelly/BeerBelly.java:315-319 | flush flushes the disk tier, if any, and changes no content |
| BeerBellyLib.NewBeerBelly | library/src/main/java/com/hippo/beerbelly/BeerBelly.java:41-64 | new BeerBelly throws IllegalStateException exactly when isValid() rejects the parameters; otherwise it makes an empty memory tier with the given maximum when asked, and a disk tier over the given store when asked |
| BeerBellySrc.DiskCache.constructor | src/main/java/com/hippo/beerbelly/BeerBelly.java:339-345 | new DiskCache keeps the SimpleDiskCache, the maximum and the hooks |
| BeerBellySrc.DiskCache.Size | src/main/java/com/hippo/beerbelly/BeerBelly.java:355-357 | size() is the store's size; SimpleDiskCache.size() has no null check, so it throws NullPointerException without a store |
| BeerBellySrc.DiskCache.Flush | src/main/java/com/hippo/beerbelly/BeerBelly.java:359-361 | flush() leaves the cache between calls |
| BeerBellySrc.DiskCache.Clear | src/main/java/com/hippo/beerbelly/BeerBelly.java:363-365 | clear() leaves no store when reopening fails, the surviving entries when delete() threw, and an empty store otherwise |
| BeerBellySrc.DiskCache.ReadPipe | src/main/java/com/hippo/beerbelly/BeerBelly.java:372 | the read hook's pipe steps read exactly the bytes of the entry |
| BeerBellySrc.DiskCache.WritePipe | src/main/java/com/hippo/beerbelly/BeerBelly.java:377-390 | put's pipe steps: NullPointerException without a store; otherwise the bytes written are committed unless the stream or the commit throws |
| BeerBellySrc.DiskCache.Get | src/main/java/com/hippo/beerbelly/BeerBelly.java:367-374 | get(key) returns what the read hook makes of the entry, or null when there is none or the store lookup throws |
| BeerBellySrc.DiskCache.Put | src/main/java/com/hippo/beerbelly/BeerBelly.java:376-391 | put(key, value) throws NullPointerException without a store, returns false when open() throws, and otherwise returns the write hook's verdict with the bytes committed |
| BeerBellySrc.DiskCache.PutRaw | src/main/java/com/hippo/beerbelly/BeerBelly.java:393-395 | putRaw is SimpleDiskCache.put of the bytes |
| BeerBellySrc.NewDiskCache | src/main/java/com/hippo/beerbelly/BeerBelly.java:62-69 | initDiskCache: a disk tier over the SimpleDiskCache, or none when the constructor throws IOException |
| BeerBellySrc.BeerBelly.constructor | src/main/java/com/hippo/beerbelly/BeerBelly.java:44-56 | the facade keeps the flags the parameters asked for and the tiers it was built with |
| BeerBellySrc.BeerBelly.MemorySize | src/main/java/com/hippo/beerbelly/BeerBelly.java:97-103 | memorySize() is -1 exactly without a memory tier, otherwise its total weight |
| BeerBellySrc.BeerBelly.DiskSize | src/main/java/com/hippo/beerbelly/BeerBelly.java:105-111 | diskSize() is -1 without a disk tier, throws NullPointerException with a tier but no store, and is the store's size otherwise |
| BeerBellySrc.BeerBelly.GetFromMemory | src/main/java/com/hippo/beerbelly/BeerBelly.java:119-125 | getFromMemory returns the memory tier's value, which becomes its most recently used entry |
| BeerBellySrc.BeerBelly.GetFromDisk | src/main/java/com/hippo/beerbelly/BeerBelly.java:133-139 | getFromDisk returns the disk tier's value, or null without the tier or when the lookup throws |
| BeerBellySrc.BeerBelly.PutToMemory | src/main/java/com/hippo/beerbelly/BeerBelly.java:174-181 | putToMemory returns false without the memory tier; otherwise it is the tier's put |
| BeerBellySrc.BeerBelly.PutToDisk | src/main/java/com/hippo/beerbelly/BeerBelly.java:190-196 | putToDisk returns false without a disk tier, otherwise DiskCache.put |
| BeerBellySrc.BeerBelly.Get | src/main/java/com/hippo/beerbelly/BeerBelly.java:148-165 | get returns the memory tier's value on a hit; on a miss the disk tier's value, which is then put into the memory tier; null when neither has it |
| BeerBellySrc.BeerBelly.Put | src/main/java/com/hippo/beerbelly/BeerBelly.java:204-207 | put is putToMemory then putToDisk |
| BeerBellySrc.BeerBelly.PutRawToDisk | src/main/java/com/hippo/beerbelly/BeerBelly.java:216-222 | putRawToDisk returns false without a disk tier, otherwise DiskCache.putRaw |
| BeerBellySrc.BeerBelly.Clear | src/main/java/com/hippo/beerbelly/BeerBelly.java:227-255 | clear evicts the whole memory tier (size 0) and clears the disk tier: no store when reopening fails, the surviving entries when delete() threw, otherwise empty |
| BeerBellySrc.BeerBelly.Flush | src/main/java/com/hippo/beerbelly/BeerBelly.java:242-246 | flush flushes the disk tier, if any, and changes no content |
| BeerBellySrc.NewBeerBelly | src/main/java/com/hippo/beerbelly/BeerBelly.java:44-69 | new BeerBelly throws IllegalStateException exactly when isVaild() rejects the parameters; the disk tier is absent when its store fails to open |
| BeerBellySrc.DiskFlagWithoutTier | src/main/java/com/hippo/beerbelly/BeerBelly.java:62-69 | with the disk tier asked for but failing to open, hasDiskCache() is true while putToDisk returns false and getFromDisk finds nothing |

## Left out

- ThreadSafeCache.ThreadSafeLruCache.Put: the NullPointerException for a null key or value (ThreadSafeLruCache.java:120-122) is not modelled, because keys and values are non-null Dafny values and the branch cannot arise; the same holds for ThreadSafeCache.ThreadSafeLruCache.Get (:74-76), ThreadSafeCache.ThreadSafeLruCache.Remove (:145-147) and the NonThreadSafeCache counterparts.
- LruCacheExModel.LruCacheEx.Put: the NullPointerException guards of put and get (LruCacheEx.java:77-78, 100-101) are not modelled, for the same reason; nor is the null that BeerBelly's `@NonNull` parameters exclude.
- LruCacheExModel.LruCacheEx.Put: mSize and the put, eviction, hit and miss counters are unbounded integers; the 32-bit wrap-around of Java `int` is not modelled, because it needs more than 2^31 units of weight or calls. The same holds for ThreadSafeCache.ThreadSafeLruCache.Put and NonThreadSafeCache.NonThreadSafeLruCache.Put.
- LruCacheExModel.LruCacheEx.Get: the source's get never calls create, although its doc comment says it does, and mCreateCount (LruCacheEx.java:30) is never updated; the model has neither.
- LruMapModel.LruMap.Put: the expiry `now + timeout` is an unbounded integer; the `long` overflow of `System.currentTimeMillis() + mTimeout` (LruMap.java:180-181) is not modelled.
- LruMapModel.LruMap.Remove: the source sets the removed entry's key and value to null (LruMap.java:201-203) so that the object holds no reference; the entry is unreachable afterwards and no result depends on it, so the model leaves the detached entry's fields as they were. In put (LruMap.java:162-163) the same fields are overwritten at once with the new key and value, which LruMapModel.LruMap.Put does state.
- LruMapModel.LruMap.RemoveTail: models the corrected removeTail, which also drops the tail's record from the timeout index; LruMap.java:210-221 leaves that record behind (see Findings). LruCacheExModel.TakeTail and therefore every LruCacheEx operation sit on the corrected version; the as-written behaviour is modelled on values in LruRemoveTail.
- LruCacheExModel.LruCacheEx.TrimToSize: one `now` is taken for a whole trimToSize run, while the source reads the clock anew in every LruMap call inside the loop; entries that expire during one run are not modelled.
- LruCacheExSpec.TrimLoop: keepValue is compared with the tail's value by value (`keep != Some(value)`), while LruCacheEx.java:164 compares references (`keepValue != value`); two equal but distinct value objects are not told apart.
- LruCacheExModel.LruCacheEx.Put: its contract, like those of Get, Remove, TrimToSize, Resize and EvictAll, assumes a consistent running size for the map as trimmed at `now`. In a timed cache, trimToTimeout (LruMap.java:109-128) drops expired entries without taking their weight off mSize, so the assumption fails once an entry expires. LruCacheExModel.ExpiryBreaksAccounting proves a trace that ends in the IllegalStateException of LruCacheEx.java:144-147. No corrected accounting is modelled, because the source does not say whether expired entries should be reported to entryRemoved.
- LruCacheExModel.LruCacheEx.constructor: LruCacheEx.java:49 calls `new LruMap<>(comparator, timeout)`, a constructor LruMap does not have; the model builds the map with the one LruMap has, `LruMap(timeout)`.
- LruCacheExSpec.FourPuts: LruCacheExTest.java:25 calls a one-argument constructor `LruCacheEx(100)` that does not exist, and overrides sizeOf (the key) and entryRemoved (asserting the key is 50); the lemma models that intent with maximum 100, sizeOf = key, and the entryRemoved calls read from the event log.
- DuplicateJL.GrowSize: `ArrayUtils.insert` is not part of this model; it is assumed to grow a full array to 8 slots when it holds at most 4, else to twice its size, as Android's GrowingArrayUtils does.
- DuplicateJL.DuplicateJLMap.Put: `ContainerHelpers.binarySearch` is not part of this model; it is taken to be Android's, returning the bitwise complement of the insertion point when the key is absent.
- DuplicateJL.DeleteAsWritten: the as-written delete is modelled as a function over the whole arrays that reports the first out-of-bounds index it would read (an ArrayIndexOutOfBoundsException in Java), not as a method that throws; the class uses the corrected bounds (see Findings).
- DiskStore.Stored: DiskLruCache is not part of this model; DiskStore keeps only what SimpleDiskCache relies on (published entries, edits in progress, the size), and its journal, files and size-bounded eviction are left out.
- DiskStore.StuckAfterFailedCommit: DiskLruCache is not part of this model, and a commit that throws is taken to leave the key's edit open. That holds when completeEdit throws before it clears the entry's editor (a failed rename); a commit that throws later, on the journal write, has already freed the key, and the later puts that would then succeed are not modelled. DiskStore.Stored rests on the same assumption.
- SimpleDiskCacheLib.SimpleDiskCache.Clear: the entries that survive a delete() whose IOException is caught (library SimpleDiskCache.java:134-138, src :125-129) are a parameter constrained only to distinct keys and no open editor; which files DiskLruCache actually leaves behind and reads back is not modelled. SimpleDiskCacheSrc.SimpleDiskCache.Clear and the BeerBelly clear members pass the same parameter through.
- SimpleDiskCacheLib.SimpleDiskCache.HashKeyForDisk: MessageDigest is not part of this model; the MD5 digest is a parameter, and the NoSuchAlgorithmException fallback to `String.valueOf(key.hashCode())` is not modelled.
- SimpleDiskCacheLib.SimpleDiskCache.ObtainLock: the blocking of ReentrantReadWriteLock and of CounterLock's ReentrantLock between threads is not modelled; locks are identities with hold counts, and a wait loop on the gate becomes a precondition.
- BeerBellyLib.BeerBelly.constructor: the library's MemoryCache calls `super(maxSize)` and overrides sizeOf, onEntryAdded and onEntryRemoved, none of which the abstract LruCache declares; the memory tier is modelled as a ThreadSafeLruCache with the sizeOf hook, and the added and removed callbacks appear only in its event log.
- BeerBellySrc.BeerBelly.constructor: the src memory tier MemoryCahce extends android.util.LruCache, which is not part of this model; the library ThreadSafeLruCache stands in for it.
- BeerBellyLib.DiskCache.Get: the subclass's read hook (and, for BeerBellyLib.DiskCache.Put, its write hook) is a pure function of the bytes; stream errors are fault parameters.
- BeerBellySrc.DiskCache.Get: as in the library revision, the read hook (and, for BeerBellySrc.DiskCache.Put, the write hook) is a pure function of the bytes; stream errors are fault parameters.
- BeerBellyLib.BeerBelly.Remove: removeFromMemory, removeFromDisk, clearMemory and clearDisk are modelled only as the two halves of remove and clear; getMemoryCache, getDiskCache, hasMemoryCache, hasDiskCache (library) and getCacheDir return fields and are not modelled as members.
- Log calls, `Log.e` on a failed disk open and the printed stack traces are not modelled.

## Findings

| source | as written | input that shows it | evidently intended | confidence | as-written member | corrected member |
|---|---|---|---|---|---|---|
| src/main/java/com/hippo/beerbelly/LruMap.java:210-221 | removeTail unlinks the tail and drops it from the table, but leaves its record in mTimeoutMap | timeout 10: put(1) at 0, removeTail at 1, put(1) at 5, get(2) at 12; the stale record expires at 12 and trimToTimeout removes key 1 from the table while key 1's live entry stays in the list, so size() is 0 and listSize() is 1; put(1) at 13 then makes a second entry for key 1 | removeTail also deletes the tail's record from mTimeoutMap, as remove and put do for the entries they drop | not executed | LruRemoveTail.StaleRecordExample | LruRemoveTail.FixedExample |
| src/main/java/com/hippo/beerbelly/LruMap.java:293-303 | both scans of DuplicateJLMap.delete test `index` instead of `i` in their loop guard, so a scan stops only at a different key or a match | ten records all expiring at 1000, put in the order 0..9, fill the initial ten slots as 2,4,6,8,9,7,5,3,1,0; delete(1000, record 2) searches to slot 4, scans up past slot 9 and reads mKeys[10] | the guards are `i < mSize` and `i >= 0` | not executed | DuplicateJL.DeleteOutOfBoundsExample | DuplicateJL.DuplicateJLMap.Delete |
| src/main/java/com/hippo/beerbelly/LruCacheEx.java:59-68 | resize assigns the new maximum to the running size mSize, and never updates mMaxSize | resize(5) on an empty cache: mSize is 5 with an empty map, and the trim that follows throws IllegalStateException; resize(5) on one entry of weight 1 leaves size 5 and maximum unchanged | resize sets mMaxSize and then trims to it, as android.util.LruCache.resize does | not executed | LruCacheExSpec.ResizeAsWrittenThrowsOnEmpty | LruCacheExSpec.ResizeConsistent |
| library/src/main/java/com/hippo/beerbelly/SimpleDiskCache.java:176-188 | releaseLock drops the key from the lock table and returns its lock to the pool whenever the lock is not write-locked, however many callers still hold it | a pipe holds key k for reading; contain(k) obtains and releases the same lock; k leaves the table and its lock is handed to the next new key while the pipe still holds it, and the gate may read NONE under the open pipe | the lock stays registered until its last holder releases it, as the src revision's reference-counted CounterLock does (src/main/java/com/hippo/beerbelly/SimpleDiskCache.java:168-181) | not executed | SimpleDiskCacheLib.ReleaseIgnoresHolders | SimpleDiskCacheSrc.ObtainsThenReleases |
