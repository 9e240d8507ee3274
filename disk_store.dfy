// DiskLruCache, the journal-backed store under both SimpleDiskCache
// revisions, is not part of this model. What SimpleDiskCache relies on is
// kept: the published entries (a LinkedHashMap in access order, eldest
// first), the edits in progress, and the gate that serialises clear and
// flush against keyed access.
module DiskStore {
  import opened Common
  import opened LruCacheSpec

  /** The bytes a stream carries. */
  type Blob = seq<bv8>

  /** mDiskCacheState: STATE_DISK_CACHE_NONE, _IN_USE and _BUSY. */
  datatype Gate = Idle | InUse | Busy

  /** An open DiskLruCache: published entries, and the bytes written so far
      by every editor not yet committed or aborted. */
  datatype Store = Store(entries: seq<Pair<string, Blob>>, editing: map<string, Blob>)

  ghost predicate Valid(s: Store) {
    DistinctKeys(s.entries)
  }

  /** The store DiskLruCache.open makes over a deleted directory. */
  const Empty: Store := Store([], map[])

  function BlobSize(key: string, b: Blob): int {
    |b|
  }

  /** DiskLruCache.size: the bytes held by the published entries. */
  function Size(s: Store): (n: int)
    ensures n >= 0
  {
    WeightNonNegative(s.entries, BlobSize);
    Weight(s.entries, BlobSize)
  }

  /** get(key): a snapshot of the published entry, null when absent. */
  function Get(s: Store, key: string): Option<Blob> {
    Lookup(s.entries, key)
  }

  /** edit(key): an editor, unless one is already open for the key. */
  predicate CanEdit(s: Store, key: string) {
    key !in s.editing
  }

  /** edit(key) when it grants an editor: nothing written yet. */
  function Open(s: Store, key: string): Store
    requires CanEdit(s, key)
  {
    s.(editing := s.editing[key := []])
  }

  /** Bytes written through the editor's output stream. */
  function Append(s: Store, key: string, bytes: Blob): Store
    requires key in s.editing
  {
    s.(editing := s.editing[key := s.editing[key] + bytes])
  }

  /** Editor.commit: the written bytes become the key's youngest entry. */
  function Commit(s: Store, key: string): Store
    requires key in s.editing
  {
    Store(PutLast(s.entries, key, s.editing[key]), s.editing - {key})
  }

  /** Editor.abort: the written bytes are dropped. */
  function Abort(s: Store, key: string): Store {
    s.(editing := s.editing - {key})
  }

  /** remove(key): false when there is no published entry or while it is
      being edited. */
  function Remove(s: Store, key: string): (bool, Store) {
    if Get(s, key).None? || key in s.editing then (false, s)
    else (true, s.(entries := RemoveKey(s.entries, key)))
  }

  /** Aborting an editor that wrote nothing restores the store. */
  lemma AbortFresh(s: Store, key: string)
    requires CanEdit(s, key)
    ensures Abort(Open(s, key), key) == s
  {
    assert s.editing[key := []] - {key} == s.editing;
  }

  /** An editor opened, written with `bytes` and committed publishes exactly
      those bytes under the key and leaves every other key as it was. */
  lemma CommitPublishes(s: Store, key: string, bytes: Blob)
    requires Valid(s) && CanEdit(s, key)
    ensures var t := Commit(Append(Open(s, key), key, bytes), key);
      Valid(t) && Get(t, key) == Some(bytes) && t.editing == s.editing
      && forall k :: k != key ==> Get(t, k) == Get(s, k)
  {
    PutLastProps(s.entries, key, bytes);
    assert Append(Open(s, key), key, bytes).editing[key] == bytes;
  }

  /** Aborting a fresh editor restores the store it was opened on. */
  lemma AbortRestores(s: Store, key: string, bytes: Blob)
    requires CanEdit(s, key)
    ensures Abort(Append(Open(s, key), key, bytes), key) == s
  {
    assert (s.editing[key := bytes]) - {key} == s.editing;
  }

  /** A removed key reads as absent afterwards and nothing else changes; a
      refused remove changes nothing at all. */
  lemma RemoveForgets(s: Store, key: string)
    requires Valid(s)
    ensures var (removed, t) := Remove(s, key);
      Valid(t) && (removed <==> Get(s, key).Some? && key !in s.editing)
      && (removed ==> Get(t, key).None? && t.editing == s.editing)
      && (!removed ==> t == s)
      && forall k :: k != key ==> Get(t, k) == Get(s, k)
  {
    RemoveKeyProps(s.entries, key);
    LookupNone(RemoveKey(s.entries, key), key);
  }

  // ---------------------------------------------------------------------
  // putToDisk, shared verbatim by both SimpleDiskCache revisions

  /** What editor.newOutputStream(0) gives: a stream, null, or an IOException. */
  datatype Stream = Opened | NullStream | StreamThrows

  /** The IOExceptions and the null stream putToDisk can meet, step by step. */
  datatype PutFaults = PutFaults(editThrows: bool, stream: Stream, copyThrows: bool, commitThrows: bool)

  /** The faults of a put that meets none. */
  const NoFaults := PutFaults(false, Opened, false, false)

  /** The outcome putToDisk promises: true with the bytes published when every
      step succeeds; when only the commit fails the edit stays open (the
      catch skips abort once completeEdit is set); otherwise false with the
      store as it was. */
  function Stored(s: Store, key: string, data: Blob, f: PutFaults): (bool, Store) {
    if f.editThrows || !CanEdit(s, key) || f.stream != Opened || f.copyThrows then (false, s)
    else if f.commitThrows then (false, Append(Open(s, key), key, data))
    else (true, Commit(Append(Open(s, key), key, data), key))
  }

  /** A put that returns true publishes exactly its bytes; one that returns
      false leaves every published entry as it was. Either way no other key
      changes. */
  lemma {:induction false} StoredPublishes(s: Store, key: string, data: Blob, f: PutFaults)
    requires Valid(s)
    ensures var (ok, t) := Stored(s, key, data, f);
      Valid(t)
      && (ok <==> CanEdit(s, key) && f == NoFaults)
      && (ok ==> Get(t, key) == Some(data))
      && (!ok ==> Get(t, key) == Get(s, key))
      && forall k :: k != key ==> Get(t, k) == Get(s, k)
  {
    if !f.editThrows && CanEdit(s, key) && f.stream == Opened && !f.copyThrows && !f.commitThrows {
      CommitPublishes(s, key, data);
    }
  }

  /** Once a commit has failed, the key's edit stays open, so every later
      put of that key returns false. This rests on Stored's reading of a
      throwing commit: DiskLruCache is taken to throw before it clears the
      entry's editor. */
  lemma StuckAfterFailedCommit(s: Store, key: string, data: Blob, f: PutFaults, data': Blob, f': PutFaults)
    requires CanEdit(s, key) && f == NoFaults.(commitThrows := true)
    ensures !Stored(Stored(s, key, data, f).1, key, data', f').0
  {
  }
}
