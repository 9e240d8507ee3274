// LruCache.create: the factory choosing between the two implementations.
module LruCache {
  import opened Common
  import opened LruCacheSpec
  import opened ThreadSafeCache
  import opened NonThreadSafeCache

  /** What create hands back: one of the two caches, or the
      IllegalArgumentException their constructors throw for maxSize <= 0. */
  datatype Created<K(==), V> =
    | ThreadSafe(threadSafe: ThreadSafeLruCache<K, V>)
    | NonThreadSafe(nonThreadSafe: NonThreadSafeLruCache<K, V>)
    | Rejected(exception: Exception)

  method Create<K(==), V>(maxSize: int, sizeOf: (K, V) -> int, create: K -> Option<V>, threadSafe: bool)
    returns (r: Created<K, V>)
    ensures maxSize <= 0 <==> r == Rejected(IllegalArgument)
    ensures r.ThreadSafe? ==>
      threadSafe && fresh(r.threadSafe) && r.threadSafe.Valid() && r.threadSafe.Consistent()
      && r.threadSafe.maxSize == maxSize && r.threadSafe.entries == []
      && r.threadSafe.sizeOf == sizeOf && r.threadSafe.create == create
    ensures r.NonThreadSafe? ==>
      !threadSafe && fresh(r.nonThreadSafe) && r.nonThreadSafe.Valid()
      && r.nonThreadSafe.Consistent() && r.nonThreadSafe.maxSize == maxSize
      && r.nonThreadSafe.entries == []
      && r.nonThreadSafe.sizeOf == sizeOf && r.nonThreadSafe.create == create
    ensures maxSize > 0 ==> (r.ThreadSafe? <==> threadSafe) && (r.NonThreadSafe? <==> !threadSafe)
  {
    if maxSize <= 0 {
      return Rejected(IllegalArgument);
    }
    if threadSafe {
      var c := new ThreadSafeLruCache(maxSize, sizeOf, create);
      return ThreadSafe(c);
    }
    var c := new NonThreadSafeLruCache(maxSize, sizeOf, create);
    return NonThreadSafe(c);
  }
}
