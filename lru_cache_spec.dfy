// The contract shared by the library's two LRU caches (the abstract class
// LruCache and its doc comments), stated over the content of their
// access-ordered LinkedHashMap: a sequence of key/value pairs, eldest first.
module LruCacheSpec {
  import opened Common

  /** One call of an LruCacheHelper hook. */
  datatype Event<K, V> =
    | EntryAdded(key: K, value: V)
    | EntryRemoved(evicted: bool, key: K, oldValue: V, newValue: Option<V>)

  // ---------------------------------------------------------------------
  // LinkedHashMap in access order

  ghost predicate NoKey<K, V>(s: seq<Pair<K, V>>, k: K) {
    forall i :: 0 <= i < |s| ==> s[i].key != k
  }

  ghost predicate DistinctKeys<K, V>(s: seq<Pair<K, V>>) {
    forall i, j :: 0 <= i < j < |s| ==> s[i].key != s[j].key
  }

  /** LinkedHashMap.get without the access bookkeeping. */
  function Lookup<K(==), V>(s: seq<Pair<K, V>>, k: K): Option<V> {
    if |s| == 0 then None
    else if s[0].key == k then Some(s[0].value)
    else Lookup(s[1..], k)
  }

  /** LinkedHashMap.remove: the pairs of every other key, order kept. */
  function RemoveKey<K(==), V>(s: seq<Pair<K, V>>, k: K): seq<Pair<K, V>> {
    if |s| == 0 then []
    else if s[0].key == k then RemoveKey(s[1..], k)
    else [s[0]] + RemoveKey(s[1..], k)
  }

  /** LinkedHashMap.put in access order: the key becomes the youngest. */
  function PutLast<K(==), V>(s: seq<Pair<K, V>>, k: K, v: V): seq<Pair<K, V>> {
    RemoveKey(s, k) + [Pair(k, v)]
  }

  /** Putting the same key twice leaves only the second value, youngest. */
  lemma PutLastTwice<K, V>(s: seq<Pair<K, V>>, k: K, v1: V, v2: V)
    ensures PutLast(PutLast(s, k, v1), k, v2) == PutLast(s, k, v2)
  {
    RemoveKeyAppended(RemoveKey(s, k), Pair(k, v1), k);
    RemoveKeyMembers(s, k);
    RemoveKeyAbsent(RemoveKey(s, k), k);
  }

  lemma {:induction false} RemoveKeyAppended<K, V>(s: seq<Pair<K, V>>, p: Pair<K, V>, k: K)
    ensures RemoveKey(s + [p], k) == RemoveKey(s, k) + (if p.key == k then [] else [p])
  {
    if |s| == 0 {
      assert s + [p] == [p];
      assert [p][1..] == [];
    } else {
      assert (s + [p])[1..] == s[1..] + [p];
      RemoveKeyAppended(s[1..], p, k);
    }
  }

  lemma {:induction false} LookupNone<K, V>(s: seq<Pair<K, V>>, k: K)
    ensures Lookup(s, k) == None <==> NoKey(s, k)
  {
    if |s| > 0 {
      LookupNone(s[1..], k);
      if s[0].key != k {
        assert forall i :: 1 <= i < |s| ==> s[i] == s[1..][i - 1];
      }
    }
  }

  lemma {:induction false} LookupSome<K, V>(s: seq<Pair<K, V>>, k: K)
    requires Lookup(s, k).Some?
    ensures Pair(k, Lookup(s, k).value) in s
  {
    if s[0].key != k {
      LookupSome(s[1..], k);
    }
  }

  /** What LinkedHashMap.remove leaves: no pair for k, every other pair in order. */
  lemma RemoveKeyProps<K, V>(s: seq<Pair<K, V>>, k: K)
    ensures NoKey(RemoveKey(s, k), k)
    ensures forall p :: p in RemoveKey(s, k) <==> p in s && p.key != k
    ensures forall k' :: k' != k ==> Lookup(RemoveKey(s, k), k') == Lookup(s, k')
    ensures DistinctKeys(s) ==> DistinctKeys(RemoveKey(s, k))
    ensures NoKey(s, k) ==> RemoveKey(s, k) == s
  {
    RemoveKeyMembers(s, k);
    forall k' | k' != k ensures Lookup(RemoveKey(s, k), k') == Lookup(s, k') {
      RemoveKeyLookup(s, k, k');
    }
    if DistinctKeys(s) {
      RemoveKeyDistinct(s, k);
    }
    if NoKey(s, k) {
      RemoveKeyAbsent(s, k);
    }
  }

  lemma {:induction false} RemoveKeyMembers<K, V>(s: seq<Pair<K, V>>, k: K)
    ensures forall p :: p in RemoveKey(s, k) <==> p in s && p.key != k
    ensures NoKey(RemoveKey(s, k), k)
  {
    if |s| > 0 {
      RemoveKeyMembers(s[1..], k);
      assert forall p :: p in s <==> p == s[0] || p in s[1..];
    }
    var r := RemoveKey(s, k);
    assert forall i :: 0 <= i < |r| ==> r[i] in r;
  }

  lemma {:induction false} RemoveKeySubset<K, V>(s: seq<Pair<K, V>>, k: K, p: Pair<K, V>)
    requires p in RemoveKey(s, k)
    ensures p in s && p.key != k
  {
    if s[0].key == k || p != s[0] {
      RemoveKeySubset(s[1..], k, p);
    }
  }

  lemma {:induction false} RemoveKeyLookup<K, V>(s: seq<Pair<K, V>>, k: K, k': K)
    requires k' != k
    ensures Lookup(RemoveKey(s, k), k') == Lookup(s, k')
  {
    if |s| > 0 {
      RemoveKeyLookup(s[1..], k, k');
    }
  }

  lemma {:induction false} RemoveKeyDistinct<K, V>(s: seq<Pair<K, V>>, k: K)
    requires DistinctKeys(s)
    ensures DistinctKeys(RemoveKey(s, k))
  {
    if |s| > 0 {
      RemoveKeyDistinct(s[1..], k);
      if s[0].key != k {
        var r := RemoveKey(s[1..], k);
        assert NoKey(s[1..], s[0].key) by {
          forall i | 0 <= i < |s[1..]| ensures s[1..][i].key != s[0].key {
            assert s[1..][i] == s[i + 1];
          }
        }
        RemoveKeyKeepsNoKey(s[1..], k, s[0].key);
        assert RemoveKey(s, k) == [s[0]] + r;
      }
    }
  }

  lemma {:induction false} RemoveKeyKeepsNoKey<K, V>(s: seq<Pair<K, V>>, k: K, k': K)
    requires NoKey(s, k')
    ensures NoKey(RemoveKey(s, k), k')
  {
    if |s| > 0 {
      assert s[0].key != k';
      RemoveKeyKeepsNoKey(s[1..], k, k');
    }
  }

  lemma {:induction false} RemoveKeyAbsent<K, V>(s: seq<Pair<K, V>>, k: K)
    requires NoKey(s, k)
    ensures RemoveKey(s, k) == s
  {
    if |s| > 0 {
      assert s[0].key != k;
      RemoveKeyAbsent(s[1..], k);
      assert s == [s[0]] + s[1..];
    }
  }

  lemma PutLastProps<K, V>(s: seq<Pair<K, V>>, k: K, v: V)
    requires DistinctKeys(s)
    ensures DistinctKeys(PutLast(s, k, v))
    ensures Lookup(PutLast(s, k, v), k) == Some(v)
    ensures forall k' :: k' != k ==> Lookup(PutLast(s, k, v), k') == Lookup(s, k')
  {
    RemoveKeyProps(s, k);
    var r := RemoveKey(s, k);
    LookupAppend(r, Pair(k, v));
    forall k' | k' != k ensures Lookup(PutLast(s, k, v), k') == Lookup(s, k') {
      LookupAppend(r, Pair(k, v));
    }
  }

  lemma {:induction false} LookupAppend<K, V>(s: seq<Pair<K, V>>, p: Pair<K, V>)
    requires NoKey(s, p.key)
    ensures DistinctKeys(s) ==> DistinctKeys(s + [p])
    ensures Lookup(s + [p], p.key) == Some(p.value)
    ensures forall k' :: k' != p.key ==> Lookup(s + [p], k') == Lookup(s, k')
  {
    if |s| > 0 {
      assert (s + [p])[1..] == s[1..] + [p];
      LookupAppend(s[1..], p);
    }
  }

  // ---------------------------------------------------------------------
  // Weights

  /** The sum of sizeOf over the entries: what the running size must equal. */
  function Weight<K, V>(s: seq<Pair<K, V>>, sizeOf: (K, V) -> int): int {
    if |s| == 0 then 0 else sizeOf(s[0].key, s[0].value) + Weight(s[1..], sizeOf)
  }

  ghost predicate WeightsNonNegative<K, V>(s: seq<Pair<K, V>>, sizeOf: (K, V) -> int) {
    forall p :: p in s ==> sizeOf(p.key, p.value) >= 0
  }

  /** The weight of an optional previous value: 0 when there was none. */
  function WeightOf<K, V>(k: K, prev: Option<V>, sizeOf: (K, V) -> int): int {
    if prev.Some? then sizeOf(k, prev.value) else 0
  }

  lemma {:induction false} WeightNonNegative<K, V>(s: seq<Pair<K, V>>, sizeOf: (K, V) -> int)
    requires WeightsNonNegative(s, sizeOf)
    ensures Weight(s, sizeOf) >= 0
    ensures Weight(s, sizeOf) == 0 <== |s| == 0
  {
    if |s| > 0 {
      assert s[0] in s;
      WeightNonNegative(s[1..], sizeOf);
    }
  }

  lemma {:induction false} WeightAppend<K, V>(s: seq<Pair<K, V>>, p: Pair<K, V>, sizeOf: (K, V) -> int)
    ensures Weight(s + [p], sizeOf) == Weight(s, sizeOf) + sizeOf(p.key, p.value)
  {
    if |s| == 0 {
      assert s + [p] == [p];
    } else {
      assert (s + [p])[1..] == s[1..] + [p];
      WeightAppend(s[1..], p, sizeOf);
    }
  }

  /** Removing a key takes exactly its pair's weight off the total. */
  lemma {:induction false} WeightRemoveKey<K, V>(s: seq<Pair<K, V>>, k: K, sizeOf: (K, V) -> int)
    requires DistinctKeys(s)
    ensures Weight(RemoveKey(s, k), sizeOf) == Weight(s, sizeOf) - WeightOf(k, Lookup(s, k), sizeOf)
  {
    if |s| > 0 {
      if s[0].key == k {
        assert NoKey(s[1..], k) by {
          forall i | 0 <= i < |s[1..]| ensures s[1..][i].key != k {
            assert s[1..][i] == s[i + 1];
          }
        }
        RemoveKeyProps(s[1..], k);
      } else {
        WeightRemoveKey(s[1..], k, sizeOf);
      }
    }
  }

  /** The weight of PutLast: the old total, minus the replaced value, plus the new one. */
  lemma WeightPutLast<K, V>(s: seq<Pair<K, V>>, k: K, v: V, sizeOf: (K, V) -> int)
    requires DistinctKeys(s)
    ensures Weight(PutLast(s, k, v), sizeOf)
         == Weight(s, sizeOf) + sizeOf(k, v) - WeightOf(k, Lookup(s, k), sizeOf)
  {
    WeightRemoveKey(s, k, sizeOf);
    WeightAppend(RemoveKey(s, k), Pair(k, v), sizeOf);
  }

  // ---------------------------------------------------------------------
  // trimToSize

  /** How many eldest entries trimToSize(limit) evicts: it stops as soon as
      the remaining weight is at most limit, or nothing is left. */
  function Evicted<K, V>(s: seq<Pair<K, V>>, sizeOf: (K, V) -> int, limit: int): nat
    ensures Evicted(s, sizeOf, limit) <= |s|
  {
    if |s| == 0 || Weight(s, sizeOf) <= limit then 0 else 1 + Evicted(s[1..], sizeOf, limit)
  }

  /** The onEntryRemoved(true, key, value, null) calls for evicting s, in order. */
  function Evictions<K, V>(s: seq<Pair<K, V>>): seq<Event<K, V>> {
    seq(|s|, i requires 0 <= i < |s| => EntryRemoved(true, s[i].key, s[i].value, None))
  }

  /** trimToSize's contract: afterwards the total is at most limit or the
      cache is empty, and every eviction happened while the total was over. */
  lemma {:induction false} EvictedMeetsLimit<K, V>(s: seq<Pair<K, V>>, sizeOf: (K, V) -> int, limit: int)
    ensures var n := Evicted(s, sizeOf, limit);
            (Weight(s[n..], sizeOf) <= limit || n == |s|)
            && forall j :: 0 <= j < n ==> Weight(s[j..], sizeOf) > limit
  {
    if |s| > 0 && Weight(s, sizeOf) > limit {
      EvictedMeetsLimit(s[1..], sizeOf, limit);
      var n := Evicted(s, sizeOf, limit);
      assert s[1..][n - 1..] == s[n..];
      forall j | 1 <= j < n ensures Weight(s[j..], sizeOf) > limit {
        assert s[1..][j - 1..] == s[j..];
      }
    }
  }

  /** trimToSize(-1), as evictAll and close use it, evicts every entry,
      including the zero-weight ones. */
  lemma {:induction false} EvictAllEmpties<K, V>(s: seq<Pair<K, V>>, sizeOf: (K, V) -> int)
    requires WeightsNonNegative(s, sizeOf)
    ensures Evicted(s, sizeOf, -1) == |s|
  {
    if |s| > 0 {
      WeightNonNegative(s, sizeOf);
      EvictAllEmpties(s[1..], sizeOf);
    }
  }

  /** One step of the eviction loop: evicting the eldest entry while over the limit. */
  lemma EvictedStep<K, V>(s: seq<Pair<K, V>>, sizeOf: (K, V) -> int, limit: int, i: nat)
    requires i < |s| && Weight(s[i..], sizeOf) > limit
    ensures Evicted(s[i..], sizeOf, limit) == 1 + Evicted(s[i + 1..], sizeOf, limit)
  {
    assert s[i..][1..] == s[i + 1..];
  }

  lemma EvictionsStep<K, V>(s: seq<Pair<K, V>>, i: nat)
    requires i < |s|
    ensures Evictions(s[..i + 1]) == Evictions(s[..i]) + [EntryRemoved(true, s[i].key, s[i].value, None)]
  {
  }

  /** The onEntryRemoved(false, key, previous, value) call of a put that replaced a value. */
  function Replacement<K, V>(key: K, previous: Option<V>, value: V): seq<Event<K, V>> {
    if previous.Some? then [EntryRemoved(false, key, previous.value, Some(value))] else []
  }

  /** Suffixes keep distinct keys and non-negative weights, and the running
      size drops by exactly the weight of the evicted entry. */
  lemma SuffixInvariant<K, V>(s: seq<Pair<K, V>>, sizeOf: (K, V) -> int, i: nat)
    requires i < |s|
    ensures DistinctKeys(s) ==> DistinctKeys(s[i + 1..])
    ensures WeightsNonNegative(s, sizeOf) ==> WeightsNonNegative(s[i + 1..], sizeOf)
    ensures Weight(s[i + 1..], sizeOf) == Weight(s[i..], sizeOf) - sizeOf(s[i].key, s[i].value)
  {
    assert s[i..][1..] == s[i + 1..];
    forall p | p in s[i + 1..] ensures p in s { }
  }

  lemma PutLastNonNegative<K, V>(s: seq<Pair<K, V>>, k: K, v: V, sizeOf: (K, V) -> int)
    requires WeightsNonNegative(s, sizeOf) && sizeOf(k, v) >= 0
    ensures WeightsNonNegative(PutLast(s, k, v), sizeOf)
  {
    RemoveKeyProps(s, k);
    forall p | p in PutLast(s, k, v) ensures sizeOf(p.key, p.value) >= 0 {
      if p != Pair(k, v) {
        RemoveKeySubset(s, k, p);
      }
    }
  }

  lemma RemoveKeyNonNegative<K, V>(s: seq<Pair<K, V>>, k: K, sizeOf: (K, V) -> int)
    requires WeightsNonNegative(s, sizeOf)
    ensures WeightsNonNegative(RemoveKey(s, k), sizeOf)
  {
    forall p | p in RemoveKey(s, k) ensures sizeOf(p.key, p.value) >= 0 {
      RemoveKeySubset(s, k, p);
    }
  }

  /** A youngest entry that fits under the limit on its own is never evicted. */
  lemma {:induction false} YoungestSurvives<K, V>(s: seq<Pair<K, V>>, sizeOf: (K, V) -> int, limit: int)
    requires |s| > 0 && WeightsNonNegative(s, sizeOf)
    requires sizeOf(s[|s| - 1].key, s[|s| - 1].value) <= limit
    ensures Evicted(s, sizeOf, limit) < |s|
  {
    if |s| == 1 {
      assert Weight(s[1..], sizeOf) == 0;
    } else if Weight(s, sizeOf) > limit {
      SuffixInvariant(s, sizeOf, 0);
      assert s[1..][|s[1..]| - 1] == s[|s| - 1];
      YoungestSurvives(s[1..], sizeOf, limit);
    }
  }
}
