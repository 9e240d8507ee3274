// What LruCacheEx does, on values: the content of its LruMap as key/value
// pairs (most recently used first), the running size, the entryRemoved
// calls made so far and the eviction counter.
module LruCacheExSpec {
  import opened Common
  import opened LruPairs
  import LruCacheSpec

  type Event<K, V> = LruCacheSpec.Event<K, V>

  /** The state a caller of LruCacheEx can observe. */
  datatype Store<K, V> = Store(pairs: seq<Pair<K, V>>, size: int, events: seq<Event<K, V>>, evictions: int)

  /** How the loop of trimToSize ends: the pairs left, the running size,
      the pairs it evicted (in eviction order) and whether it threw. */
  datatype Trim<K, V> = Trim(pairs: seq<Pair<K, V>>, size: int, evicted: seq<Pair<K, V>>, outcome: Outcome)

  function Weight<K, V>(p: seq<Pair<K, V>>, sizeOf: (K, V) -> int): int {
    LruCacheSpec.Weight(p, sizeOf)
  }

  ghost predicate NonNegative<K, V>(p: seq<Pair<K, V>>, sizeOf: (K, V) -> int) {
    LruCacheSpec.WeightsNonNegative(p, sizeOf)
  }

  ghost predicate Distinct<K, V>(p: seq<Pair<K, V>>) {
    LruCacheSpec.DistinctKeys(p)
  }

  /** The loop of trimToSize(limit, keep) from its check at the loop head:
      p is what the next removeTail sees, empty is what isEmpty reports,
      count is the map's size when the trim began and skip the entries put
      back so far. The check throws on a negative size or on an empty map
      with a non-zero size; the loop ends once the size is at most limit,
      after count put-backs, or when removeTail finds nothing. The tail is
      evicted (its weight subtracted, or IllegalStateException when that
      weight is negative) unless canBeRemoved refuses it or its value is
      keep, in which case it is put back at the head. */
  function TrimLoop<K(==), V(==)>(p: seq<Pair<K, V>>, empty: bool, size: int, limit: int, keep: Option<V>,
                                  count: nat, skip: nat, sizeOf: (K, V) -> int,
                                  canBeRemoved: (K, V) -> bool): (r: Trim<K, V>)
    requires skip <= count
    ensures r.outcome == Normal || r.outcome == Thrown(IllegalState)
    ensures |r.evicted| <= |p|
    decreases count - skip, |p|
  {
    if size < 0 || (empty && size != 0) then Trim(p, size, [], Thrown(IllegalState))
    else if size <= limit || skip == count || p == [] then Trim(p, size, [], Normal)
    else
      var last, rest := p[|p| - 1], p[..|p| - 1];
      if canBeRemoved(last.key, last.value) && keep != Some(last.value) then
        var w := sizeOf(last.key, last.value);
        if w < 0 then Trim(rest, size, [], Thrown(IllegalState))
        else
          var t := TrimLoop(rest, rest == [], size - w, limit, keep, count, skip, sizeOf, canBeRemoved);
          Trim(t.pairs, t.size, [last] + t.evicted, t.outcome)
      else
        DropLength(rest, last.key);
        TrimLoop(PutPairs(rest, last.key, last.value), false, size, limit, keep, count, skip + 1, sizeOf, canBeRemoved)
  }

  /** trimToSize(limit, keep) on s: the evictions are reported as
      entryRemoved(true, key, value, null) calls and counted. */
  function TrimSpec<K(==), V(==)>(s: Store<K, V>, empty: bool, count: nat, limit: int, keep: Option<V>,
                                  sizeOf: (K, V) -> int, canBeRemoved: (K, V) -> bool): (Outcome, Store<K, V>)
  {
    var t := TrimLoop(s.pairs, empty, s.size, limit, keep, count, 0, sizeOf, canBeRemoved);
    (t.outcome, Store(t.pairs, t.size, s.events + LruCacheSpec.Evictions(t.evicted), s.evictions + |t.evicted|))
  }

  /** put(key, value) on s: the new weight is added before the map is
      touched, the replaced value's weight is taken off after it, the
      replacement is reported, and the cache is trimmed to maxSize keeping
      the new value. Each weight is checked as safeSizeOf does. */
  function PutSpec<K(==), V(==)>(s: Store<K, V>, key: K, value: V, maxSize: int,
                                 sizeOf: (K, V) -> int, canBeRemoved: (K, V) -> bool): (Result<Option<V>>, Store<K, V>)
  {
    var w := sizeOf(key, value);
    if w < 0 then (Err(IllegalState), s)
    else
      var previous := Lookup(s.pairs, key);
      var q := PutPairs(s.pairs, key, value);
      if previous.Some? && sizeOf(key, previous.value) < 0 then (Err(IllegalState), s.(pairs := q, size := s.size + w))
      else
        var size := s.size + w - LruCacheSpec.WeightOf(key, previous, sizeOf);
        var events := s.events + LruCacheSpec.Replacement(key, previous, value);
        var t := TrimSpec(Store(q, size, events, s.evictions), false, |q|, maxSize, Some(value), sizeOf, canBeRemoved);
        (if t.0 == Normal then Ok(previous) else Err(IllegalState), t.1)
  }

  /** remove(key) on s: the removed value's weight is taken off and the
      removal reported as entryRemoved(false, key, previous, null). */
  function RemoveSpec<K(==), V>(s: Store<K, V>, key: K, sizeOf: (K, V) -> int): (Result<Option<V>>, Store<K, V>) {
    var previous := Lookup(s.pairs, key);
    var q := Drop(s.pairs, key);
    match previous
    case None => (Ok(None), s)
    case Some(v) =>
      if sizeOf(key, v) < 0 then (Err(IllegalState), s.(pairs := q))
      else (Ok(previous), s.(pairs := q, size := s.size - sizeOf(key, v),
                             events := s.events + [LruCacheSpec.EntryRemoved(false, key, v, None)]))
  }

  /** get(key) on s: a hit moves key's pair to the head; nothing else changes. */
  function GetSpec<K(==), V>(s: Store<K, V>, key: K): (Option<V>, Store<K, V>) {
    (Lookup(s.pairs, key), s.(pairs := GetPairs(s.pairs, key)))
  }

  /** resize(maxSize) as the repository writes it: the running size, not the
      maximum, is set to the new value before the cache is trimmed to it. */
  function ResizeAsWrittenSpec<K(==), V(==)>(s: Store<K, V>, empty: bool, count: nat, maxSize: int,
                                             sizeOf: (K, V) -> int, canBeRemoved: (K, V) -> bool): (Outcome, Store<K, V>)
  {
    if maxSize <= 0 then (Thrown(IllegalArgument), s)
    else TrimSpec(s.(size := maxSize), empty, count, maxSize, None, sizeOf, canBeRemoved)
  }

  /** resize(maxSize) as intended: the maximum becomes maxSize (a field of
      the cache, outside the store) and the cache is trimmed to it. */
  function ResizeSpec<K(==), V(==)>(s: Store<K, V>, empty: bool, count: nat, maxSize: int,
                                    sizeOf: (K, V) -> int, canBeRemoved: (K, V) -> bool): (Outcome, Store<K, V>)
  {
    if maxSize <= 0 then (Thrown(IllegalArgument), s)
    else TrimSpec(s, empty, count, maxSize, None, sizeOf, canBeRemoved)
  }

  /** The accounting LruCacheEx relies on: keys are distinct, no weight is
      negative and the running size is the content's weight. */
  ghost predicate Consistent<K, V>(s: Store<K, V>, sizeOf: (K, V) -> int) {
    Distinct(s.pairs) && NonNegative(s.pairs, sizeOf) && s.size == Weight(s.pairs, sizeOf)
  }

  // ---- facts about pairs and weights ----

  lemma DropLength<K, V>(p: seq<Pair<K, V>>, key: K)
    ensures |Drop(p, key)| <= |p|
  {
  }

  lemma {:induction false} WeightConcat<K, V>(a: seq<Pair<K, V>>, b: seq<Pair<K, V>>, sizeOf: (K, V) -> int)
    ensures Weight(a + b, sizeOf) == Weight(a, sizeOf) + Weight(b, sizeOf)
  {
    if a == [] {
      assert a + b == b;
    } else {
      assert (a + b)[0] == a[0] && (a + b)[1..] == a[1..] + b;
      WeightConcat(a[1..], b, sizeOf);
    }
  }

  /** The tail's weight and the rest's weight make up the whole. */
  lemma WeightLast<K, V>(p: seq<Pair<K, V>>, sizeOf: (K, V) -> int)
    requires p != []
    ensures Weight(p, sizeOf) == Weight(p[..|p| - 1], sizeOf) + sizeOf(p[|p| - 1].key, p[|p| - 1].value)
  {
    assert p == p[..|p| - 1] + [p[|p| - 1]];
    LruCacheSpec.WeightAppend(p[..|p| - 1], p[|p| - 1], sizeOf);
  }

  /** remove takes exactly the removed value's weight off the total. */
  lemma WeightDrop<K, V>(p: seq<Pair<K, V>>, key: K, sizeOf: (K, V) -> int)
    ensures Weight(Drop(p, key), sizeOf) == Weight(p, sizeOf) - LruCacheSpec.WeightOf(key, Lookup(p, key), sizeOf)
  {
    match IndexOf(p, key)
    case Some(i) =>
      assert p == p[..i] + ([p[i]] + p[i + 1..]);
      WeightConcat(p[..i], [p[i]] + p[i + 1..], sizeOf);
      WeightConcat(p[..i], p[i + 1..], sizeOf);
      assert ([p[i]] + p[i + 1..])[1..] == p[i + 1..];
    case None =>
  }

  lemma DropMembers<K, V>(p: seq<Pair<K, V>>, key: K)
    ensures forall x :: x in Drop(p, key) ==> x in p
    ensures Distinct(p) ==> Distinct(Drop(p, key)) && forall j :: 0 <= j < |Drop(p, key)| ==> Drop(p, key)[j].key != key
    ensures Lookup(p, key).Some? ==> multiset(Drop(p, key)) + multiset{Pair(key, Lookup(p, key).value)} == multiset(p)
  {
    match IndexOf(p, key)
    case Some(i) =>
      var d := p[..i] + p[i + 1..];
      assert p == p[..i] + [p[i]] + p[i + 1..];
      forall a, b | 0 <= a < b < |d| ensures Distinct(p) ==> d[a].key != d[b].key {
        var ka := if a < i then a else a + 1;
        var kb := if b < i then b else b + 1;
        assert d[a] == p[ka] && d[b] == p[kb];
      }
      forall j | 0 <= j < |d| ensures Distinct(p) ==> d[j].key != key {
        var kj := if j < i then j else j + 1;
        assert d[j] == p[kj];
      }
    case None =>
  }

  /** A value held in the pairs has its weight checked already. */
  lemma LookupMember<K, V>(p: seq<Pair<K, V>>, key: K)
    requires Lookup(p, key).Some?
    ensures Pair(key, Lookup(p, key).value) in p
  {
    var i := IndexOf(p, key).value;
    assert p[i] == Pair(key, Lookup(p, key).value);
  }

  /** put's pairs: distinct keys stay distinct, and the new pair joins the
      old ones less the replaced pair. */
  lemma PutPairsProps<K, V>(p: seq<Pair<K, V>>, key: K, value: V, sizeOf: (K, V) -> int)
    requires Distinct(p)
    ensures Distinct(PutPairs(p, key, value))
    ensures Weight(PutPairs(p, key, value), sizeOf)
         == Weight(p, sizeOf) + sizeOf(key, value) - LruCacheSpec.WeightOf(key, Lookup(p, key), sizeOf)
    ensures NonNegative(p, sizeOf) && sizeOf(key, value) >= 0 ==> NonNegative(PutPairs(p, key, value), sizeOf)
  {
    var q := PutPairs(p, key, value);
    DropMembers(p, key);
    WeightDrop(p, key, sizeOf);
    assert q[1..] == Drop(p, key);
    forall a, b | 0 <= a < b < |q| ensures q[a].key != q[b].key {
      assert q[b] == Drop(p, key)[b - 1];
      if a > 0 {
        assert q[a] == Drop(p, key)[a - 1];
      }
    }
  }

  /** The tail that is put back has a key no other pair has, so put puts it
      in front of the others unchanged. */
  lemma PutBack<K, V>(p: seq<Pair<K, V>>)
    requires p != [] && Distinct(p)
    ensures var last, rest := p[|p| - 1], p[..|p| - 1];
            PutPairs(rest, last.key, last.value) == [last] + rest
            && Distinct(rest) && Distinct([last] + rest)
            && multiset([last] + rest) == multiset(p)
  {
    var last, rest := p[|p| - 1], p[..|p| - 1];
    assert forall j :: 0 <= j < |rest| ==> rest[j].key != last.key;
    assert IndexOf(rest, last.key).None?;
    assert p == rest + [last];
    var q := [last] + rest;
    forall a, b | 0 <= a < b < |q| ensures q[a].key != q[b].key {
      if a == 0 {
        assert q[b] == p[b - 1];
      } else {
        assert q[a] == p[a - 1] && q[b] == p[b - 1];
      }
    }
  }

  lemma PrefixProps<K, V>(p: seq<Pair<K, V>>, sizeOf: (K, V) -> int)
    requires p != []
    ensures Distinct(p) ==> Distinct(p[..|p| - 1])
    ensures NonNegative(p, sizeOf) ==> NonNegative(p[..|p| - 1], sizeOf) && sizeOf(p[|p| - 1].key, p[|p| - 1].value) >= 0
    ensures multiset(p[..|p| - 1]) + multiset{p[|p| - 1]} == multiset(p)
  {
    assert p == p[..|p| - 1] + [p[|p| - 1]];
    assert p[|p| - 1] in p;
    forall x | x in p[..|p| - 1] ensures x in p { }
  }

  // ---- what trimToSize does ----

  /** One eviction: the loop goes on with the tail gone and its weight off. */
  lemma EvictUnfold<K, V>(p: seq<Pair<K, V>>, empty: bool, size: int, limit: int, keep: Option<V>,
                          count: nat, skip: nat, sizeOf: (K, V) -> int, canBeRemoved: (K, V) -> bool)
    requires skip < count && size >= 0 && !(empty && size != 0) && size > limit && p != []
    requires canBeRemoved(p[|p| - 1].key, p[|p| - 1].value) && keep != Some(p[|p| - 1].value)
    requires sizeOf(p[|p| - 1].key, p[|p| - 1].value) >= 0
    ensures var last, rest := p[|p| - 1], p[..|p| - 1];
            var r := TrimLoop(p, empty, size, limit, keep, count, skip, sizeOf, canBeRemoved);
            var t := TrimLoop(rest, rest == [], size - sizeOf(last.key, last.value), limit, keep, count, skip, sizeOf, canBeRemoved);
            r.pairs == t.pairs && r.size == t.size && r.evicted == [last] + t.evicted && r.outcome == t.outcome
  {
  }

  /** One put-back: the loop goes on with the tail put again, at the head. */
  lemma SkipStep<K, V>(p: seq<Pair<K, V>>, empty: bool, size: int, limit: int, keep: Option<V>,
                       count: nat, skip: nat, sizeOf: (K, V) -> int, canBeRemoved: (K, V) -> bool)
    requires skip < count && size >= 0 && !(empty && size != 0) && size > limit && p != []
    requires !(canBeRemoved(p[|p| - 1].key, p[|p| - 1].value) && keep != Some(p[|p| - 1].value))
    ensures var last, rest := p[|p| - 1], p[..|p| - 1];
            TrimLoop(p, empty, size, limit, keep, count, skip, sizeOf, canBeRemoved)
            == TrimLoop(PutPairs(rest, last.key, last.value), false, size, limit, keep, count, skip + 1, sizeOf, canBeRemoved)
  {
  }

  /** At a check that ends the loop, the pairs and the size are left as they are. */
  lemma StopUnfold<K, V>(p: seq<Pair<K, V>>, empty: bool, size: int, limit: int, keep: Option<V>,
                         count: nat, skip: nat, sizeOf: (K, V) -> int, canBeRemoved: (K, V) -> bool)
    requires skip <= count
    requires size < 0 || (empty && size != 0) || size <= limit || skip == count || p == []
    ensures var r := TrimLoop(p, empty, size, limit, keep, count, skip, sizeOf, canBeRemoved);
            r.outcome == Normal ==> r.pairs == p && r.size == size && r.evicted == []
  {
  }

  /** An evictable tail with a negative weight makes the loop throw. */
  lemma EvictThrows<K, V>(p: seq<Pair<K, V>>, empty: bool, size: int, limit: int, keep: Option<V>,
                          count: nat, skip: nat, sizeOf: (K, V) -> int, canBeRemoved: (K, V) -> bool)
    requires skip < count && size >= 0 && !(empty && size != 0) && size > limit && p != []
    requires canBeRemoved(p[|p| - 1].key, p[|p| - 1].value) && keep != Some(p[|p| - 1].value)
    requires sizeOf(p[|p| - 1].key, p[|p| - 1].value) < 0
    ensures TrimLoop(p, empty, size, limit, keep, count, skip, sizeOf, canBeRemoved).outcome == Thrown(IllegalState)
  {
  }

  /** With distinct keys the put-back moves the tail to the head. */
  lemma SkipUnfold<K, V>(p: seq<Pair<K, V>>, empty: bool, size: int, limit: int, keep: Option<V>,
                         count: nat, skip: nat, sizeOf: (K, V) -> int, canBeRemoved: (K, V) -> bool)
    requires skip < count && size >= 0 && !(empty && size != 0) && size > limit && p != [] && Distinct(p)
    requires !(canBeRemoved(p[|p| - 1].key, p[|p| - 1].value) && keep != Some(p[|p| - 1].value))
    ensures var last, rest := p[|p| - 1], p[..|p| - 1];
            TrimLoop(p, empty, size, limit, keep, count, skip, sizeOf, canBeRemoved)
            == TrimLoop([last] + rest, false, size, limit, keep, count, skip + 1, sizeOf, canBeRemoved)
  {
    PutBack(p);
    SkipStep(p, empty, size, limit, keep, count, skip, sizeOf, canBeRemoved);
  }

  /** Every pair of ev may be removed: canBeRemoved allows it and its value
      is not the one to keep. */
  ghost predicate Removable<K, V>(ev: seq<Pair<K, V>>, keep: Option<V>, canBeRemoved: (K, V) -> bool) {
    forall j :: 0 <= j < |ev| ==> canBeRemoved(ev[j].key, ev[j].value) && keep != Some(ev[j].value)
  }

  lemma RemovableCons<K, V>(x: Pair<K, V>, ev: seq<Pair<K, V>>, keep: Option<V>, canBeRemoved: (K, V) -> bool)
    requires canBeRemoved(x.key, x.value) && keep != Some(x.value) && Removable(ev, keep, canBeRemoved)
    ensures Removable([x] + ev, keep, canBeRemoved)
  {
    forall j | 0 <= j < |[x] + ev| ensures canBeRemoved(([x] + ev)[j].key, ([x] + ev)[j].value) && keep != Some(([x] + ev)[j].value) {
      if j > 0 {
        assert ([x] + ev)[j] == ev[j - 1];
      }
    }
  }

  /** A pair is evicted only if canBeRemoved allows it and its value is not
      the one to keep. */
  lemma {:induction false} TrimEvictsRemovable<K, V>(p: seq<Pair<K, V>>, empty: bool, size: int, limit: int,
                                                     keep: Option<V>, count: nat, skip: nat,
                                                     sizeOf: (K, V) -> int, canBeRemoved: (K, V) -> bool)
    requires skip <= count
    ensures Removable(TrimLoop(p, empty, size, limit, keep, count, skip, sizeOf, canBeRemoved).evicted, keep, canBeRemoved)
    decreases count - skip, |p|
  {
    if size < 0 || (empty && size != 0) || size <= limit || skip == count || p == [] {
    } else {
      var last, rest := p[|p| - 1], p[..|p| - 1];
      if canBeRemoved(last.key, last.value) && keep != Some(last.value) {
        var w := sizeOf(last.key, last.value);
        if w >= 0 {
          EvictUnfold(p, empty, size, limit, keep, count, skip, sizeOf, canBeRemoved);
          TrimEvictsRemovable(rest, rest == [], size - w, limit, keep, count, skip, sizeOf, canBeRemoved);
          RemovableCons(last, TrimLoop(rest, rest == [], size - w, limit, keep, count, skip, sizeOf, canBeRemoved).evicted, keep, canBeRemoved);
        }
      } else {
        DropLength(rest, last.key);
        SkipStep(p, empty, size, limit, keep, count, skip, sizeOf, canBeRemoved);
        TrimEvictsRemovable(PutPairs(rest, last.key, last.value), false, size, limit, keep, count, skip + 1, sizeOf, canBeRemoved);
      }
    }
  }

  /** The pairs trimToSize leaves keep distinct keys. */
  lemma {:induction false} TrimDistinct<K, V>(p: seq<Pair<K, V>>, empty: bool, size: int, limit: int,
                                              keep: Option<V>, count: nat, skip: nat,
                                              sizeOf: (K, V) -> int, canBeRemoved: (K, V) -> bool)
    requires skip <= count && Distinct(p)
    ensures Distinct(TrimLoop(p, empty, size, limit, keep, count, skip, sizeOf, canBeRemoved).pairs)
    decreases count - skip, |p|
  {
    if size < 0 || (empty && size != 0) || size <= limit || skip == count || p == [] {
    } else {
      var last, rest := p[|p| - 1], p[..|p| - 1];
      PrefixProps(p, sizeOf);
      PutBack(p);
      if canBeRemoved(last.key, last.value) && keep != Some(last.value) {
        if sizeOf(last.key, last.value) >= 0 {
          TrimDistinct(rest, rest == [], size - sizeOf(last.key, last.value), limit, keep, count, skip, sizeOf, canBeRemoved);
        }
      } else {
        SkipUnfold(p, empty, size, limit, keep, count, skip, sizeOf, canBeRemoved);
        TrimDistinct([last] + rest, false, size, limit, keep, count, skip + 1, sizeOf, canBeRemoved);
      }
    }
  }

  /** r, the end of a trim of p that began at size, took off exactly the
      weight it evicted and lost no pair, if it ended normally. */
  ghost predicate WeighedOut<K, V>(p: seq<Pair<K, V>>, size: int, r: Trim<K, V>, sizeOf: (K, V) -> int) {
    r.outcome == Normal ==>
      r.size - Weight(r.pairs, sizeOf) == size - Weight(p, sizeOf)
      && multiset(r.pairs) + multiset(r.evicted) == multiset(p)
  }

  lemma WeighedOutEvict<K, V>(p: seq<Pair<K, V>>, size: int, t: Trim<K, V>, r: Trim<K, V>, sizeOf: (K, V) -> int)
    requires p != []
    requires WeighedOut(p[..|p| - 1], size - sizeOf(p[|p| - 1].key, p[|p| - 1].value), t, sizeOf)
    requires r.pairs == t.pairs && r.size == t.size && r.evicted == [p[|p| - 1]] + t.evicted && r.outcome == t.outcome
    ensures WeighedOut(p, size, r, sizeOf)
  {
    PrefixProps(p, sizeOf);
    WeightLast(p, sizeOf);
    assert multiset([p[|p| - 1]] + t.evicted) == multiset{p[|p| - 1]} + multiset(t.evicted);
  }

  lemma WeighedOutSkip<K, V>(p: seq<Pair<K, V>>, size: int, r: Trim<K, V>, sizeOf: (K, V) -> int)
    requires p != []
    requires WeighedOut([p[|p| - 1]] + p[..|p| - 1], size, r, sizeOf)
    ensures WeighedOut(p, size, r, sizeOf)
  {
    var last, rest := p[|p| - 1], p[..|p| - 1];
    var q := [last] + rest;
    PrefixProps(p, sizeOf);
    WeightLast(p, sizeOf);
    assert Weight(q, sizeOf) == sizeOf(last.key, last.value) + Weight(rest, sizeOf) by {
      assert q[1..] == rest;
    }
    assert multiset(q) == multiset(p) by {
      assert p == rest + [last];
    }
  }

  /** A trim that ends normally takes off exactly the evicted weight, so
      the gap between size and the content's weight stays what it was, and
      the pairs left and the pairs evicted are the pairs it began with. */
  lemma {:induction false} TrimWeight<K, V>(p: seq<Pair<K, V>>, empty: bool, size: int, limit: int,
                                            keep: Option<V>, count: nat, skip: nat,
                                            sizeOf: (K, V) -> int, canBeRemoved: (K, V) -> bool)
    requires skip <= count && Distinct(p)
    ensures WeighedOut(p, size, TrimLoop(p, empty, size, limit, keep, count, skip, sizeOf, canBeRemoved), sizeOf)
    decreases count - skip, |p|
  {
    if size < 0 || (empty && size != 0) || size <= limit || skip == count || p == [] {
      StopUnfold(p, empty, size, limit, keep, count, skip, sizeOf, canBeRemoved);
      var none: seq<Pair<K, V>> := [];
      assert multiset(p) + multiset(none) == multiset(p);
    } else {
      var last, rest := p[|p| - 1], p[..|p| - 1];
      if canBeRemoved(last.key, last.value) && keep != Some(last.value) {
        var w := sizeOf(last.key, last.value);
        if w >= 0 {
          PrefixProps(p, sizeOf);
          TrimWeight(rest, rest == [], size - w, limit, keep, count, skip, sizeOf, canBeRemoved);
          WeightEvictStep(p, empty, size, limit, keep, count, skip, sizeOf, canBeRemoved);
        } else {
          EvictThrows(p, empty, size, limit, keep, count, skip, sizeOf, canBeRemoved);
        }
      } else {
        PutBack(p);
        TrimWeight([last] + rest, false, size, limit, keep, count, skip + 1, sizeOf, canBeRemoved);
        WeightSkipStep(p, empty, size, limit, keep, count, skip, sizeOf, canBeRemoved);
      }
    }
  }

  /** TrimWeight's step over an evicted tail. */
  lemma WeightEvictStep<K, V>(p: seq<Pair<K, V>>, empty: bool, size: int, limit: int, keep: Option<V>,
                              count: nat, skip: nat, sizeOf: (K, V) -> int, canBeRemoved: (K, V) -> bool)
    requires skip < count && size >= 0 && !(empty && size != 0) && size > limit && p != []
    requires canBeRemoved(p[|p| - 1].key, p[|p| - 1].value) && keep != Some(p[|p| - 1].value)
    requires sizeOf(p[|p| - 1].key, p[|p| - 1].value) >= 0
    requires var rest, w := p[..|p| - 1], sizeOf(p[|p| - 1].key, p[|p| - 1].value);
             WeighedOut(rest, size - w, TrimLoop(rest, rest == [], size - w, limit, keep, count, skip, sizeOf, canBeRemoved), sizeOf)
    ensures WeighedOut(p, size, TrimLoop(p, empty, size, limit, keep, count, skip, sizeOf, canBeRemoved), sizeOf)
  {
    var rest, w := p[..|p| - 1], sizeOf(p[|p| - 1].key, p[|p| - 1].value);
    EvictUnfold(p, empty, size, limit, keep, count, skip, sizeOf, canBeRemoved);
    WeighedOutEvict(p, size, TrimLoop(rest, rest == [], size - w, limit, keep, count, skip, sizeOf, canBeRemoved),
                    TrimLoop(p, empty, size, limit, keep, count, skip, sizeOf, canBeRemoved), sizeOf);
  }

  /** TrimWeight's step over a tail put back at the head. */
  lemma WeightSkipStep<K, V>(p: seq<Pair<K, V>>, empty: bool, size: int, limit: int, keep: Option<V>,
                             count: nat, skip: nat, sizeOf: (K, V) -> int, canBeRemoved: (K, V) -> bool)
    requires skip < count && size >= 0 && !(empty && size != 0) && size > limit && p != [] && Distinct(p)
    requires !(canBeRemoved(p[|p| - 1].key, p[|p| - 1].value) && keep != Some(p[|p| - 1].value))
    requires var q := [p[|p| - 1]] + p[..|p| - 1];
             WeighedOut(q, size, TrimLoop(q, false, size, limit, keep, count, skip + 1, sizeOf, canBeRemoved), sizeOf)
    ensures WeighedOut(p, size, TrimLoop(p, empty, size, limit, keep, count, skip, sizeOf, canBeRemoved), sizeOf)
  {
    var q := [p[|p| - 1]] + p[..|p| - 1];
    SkipUnfold(p, empty, size, limit, keep, count, skip, sizeOf, canBeRemoved);
    WeighedOutSkip(p, size, TrimLoop(q, false, size, limit, keep, count, skip + 1, sizeOf, canBeRemoved), sizeOf);
  }

  /** When size is the content's weight and no weight is negative, the
      trim never throws, and the weights left are not negative either. */
  lemma {:induction false} TrimNoThrow<K, V>(p: seq<Pair<K, V>>, empty: bool, size: int, limit: int,
                                             keep: Option<V>, count: nat, skip: nat,
                                             sizeOf: (K, V) -> int, canBeRemoved: (K, V) -> bool)
    requires skip <= count && Distinct(p)
    requires size == Weight(p, sizeOf) && NonNegative(p, sizeOf) && (empty ==> p == [])
    ensures var r := TrimLoop(p, empty, size, limit, keep, count, skip, sizeOf, canBeRemoved);
            r.outcome == Normal && NonNegative(r.pairs, sizeOf)
    decreases count - skip, |p|
  {
    LruCacheSpec.WeightNonNegative(p, sizeOf);
    if size <= limit || skip == count || p == [] {
    } else {
      var last, rest := p[|p| - 1], p[..|p| - 1];
      PrefixProps(p, sizeOf);
      WeightLast(p, sizeOf);
      if canBeRemoved(last.key, last.value) && keep != Some(last.value) {
        EvictUnfold(p, empty, size, limit, keep, count, skip, sizeOf, canBeRemoved);
        TrimNoThrow(rest, rest == [], size - sizeOf(last.key, last.value), limit, keep, count, skip, sizeOf, canBeRemoved);
      } else {
        PutBack(p);
        SkipUnfold(p, empty, size, limit, keep, count, skip, sizeOf, canBeRemoved);
        var q := [last] + rest;
        assert Weight(q, sizeOf) == sizeOf(last.key, last.value) + Weight(rest, sizeOf) by {
          assert q[1..] == rest;
        }
        assert NonNegative(q, sizeOf) by {
          forall x | x in q ensures x in p {
            assert x in multiset(q);
          }
        }
        TrimNoThrow(q, false, size, limit, keep, count, skip + 1, sizeOf, canBeRemoved);
      }
    }
  }

  /** s back to front. */
  function Reverse<T>(s: seq<T>): (r: seq<T>)
    ensures |r| == |s| && forall i :: 0 <= i < |s| ==> r[i] == s[|s| - 1 - i]
  {
    if s == [] then [] else [s[|s| - 1]] + Reverse(s[..|s| - 1])
  }

  /** r is the plain LRU trim of p to limit: the pairs left are a head part
      of p, weighing at most limit unless nothing is left; the rest was
      evicted tail first; and a pair was evicted only while the total was
      over limit. */
  ghost predicate LruTrimmed<K, V>(p: seq<Pair<K, V>>, r: Trim<K, V>, limit: int, sizeOf: (K, V) -> int) {
    var n := |r.pairs|;
    r.outcome == Normal && n <= |p| && r.pairs == p[..n] && r.evicted == Reverse(p[n..])
    && r.size == Weight(r.pairs, sizeOf) && (r.size <= limit || r.pairs == [])
    && (n < |p| ==> Weight(p[..n + 1], sizeOf) > limit)
  }

  lemma LruTrimmedStep<K, V>(p: seq<Pair<K, V>>, t: Trim<K, V>, r: Trim<K, V>, limit: int, sizeOf: (K, V) -> int)
    requires p != [] && Weight(p, sizeOf) > limit
    requires LruTrimmed(p[..|p| - 1], t, limit, sizeOf)
    requires r.pairs == t.pairs && r.size == t.size && r.evicted == [p[|p| - 1]] + t.evicted && r.outcome == t.outcome
    ensures LruTrimmed(p, r, limit, sizeOf)
  {
    var last, rest := p[|p| - 1], p[..|p| - 1];
    var n := |t.pairs|;
    assert r.pairs == p[..n] by {
      assert rest[..n] == p[..n];
    }
    assert r.evicted == Reverse(p[n..]) by {
      ReverseStep(p[n..], rest[n..], last);
    }
    assert n < |p| ==> Weight(p[..n + 1], sizeOf) > limit by {
      if n < |rest| {
        assert rest[..n + 1] == p[..n + 1];
      } else {
        assert p[..n + 1] == p;
      }
    }
  }

  lemma ReverseStep<T>(s: seq<T>, init: seq<T>, x: T)
    requires s == init + [x]
    ensures Reverse(s) == [x] + Reverse(init)
  {
    assert s[..|s| - 1] == init;
  }

  /** Without pinned entries and without a value to keep, trimToSize is the
      plain LRU trim of LruTrimmed. */
  lemma {:induction false} TrimPlain<K, V>(p: seq<Pair<K, V>>, empty: bool, size: int, limit: int,
                                           keep: Option<V>, count: nat, skip: nat,
                                           sizeOf: (K, V) -> int, canBeRemoved: (K, V) -> bool)
    requires skip <= count && (p != [] ==> skip < count) && (empty ==> p == [])
    requires size == Weight(p, sizeOf) && NonNegative(p, sizeOf) && Removable(p, keep, canBeRemoved)
    ensures LruTrimmed(p, TrimLoop(p, empty, size, limit, keep, count, skip, sizeOf, canBeRemoved), limit, sizeOf)
    decreases |p|
  {
    LruCacheSpec.WeightNonNegative(p, sizeOf);
    if size <= limit || p == [] {
      PlainStop(p, empty, size, limit, keep, count, skip, sizeOf, canBeRemoved);
    } else {
      var last, rest := p[|p| - 1], p[..|p| - 1];
      PrefixProps(p, sizeOf);
      WeightLast(p, sizeOf);
      var w := sizeOf(last.key, last.value);
      TrimPlain(rest, rest == [], size - w, limit, keep, count, skip, sizeOf, canBeRemoved);
      PlainEvictStep(p, empty, size, limit, keep, count, skip, sizeOf, canBeRemoved);
    }
  }

  /** TrimPlain where the loop stops at once. */
  lemma PlainStop<K, V>(p: seq<Pair<K, V>>, empty: bool, size: int, limit: int, keep: Option<V>,
                        count: nat, skip: nat, sizeOf: (K, V) -> int, canBeRemoved: (K, V) -> bool)
    requires skip <= count && (empty ==> p == []) && size == Weight(p, sizeOf) && size >= 0
    requires size <= limit || p == []
    ensures LruTrimmed(p, TrimLoop(p, empty, size, limit, keep, count, skip, sizeOf, canBeRemoved), limit, sizeOf)
  {
    StopUnfold(p, empty, size, limit, keep, count, skip, sizeOf, canBeRemoved);
    assert p[..|p|] == p && p[|p|..] == [];
  }

  /** TrimPlain's step over an evicted tail. */
  lemma PlainEvictStep<K, V>(p: seq<Pair<K, V>>, empty: bool, size: int, limit: int, keep: Option<V>,
                             count: nat, skip: nat, sizeOf: (K, V) -> int, canBeRemoved: (K, V) -> bool)
    requires skip < count && size >= 0 && !(empty && size != 0) && size > limit && p != []
    requires canBeRemoved(p[|p| - 1].key, p[|p| - 1].value) && keep != Some(p[|p| - 1].value)
    requires sizeOf(p[|p| - 1].key, p[|p| - 1].value) >= 0 && Weight(p, sizeOf) > limit
    requires var rest, w := p[..|p| - 1], sizeOf(p[|p| - 1].key, p[|p| - 1].value);
             LruTrimmed(rest, TrimLoop(rest, rest == [], size - w, limit, keep, count, skip, sizeOf, canBeRemoved), limit, sizeOf)
    ensures LruTrimmed(p, TrimLoop(p, empty, size, limit, keep, count, skip, sizeOf, canBeRemoved), limit, sizeOf)
  {
    var rest, w := p[..|p| - 1], sizeOf(p[|p| - 1].key, p[|p| - 1].value);
    EvictUnfold(p, empty, size, limit, keep, count, skip, sizeOf, canBeRemoved);
    LruTrimmedStep(p, TrimLoop(rest, rest == [], size - w, limit, keep, count, skip, sizeOf, canBeRemoved),
                   TrimLoop(p, empty, size, limit, keep, count, skip, sizeOf, canBeRemoved), limit, sizeOf);
  }

  /** evictAll is trimToSize(-1): without pinned entries it empties the
      cache, zero-weight entries included, and leaves size 0. */
  lemma EvictAllEmpties<K, V>(p: seq<Pair<K, V>>, empty: bool, count: nat,
                              sizeOf: (K, V) -> int, canBeRemoved: (K, V) -> bool)
    requires |p| <= count && (empty ==> p == []) && NonNegative(p, sizeOf)
    requires Removable(p, None, canBeRemoved)
    ensures var r := TrimLoop(p, empty, Weight(p, sizeOf), -1, None, count, 0, sizeOf, canBeRemoved);
            r.outcome == Normal && r.pairs == [] && r.size == 0 && |r.evicted| == |p|
  {
    TrimPlain(p, empty, Weight(p, sizeOf), -1, None, count, 0, sizeOf, canBeRemoved);
    var r := TrimLoop(p, empty, Weight(p, sizeOf), -1, None, count, 0, sizeOf, canBeRemoved);
    PrefixNonNegative(p, |r.pairs|, sizeOf);
    LruCacheSpec.WeightNonNegative(r.pairs, sizeOf);
  }

  lemma PrefixNonNegative<K, V>(p: seq<Pair<K, V>>, n: nat, sizeOf: (K, V) -> int)
    requires n <= |p| && NonNegative(p, sizeOf)
    ensures NonNegative(p[..n], sizeOf)
  {
    forall x | x in p[..n] ensures x in p { }
  }

  /** A pinned tail stays even when the cache remains over its limit: the
      loop puts it back once per entry the map held and then gives up. */
  lemma PinnedStays()
    ensures var r := TrimLoop([Pair(1, "a")], false, 5, 1, None, 1, 0, (k: int, v: string) => 5, (k: int, v: string) => false);
            r.outcome == Normal && r.pairs == [Pair(1, "a")] && r.size == 5 && r.evicted == []
  {
    var r := TrimLoop([Pair(1, "a")], false, 5, 1, None, 1, 0, (k: int, v: string) => 5, (k: int, v: string) => false);
    assert [Pair(1, "a")][..0] == [];
    assert PutPairs<int, string>([], 1, "a") == [Pair(1, "a")];
  }

  // ---- what put and remove do ----

  /** put on a map with distinct keys keeps its keys distinct. */
  lemma PutDistinct<K, V>(s: Store<K, V>, key: K, value: V, maxSize: int,
                          sizeOf: (K, V) -> int, canBeRemoved: (K, V) -> bool)
    requires Distinct(s.pairs)
    ensures Distinct(PutSpec(s, key, value, maxSize, sizeOf, canBeRemoved).1.pairs)
  {
    var q := PutPairs(s.pairs, key, value);
    PutPairsProps(s.pairs, key, value, sizeOf);
    var size := s.size + sizeOf(key, value) - LruCacheSpec.WeightOf(key, Lookup(s.pairs, key), sizeOf);
    TrimDistinct(q, false, size, maxSize, Some(value), |q|, 0, sizeOf, canBeRemoved);
  }

  /** A trim that ends normally and evicts only removable pairs keeps the
      head pair when its value is the one to keep. */
  lemma KeptAfterTrim<K, V>(q: seq<Pair<K, V>>, size: int, t: Trim<K, V>, keep: Option<V>,
                            sizeOf: (K, V) -> int, canBeRemoved: (K, V) -> bool)
    requires q != [] && keep == Some(q[0].value)
    requires WeighedOut(q, size, t, sizeOf) && Removable(t.evicted, keep, canBeRemoved)
    ensures t.outcome == Normal ==> q[0] in t.pairs
  {
    if t.outcome == Normal {
      assert q[0] !in t.evicted;
      assert q[0] in multiset(q);
      assert q[0] in multiset(t.pairs);
    }
  }

  /** A put that returns normally returns the previous value, changes size
      by exactly the weight the content gains, and keeps the new pair:
      trimToSize never evicts the value just put. */
  lemma PutKept<K, V>(s: Store<K, V>, key: K, value: V, maxSize: int,
                      sizeOf: (K, V) -> int, canBeRemoved: (K, V) -> bool)
    requires Distinct(s.pairs)
    ensures var r := PutSpec(s, key, value, maxSize, sizeOf, canBeRemoved);
            r.0.Ok? ==>
              r.0.value == Lookup(s.pairs, key)
              && r.1.size - Weight(r.1.pairs, sizeOf) == s.size - Weight(s.pairs, sizeOf)
              && Pair(key, value) in r.1.pairs
  {
    var w := sizeOf(key, value);
    var previous := Lookup(s.pairs, key);
    if w >= 0 && !(previous.Some? && sizeOf(key, previous.value) < 0) {
      var q := PutPairs(s.pairs, key, value);
      PutPairsProps(s.pairs, key, value, sizeOf);
      var size := s.size + w - LruCacheSpec.WeightOf(key, previous, sizeOf);
      var t := TrimLoop(q, false, size, maxSize, Some(value), |q|, 0, sizeOf, canBeRemoved);
      TrimWeight(q, false, size, maxSize, Some(value), |q|, 0, sizeOf, canBeRemoved);
      TrimEvictsRemovable(q, false, size, maxSize, Some(value), |q|, 0, sizeOf, canBeRemoved);
      KeptAfterTrim(q, size, t, Some(value), sizeOf, canBeRemoved);
    }
  }

  /** put never throws when size is the content's weight and no weight,
      including the new one, is negative; no weight is negative after it. */
  lemma PutSafe<K, V>(s: Store<K, V>, key: K, value: V, maxSize: int,
                      sizeOf: (K, V) -> int, canBeRemoved: (K, V) -> bool)
    requires Distinct(s.pairs) && NonNegative(s.pairs, sizeOf)
    requires sizeOf(key, value) >= 0 && s.size == Weight(s.pairs, sizeOf)
    ensures var r := PutSpec(s, key, value, maxSize, sizeOf, canBeRemoved);
            r.0.Ok? && NonNegative(r.1.pairs, sizeOf)
  {
    var previous := Lookup(s.pairs, key);
    if previous.Some? {
      LookupMember(s.pairs, key);
    }
    var q := PutPairs(s.pairs, key, value);
    PutPairsProps(s.pairs, key, value, sizeOf);
    var size := s.size + sizeOf(key, value) - LruCacheSpec.WeightOf(key, previous, sizeOf);
    TrimNoThrow(q, false, size, maxSize, Some(value), |q|, 0, sizeOf, canBeRemoved);
  }

  /** put on a map with distinct keys: a put that returns normally changes
      size by exactly the weight the content gains, keeps the new pair
      (trimToSize keeps the value just put), and never throws when size is
      the content's weight and no weight is negative. */
  lemma PutAccounting<K, V>(s: Store<K, V>, key: K, value: V, maxSize: int,
                            sizeOf: (K, V) -> int, canBeRemoved: (K, V) -> bool)
    requires Distinct(s.pairs) && NonNegative(s.pairs, sizeOf)
    ensures var r := PutSpec(s, key, value, maxSize, sizeOf, canBeRemoved);
            Distinct(r.1.pairs)
            && (r.0.Ok? ==>
                  r.0.value == Lookup(s.pairs, key)
                  && r.1.size - Weight(r.1.pairs, sizeOf) == s.size - Weight(s.pairs, sizeOf)
                  && Pair(key, value) in r.1.pairs)
            && (sizeOf(key, value) >= 0 && s.size == Weight(s.pairs, sizeOf) ==>
                  r.0.Ok? && NonNegative(r.1.pairs, sizeOf))
  {
    PutDistinct(s, key, value, maxSize, sizeOf, canBeRemoved);
    PutKept(s, key, value, maxSize, sizeOf, canBeRemoved);
    if sizeOf(key, value) >= 0 && s.size == Weight(s.pairs, sizeOf) {
      PutSafe(s, key, value, maxSize, sizeOf, canBeRemoved);
    }
  }

  /** remove on a map with distinct keys: the key is gone afterwards, and
      size drops by exactly the removed value's weight. */
  lemma RemoveAccounting<K, V>(s: Store<K, V>, key: K, sizeOf: (K, V) -> int)
    requires Distinct(s.pairs)
    ensures var r := RemoveSpec(s, key, sizeOf);
            Distinct(r.1.pairs) && Lookup(r.1.pairs, key) == None
            && (NonNegative(s.pairs, sizeOf) ==> NonNegative(r.1.pairs, sizeOf) && r.0 == Ok(Lookup(s.pairs, key)))
            && (r.0.Ok? ==> r.1.size - Weight(r.1.pairs, sizeOf) == s.size - Weight(s.pairs, sizeOf))
  {
    DropMembers(s.pairs, key);
    WeightDrop(s.pairs, key, sizeOf);
    if Lookup(s.pairs, key).Some? {
      LookupMember(s.pairs, key);
    }
  }

  /** get keeps the accounting: the content is only reordered. */
  lemma GetConsistent<K, V>(s: Store<K, V>, key: K, sizeOf: (K, V) -> int)
    requires Consistent(s, sizeOf)
    ensures var r := GetSpec(s, key);
            Consistent(r.1, sizeOf) && multiset(r.1.pairs) == multiset(s.pairs)
            && (r.0.Some? <==> exists v :: Pair(key, v) in s.pairs)
  {
    var p := s.pairs;
    match IndexOf(p, key)
    case Some(i) =>
      assert GetPairs(p, key) == PutPairs(p, key, p[i].value);
      PutPairsProps(p, key, p[i].value, sizeOf);
      DropMembers(p, key);
      assert p[i] == Pair(key, p[i].value);
      assert Pair(key, p[i].value) in p;
    case None =>
  }

  /** trimToSize on a consistent store with an empty flag that tells the
      truth returns normally and leaves a consistent store. */
  lemma TrimConsistent<K, V>(s: Store<K, V>, empty: bool, count: nat, limit: int, keep: Option<V>,
                             sizeOf: (K, V) -> int, canBeRemoved: (K, V) -> bool)
    requires Consistent(s, sizeOf) && (empty ==> s.pairs == [])
    ensures var r := TrimSpec(s, empty, count, limit, keep, sizeOf, canBeRemoved);
            r.0 == Normal && Consistent(r.1, sizeOf)
  {
    TrimDistinct(s.pairs, empty, s.size, limit, keep, count, 0, sizeOf, canBeRemoved);
    TrimWeight(s.pairs, empty, s.size, limit, keep, count, 0, sizeOf, canBeRemoved);
    TrimNoThrow(s.pairs, empty, s.size, limit, keep, count, 0, sizeOf, canBeRemoved);
  }

  /** evictAll on a consistent store whose every entry may be removed
      empties it, reporting one eviction per entry. */
  lemma EvictAllConsistent<K, V>(s: Store<K, V>, empty: bool, count: nat,
                                 sizeOf: (K, V) -> int, canBeRemoved: (K, V) -> bool)
    requires Consistent(s, sizeOf) && (empty ==> s.pairs == []) && |s.pairs| <= count
    requires Removable(s.pairs, None, canBeRemoved)
    ensures var r := TrimSpec(s, empty, count, -1, None, sizeOf, canBeRemoved);
            r.0 == Normal && r.1.pairs == [] && r.1.size == 0
            && r.1.evictions == s.evictions + |s.pairs|
  {
    EvictAllEmpties(s.pairs, empty, count, sizeOf, canBeRemoved);
  }

  /** resize as intended keeps the accounting, and when every entry may be
      removed it brings the size within the new maximum. */
  lemma ResizeConsistent<K, V>(s: Store<K, V>, empty: bool, count: nat, maxSize: int,
                               sizeOf: (K, V) -> int, canBeRemoved: (K, V) -> bool)
    requires Consistent(s, sizeOf) && (empty ==> s.pairs == []) && maxSize > 0
    requires |s.pairs| <= count && Removable(s.pairs, None, canBeRemoved)
    ensures var r := ResizeSpec(s, empty, count, maxSize, sizeOf, canBeRemoved);
            r.0 == Normal && Consistent(r.1, sizeOf) && r.1.size <= maxSize
  {
    TrimConsistent(s, empty, count, maxSize, None, sizeOf, canBeRemoved);
    TrimPlain(s.pairs, empty, s.size, maxSize, None, count, 0, sizeOf, canBeRemoved);
  }

  /** resize as written, on an empty cache: the size becomes non-zero while
      the map is empty, so the trim that follows throws. */
  lemma ResizeAsWrittenThrowsOnEmpty<K, V>(count: nat, maxSize: int,
                                           sizeOf: (K, V) -> int, canBeRemoved: (K, V) -> bool)
    requires maxSize > 0
    ensures ResizeAsWrittenSpec(Store([], 0, [], 0), true, count, maxSize, sizeOf, canBeRemoved).0
            == Thrown(IllegalState)
  {
  }

  /** resize as written, on a cache holding one entry of weight 1 with
      maximum 10: resize(5) leaves the maximum at 10 and the size at 5, so
      the accounting no longer matches the content. */
  lemma ResizeAsWrittenBreaksAccounting()
    ensures var s := Store([Pair(1, "a")], 1, [], 0);
            var r := ResizeAsWrittenSpec(s, false, 1, 5, (k: int, v: string) => 1, (k: int, v: string) => true);
            Consistent(s, (k: int, v: string) => 1)
            && r.0 == Normal && r.1.size == 5 && r.1.pairs == [Pair(1, "a")]
            && !Consistent(r.1, (k: int, v: string) => 1)
  {
    var s := Store([Pair(1, "a")], 1, [], 0);
    assert [Pair(1, "a")][1..] == [];
    assert Weight([Pair(1, "a")], (k: int, v: string) => 1) == 1;
  }

  /** A put of a new key that keeps the cache within its maximum adds the
      pair at the head and its weight, and reports nothing. */
  lemma PutWithin<K, V>(s: Store<K, V>, key: K, value: V, maxSize: int,
                        sizeOf: (K, V) -> int, canBeRemoved: (K, V) -> bool)
    requires Lookup(s.pairs, key) == None && 0 <= sizeOf(key, value) && 0 <= s.size + sizeOf(key, value) <= maxSize
    ensures PutSpec(s, key, value, maxSize, sizeOf, canBeRemoved)
         == (Ok(None), s.(pairs := PutPairs(s.pairs, key, value), size := s.size + sizeOf(key, value)))
  {
    assert LruCacheSpec.Evictions<K, V>([]) == [];
    assert s.events + [] + [] == s.events;
  }

  /** The weight LruCacheExTest gives an entry: its key. */
  function KeyWeight(key: int, value: string): int { key }

  /** A weight of 1 per entry, which makes the size an entry count. */
  function UnitWeight(key: int, value: string): int { 1 }

  /** canBeRemoved as LruCacheEx leaves it: every entry may go. */
  function AnyEntry(key: int, value: string): bool { true }

  /** The fourth put of LruCacheExTest: the cache is at 110 with maximum
      100, so the tail 50 is evicted and the trim stops at 60. */
  lemma FourthPut()
    ensures var p3 := [Pair(20, "30"), Pair(30, "30"), Pair(50, "50")];
            PutSpec(Store(p3, 100, [], 0), 10, "10", 100, KeyWeight, AnyEntry)
            == (Ok(None), Store([Pair(10, "10"), Pair(20, "30"), Pair(30, "30")], 60,
                                [LruCacheSpec.EntryRemoved(true, 50, "50", None)], 1))
  {
    var p3 := [Pair(20, "30"), Pair(30, "30"), Pair(50, "50")];
    var p4 := [Pair(10, "10")] + p3;
    assert Lookup(p3, 10) == None by {
      assert IndexOf(p3[3..], 10) == None;
      assert IndexOf(p3[2..], 10) == None;
      assert IndexOf(p3[1..], 10) == None;
    }
    assert PutPairs(p3, 10, "10") == p4;
    var rest := p4[..|p4| - 1];
    assert rest == [Pair(10, "10"), Pair(20, "30"), Pair(30, "30")];
    assert TrimLoop(rest, false, 60, 100, Some("10"), 4, 0, KeyWeight, AnyEntry) == Trim(rest, 60, [], Normal);
    assert TrimLoop(p4, false, 110, 100, Some("10"), 4, 0, KeyWeight, AnyEntry) == Trim(rest, 60, [Pair(50, "50")], Normal);
    assert LruCacheSpec.Evictions([Pair(50, "50")]) == [LruCacheSpec.EntryRemoved(true, 50, "50", None)];
    assert LruCacheSpec.WeightOf(10, None, KeyWeight) == 0;
    assert LruCacheSpec.Replacement(10, None, "10") == [];
    var ev: seq<Event<int, string>> := [LruCacheSpec.EntryRemoved(true, 50, "50", None)];
    assert [] + LruCacheSpec.Evictions([Pair(50, "50")]) == ev;
    assert TrimSpec(Store(p4, 110, [], 0), false, 4, 100, Some("10"), KeyWeight, AnyEntry)
        == (Normal, Store(rest, 60, [LruCacheSpec.EntryRemoved(true, 50, "50", None)], 1));
    var s3 := Store(p3, 100, [], 0);
    assert s3.events + LruCacheSpec.Replacement(10, None, "10") == [];
    assert PutSpec(s3, 10, "10", 100, KeyWeight, AnyEntry)
        == (Ok(None), TrimSpec(Store(p4, 110, [], 0), false, 4, 100, Some("10"), KeyWeight, AnyEntry).1);
  }

  /** The cache of LruCacheExTest, with maximum 100 and each entry weighing
      its key: putting 50, 30, 20 and 10 evicts 50 alone, reported as one
      entryRemoved(true, 50, "50", null) call, and leaves size 60. */
  lemma FourPuts()
    ensures var s0 := Store([], 0, [], 0);
            var x1 := PutSpec(s0, 50, "50", 100, KeyWeight, AnyEntry);
            var x2 := PutSpec(x1.1, 30, "30", 100, KeyWeight, AnyEntry);
            var x3 := PutSpec(x2.1, 20, "30", 100, KeyWeight, AnyEntry);
            var x4 := PutSpec(x3.1, 10, "10", 100, KeyWeight, AnyEntry);
            x1.0 == x2.0 == x3.0 == x4.0 == Ok(None)
            && x4.1.pairs == [Pair(10, "10"), Pair(20, "30"), Pair(30, "30")]
            && x4.1.size == 60 && x4.1.evictions == 1
            && x4.1.events == [LruCacheSpec.EntryRemoved(true, 50, "50", None)]
  {
    var s0 := Store([], 0, [], 0);
    var p1, p2, p3 := [Pair(50, "50")], [Pair(30, "30"), Pair(50, "50")], [Pair(20, "30"), Pair(30, "30"), Pair(50, "50")];
    assert PutPairs(s0.pairs, 50, "50") == p1;
    PutWithin(s0, 50, "50", 100, KeyWeight, AnyEntry);
    var x1 := PutSpec(s0, 50, "50", 100, KeyWeight, AnyEntry);
    assert x1 == (Ok(None), Store(p1, 50, [], 0));
    assert Lookup(p1, 30) == None by { assert IndexOf(p1[1..], 30) == None; }
    assert PutPairs(p1, 30, "30") == p2;
    PutWithin(x1.1, 30, "30", 100, KeyWeight, AnyEntry);
    var x2 := PutSpec(x1.1, 30, "30", 100, KeyWeight, AnyEntry);
    assert x2 == (Ok(None), Store(p2, 80, [], 0));
    assert Lookup(p2, 20) == None by {
      assert IndexOf(p2[2..], 20) == None;
      assert IndexOf(p2[1..], 20) == None;
    }
    assert PutPairs(p2, 20, "30") == p3;
    PutWithin(x2.1, 20, "30", 100, KeyWeight, AnyEntry);
    assert PutSpec(x2.1, 20, "30", 100, KeyWeight, AnyEntry) == (Ok(None), Store(p3, 100, [], 0));
    FourthPut();
  }

  /** The puts and the evictAll of the expiry trace, on values: the store
      after put(1), the same store once its one entry has expired, put(2)
      and put(3) with maximum 1 and unit weights, then evictAll. */
  lemma ExpiryTrace()
    ensures var s1 := PutSpec(Store([], 0, [], 0), 1, "1", 1, UnitWeight, AnyEntry).1;
            var e1 := s1.(pairs := []);
            var s2 := PutSpec(e1, 2, "2", 1, UnitWeight, AnyEntry).1;
            var s3 := PutSpec(s2, 3, "3", 1, UnitWeight, AnyEntry).1;
            var r := TrimSpec(s3, false, 1, -1, None, UnitWeight, AnyEntry);
            s1.pairs == [Pair(1, "1")] && Consistent(s1, UnitWeight) && !Consistent(e1, UnitWeight)
            && s2.pairs == [Pair(2, "2")] && s2.size == 2
            && s3.pairs == [Pair(3, "3")] && s3.size == 2
            && r.0 == Thrown(IllegalState) && r.1.pairs == [] && r.1.size == 1
  {
    var s0 := Store([], 0, [], 0);
    var p1 := [Pair(1, "1")];
    assert PutPairs(s0.pairs, 1, "1") == p1;
    PutWithin(s0, 1, "1", 1, UnitWeight, AnyEntry);
    var s1 := Store(p1, 1, [], 0);
    assert Weight(p1, UnitWeight) == 1 by { assert p1[1..] == []; }
    var e1 := s1.(pairs := []);
    assert Weight<int, string>([], UnitWeight) == 0;
    var s2 := Store([Pair(2, "2")], 2, [], 0);
    SecondPut();
    var s3 := Store([Pair(3, "3")], 2, [LruCacheSpec.EntryRemoved(true, 2, "2", None)], 1);
    ThirdPut();
    FinalEvictAll();
  }

  /** put(2) on the store whose entry expired: the size counts 2 for one
      entry, and that entry, being the value kept, is put back. */
  lemma SecondPut()
    ensures PutSpec(Store([], 1, [], 0), 2, "2", 1, UnitWeight, AnyEntry).1 == Store([Pair(2, "2")], 2, [], 0)
  {
    var p2 := [Pair(2, "2")];
    assert PutPairs<int, string>([], 2, "2") == p2;
    assert p2[..0] == [];
    assert TrimLoop(p2, false, 2, 1, Some("2"), 1, 0, UnitWeight, AnyEntry) == Trim(p2, 2, [], Normal);
    var none: seq<Pair<int, string>> := [];
    assert TrimLoop(p2, false, 2, 1, Some("2"), 1, 0, UnitWeight, AnyEntry).evicted == none;
    assert [] + LruCacheSpec.Evictions(none) == [];
    assert LruCacheSpec.Replacement(2, None, "2") == [];
    var t := TrimSpec(Store(p2, 2, [], 0), false, 1, 1, Some("2"), UnitWeight, AnyEntry);
    assert t == (Normal, Store(p2, 2, [], 0));
  }

  /** put(3) on that store: 2 is evicted, 3 is put back until the loop
      gives up, and the size stays at 2. */
  lemma ThirdPut()
    ensures PutSpec(Store([Pair(2, "2")], 2, [], 0), 3, "3", 1, UnitWeight, AnyEntry).1
         == Store([Pair(3, "3")], 2, [LruCacheSpec.EntryRemoved(true, 2, "2", None)], 1)
  {
    var p2, p3 := [Pair(2, "2")], [Pair(3, "3")];
    var q := [Pair(3, "3"), Pair(2, "2")];
    assert Lookup(p2, 3) == None by { assert IndexOf(p2[1..], 3) == None; }
    assert PutPairs(p2, 3, "3") == q;
    assert q[..1] == p3 && p3[..0] == [];
    assert PutPairs<int, string>([], 3, "3") == p3;
    assert TrimLoop(p3, false, 2, 1, Some("3"), 2, 1, UnitWeight, AnyEntry) == Trim(p3, 2, [], Normal);
    assert TrimLoop(p3, false, 2, 1, Some("3"), 2, 0, UnitWeight, AnyEntry) == Trim(p3, 2, [], Normal);
    assert TrimLoop(q, false, 3, 1, Some("3"), 2, 0, UnitWeight, AnyEntry) == Trim(p3, 2, [Pair(2, "2")], Normal);
    assert LruCacheSpec.Replacement(3, None, "3") == [];
    assert [] + LruCacheSpec.Evictions([Pair(2, "2")]) == [LruCacheSpec.EntryRemoved(true, 2, "2", None)];
    var t := TrimSpec(Store(q, 3, [], 0), false, 2, 1, Some("3"), UnitWeight, AnyEntry);
    assert t == (Normal, Store(p3, 2, [LruCacheSpec.EntryRemoved(true, 2, "2", None)], 1));
  }

  /** evictAll after put(3): removing 3 leaves an empty map whose size is
      still 1, and the check at the loop head throws. */
  lemma FinalEvictAll()
    ensures var r := TrimSpec(Store([Pair(3, "3")], 2, [LruCacheSpec.EntryRemoved(true, 2, "2", None)], 1),
                              false, 1, -1, None, UnitWeight, AnyEntry);
            r.0 == Thrown(IllegalState) && r.1.pairs == [] && r.1.size == 1
  {
    var p3 := [Pair(3, "3")];
    assert p3[..0] == [];
    assert TrimLoop([], true, 1, -1, None, 1, 0, UnitWeight, AnyEntry) == Trim([], 1, [], Thrown(IllegalState));
    assert TrimLoop(p3, false, 2, -1, None, 1, 0, UnitWeight, AnyEntry) == Trim([], 1, [Pair(3, "3")], Thrown(IllegalState));
  }
}
