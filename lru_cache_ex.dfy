// LruCacheEx: a size-bounded cache over an LruMap. Every operation is
// proved against the value-level description in LruCacheExSpec, read
// through StoreAt(now): the map's content as trimToTimeout would leave it
// at now, the running size, the entryRemoved calls and the eviction count.
module LruCacheExModel {
  import opened Common
  import opened LruMapModel
  import opened LruPairs
  import opened LruCacheExSpec
  import LruCacheSpec

  // ---- the map, as each operation of LruMap leaves it ----

  /** No node of s has expired at now. */
  ghost predicate Fresh<K, V>(s: seq<Node<K, V>>, now: int) {
    forall i :: 0 <= i < |s| ==> s[i].expired > now
  }

  /** trimToTimeout leaves only nodes that have not expired. */
  lemma {:induction false} UnexpiredFresh<K, V>(s: seq<Node<K, V>>, now: int)
    ensures Fresh(Unexpired(s, now), now)
    decreases |s|
  {
    if |s| > 0 {
      UnexpiredFresh(s[1..], now);
      var head := if s[0].expired > now then [s[0]] else [];
      var r := Unexpired(s, now);
      assert r == head + Unexpired(s[1..], now);
      forall i | 0 <= i < |r| ensures r[i].expired > now {
        if i >= |head| {
          assert r[i] == Unexpired(s[1..], now)[i - |head|];
        }
      }
    }
  }

  lemma FreshWithoutKey<K, V>(s: seq<Node<K, V>>, key: K, now: int)
    requires Fresh(s, now)
    ensures Fresh(WithoutKey(s, key), now)
  {
    match Find(s, key)
    case Some(i) =>
      var r := s[..i] + s[i + 1..];
      forall j | 0 <= j < |r| ensures r[j].expired > now {
        assert r[j] == if j < i then s[j] else s[j + 1];
      }
    case None =>
  }

  lemma FreshMoved<K, V>(s: seq<Node<K, V>>, i: int, now: int)
    requires 0 <= i < |s| && Fresh(s, now)
    ensures Fresh(MoveToFront(s, i), now)
  {
    var r := MoveToFront(s, i);
    forall j | 0 <= j < |r| ensures r[j].expired > now {
      assert r[j] in multiset(s);
    }
  }

  /** Whatever m held, m.Trimmed(s, now) holds no node expired at now. */
  lemma TrimmedFresh<K, V>(m: LruMap<K, V>, s: seq<Node<K, V>>, now: int)
    ensures m.supportTimeout ==> Fresh(m.Trimmed(s, now), now)
  {
    if m.supportTimeout {
      UnexpiredFresh(s, now);
    }
  }

  /** A map trimmed at now stays as it is when trimmed at now again. */
  lemma SettledAt<K, V>(m: LruMap<K, V>, s: seq<Node<K, V>>, now: int)
    requires m.supportTimeout ==> Fresh(s, now)
    ensures m.Trimmed(s, now) == s
  {
    if m.supportTimeout {
      UnexpiredAll(s, now);
    }
  }

  /** m.Valid() behind one level of recursion. The methods below carry the
      map's invariant in this form, so that proofs about the cache do not
      unfold LruMap's invariant at every state they pass through; each
      wrapper unfolds it once, around the one LruMap call it makes. */
  ghost predicate Sound<K, V>(m: LruMap<K, V>, depth: nat)
    reads m, m.Repr
    decreases depth
  {
    if depth == 0 then m.Valid() else Sound(m, depth - 1)
  }

  /** size() on the map: the number of entries it links, expired or not. */
  method SizeAt<K, V>(m: LruMap<K, V>) returns (n: int)
    requires Sound(m, 2)
    ensures n == |m.Nodes|
  {
    assert Sound(m, 0);
    n := m.Size();
  }

  /** isEmpty() on the map. */
  method EmptyAt<K, V>(m: LruMap<K, V>) returns (b: bool)
    requires Sound(m, 2)
    ensures b <==> m.Nodes == []
  {
    assert Sound(m, 0);
    b := m.IsEmpty();
  }

  /** put on the map, read as pairs: the pairs put gives the content left by
      trimToTimeout, and the map is left with nothing expired at now. */
  method PutAt<K, V>(m: LruMap<K, V>, key: K, value: V, now: int) returns (r: Option<V>)
    requires Sound(m, 2)
    modifies m.Repr
    ensures Sound(m, 2) && fresh(m.Repr - old(m.Repr)) && m.Trimmed(m.Nodes, now) == m.Nodes
    ensures var p := PairsOf(m.Trimmed(old(m.Nodes), now));
            PairsOf(m.Nodes) == PutPairs(p, key, value) && r == Lookup(p, key)
  {
    ghost var t := m.Trimmed(m.Nodes, now);
    TrimmedFresh(m, m.Nodes, now);
    assert Sound(m, 0);
    r := m.Put(key, value, now);
    PutSettled(m, t, m.Nodes, key, value, now);
    assert Sound(m, 0);
  }

  /** The nodes after LruMap.put, read as pairs, and already trimmed at now. */
  lemma PutSettled<K, V>(m: LruMap<K, V>, t: seq<Node<K, V>>, nodes: seq<Node<K, V>>, key: K, value: V, now: int)
    requires m.supportTimeout ==> Fresh(t, now)
    requires |nodes| > 0 && nodes[0].key == key && nodes[0].value == value && nodes[1..] == WithoutKey(t, key)
    requires m.supportTimeout ==> nodes[0].expired > now
    ensures PairsOf(nodes) == PutPairs(PairsOf(t), key, value) && ValueOf(t, key) == Lookup(PairsOf(t), key)
    ensures m.Trimmed(nodes, now) == nodes
  {
    PutStep(t, nodes, key, value);
    if m.supportTimeout {
      FreshWithoutKey(t, key, now);
      assert nodes == [nodes[0]] + nodes[1..];
    }
    SettledAt(m, nodes, now);
  }

  /** get on the map, read as pairs. */
  method GetAt<K, V>(m: LruMap<K, V>, key: K, now: int) returns (r: Option<V>)
    requires Sound(m, 2)
    modifies m.Repr
    ensures Sound(m, 2) && m.Repr == old(m.Repr) && m.Trimmed(m.Nodes, now) == m.Nodes
    ensures var p := PairsOf(m.Trimmed(old(m.Nodes), now));
            PairsOf(m.Nodes) == GetPairs(p, key) && r == Lookup(p, key)
  {
    ghost var t := m.Trimmed(m.Nodes, now);
    TrimmedFresh(m, m.Nodes, now);
    assert Sound(m, 0);
    r := m.Get(key, now);
    GetStep(t, m.Nodes, key);
    if m.supportTimeout {
      match Find(t, key)
      case Some(i) => FreshMoved(t, i, now);
      case None =>
    }
    SettledAt(m, m.Nodes, now);
    assert Sound(m, 0);
  }

  /** remove on the map, read as pairs. */
  method RemoveAt<K, V>(m: LruMap<K, V>, key: K, now: int) returns (r: Option<V>)
    requires Sound(m, 2)
    modifies m.Repr
    ensures Sound(m, 2) && m.Repr == old(m.Repr) && m.Trimmed(m.Nodes, now) == m.Nodes
    ensures var p := PairsOf(m.Trimmed(old(m.Nodes), now));
            PairsOf(m.Nodes) == Drop(p, key) && r == Lookup(p, key)
  {
    ghost var t := m.Trimmed(m.Nodes, now);
    TrimmedFresh(m, m.Nodes, now);
    assert Sound(m, 0);
    r := m.Remove(key, now);
    RemoveStep(t, m.Nodes, key);
    if m.supportTimeout {
      FreshWithoutKey(t, key, now);
    }
    SettledAt(m, m.Nodes, now);
    assert Sound(m, 0);
  }

  /** removeTail on the map, answering with the pair of the entry it unlinks. */
  method TakeTail<K, V>(m: LruMap<K, V>, now: int) returns (r: Option<Pair<K, V>>)
    requires Sound(m, 2)
    modifies m.Repr
    ensures Sound(m, 2) && m.Repr == old(m.Repr) && m.Trimmed(m.Nodes, now) == m.Nodes
    ensures var p := PairsOf(m.Trimmed(old(m.Nodes), now));
            r == (if p == [] then None else Some(p[|p| - 1]))
            && PairsOf(m.Nodes) == (if p == [] then [] else p[..|p| - 1])
  {
    ghost var t := m.Trimmed(m.Nodes, now);
    TrimmedFresh(m, m.Nodes, now);
    assert Sound(m, 0);
    var e := m.RemoveTail(now);
    if e == null {
      r := None;
    } else {
      RemoveTailStep(t, m.Nodes);
      r := Some(Pair(e.key, e.value));
    }
    SettledAt(m, m.Nodes, now);
    assert Sound(m, 0);
  }

  /** The keys of a valid map are distinct, and so are those of its pairs. */
  lemma PairsDistinct<K, V>(m: LruMap<K, V>, now: int)
    requires m.Valid()
    ensures Distinct(PairsOf(m.Trimmed(m.Nodes, now)))
  {
    var p := PairsOf(m.Trimmed(m.Nodes, now));
    SnapshotDistinct(m.List, m.Nodes);
    TabledDistinctKeys(m.table, m.Nodes);
    if m.supportTimeout {
      UnexpiredDistinct(m.Nodes, now);
    }
    forall i, j | 0 <= i < j < |p| ensures p[i].key != p[j].key {
    }
  }

  /** The loop of trimToSize is on course to end as t0: from the state t it
      is now in, having evicted evicted so far. */
  ghost predicate OnCourse<K, V>(t: Trim<K, V>, evicted: seq<Pair<K, V>>, t0: Trim<K, V>) {
    t.pairs == t0.pairs && t.size == t0.size && evicted + t.evicted == t0.evicted && t.outcome == t0.outcome
  }

  /** OnCourse for the loop standing at (p, empty, size, skip), behind depth
      levels of recursion: the loop's proof carries it as a unit and only
      the lemmas below look inside. */
  ghost predicate Course<K, V>(p: seq<Pair<K, V>>, empty: bool, size: int, limit: int, keep: Option<V>,
                     count: nat, skip: nat, sizeOf: (K, V) -> int, canBeRemoved: (K, V) -> bool,
                     evicted: seq<Pair<K, V>>, t0: Trim<K, V>, depth: nat)
    decreases depth
  {
    skip <= count
    && if depth == 0 then OnCourse(TrimLoop(p, empty, size, limit, keep, count, skip, sizeOf, canBeRemoved), evicted, t0)
       else Course(p, empty, size, limit, keep, count, skip, sizeOf, canBeRemoved, evicted, t0, depth - 1)
  }

  /** Before the first check, the loop is on course to end where TrimLoop says. */
  lemma StartCourse<K, V>(p: seq<Pair<K, V>>, empty: bool, size: int, limit: int, keep: Option<V>,
                          count: nat, sizeOf: (K, V) -> int, canBeRemoved: (K, V) -> bool)
    ensures Course(p, empty, size, limit, keep, count, 0, sizeOf, canBeRemoved, [],
                   TrimLoop(p, empty, size, limit, keep, count, 0, sizeOf, canBeRemoved), 2)
  {
    var t := TrimLoop(p, empty, size, limit, keep, count, 0, sizeOf, canBeRemoved);
    assert [] + t.evicted == t.evicted;
  }

  /** At a check that ends the loop, t0 is where the loop stands. */
  lemma EndCourse<K, V>(p: seq<Pair<K, V>>, empty: bool, size: int, limit: int, keep: Option<V>,
                     count: nat, skip: nat, sizeOf: (K, V) -> int, canBeRemoved: (K, V) -> bool,
                     evicted: seq<Pair<K, V>>, t0: Trim<K, V>)
    requires size < 0 || (empty && size != 0) || size <= limit || skip == count || p == []
    requires Course(p, empty, size, limit, keep, count, skip, sizeOf, canBeRemoved, evicted, t0, 2)
    ensures t0 == Trim(p, size, evicted, if size < 0 || (empty && size != 0) then Thrown(IllegalState) else Normal)
  {
    assert Course(p, empty, size, limit, keep, count, skip, sizeOf, canBeRemoved, evicted, t0, 0);
  }

  /** Evicting the tail keeps the loop on course. */
  lemma EvictCourse<K, V>(p: seq<Pair<K, V>>, empty: bool, size: int, limit: int, keep: Option<V>,
                     count: nat, skip: nat, sizeOf: (K, V) -> int, canBeRemoved: (K, V) -> bool,
                     evicted: seq<Pair<K, V>>, t0: Trim<K, V>)
    requires skip < count && size >= 0 && !(empty && size != 0) && size > limit && p != []
    requires canBeRemoved(p[|p| - 1].key, p[|p| - 1].value) && keep != Some(p[|p| - 1].value)
    requires sizeOf(p[|p| - 1].key, p[|p| - 1].value) >= 0
    requires Course(p, empty, size, limit, keep, count, skip, sizeOf, canBeRemoved, evicted, t0, 2)
    ensures var last, rest := p[|p| - 1], p[..|p| - 1];
            Course(rest, rest == [], size - sizeOf(last.key, last.value), limit, keep, count, skip, sizeOf, canBeRemoved,
                   evicted + [last], t0, 2)
  {
    assert Course(p, empty, size, limit, keep, count, skip, sizeOf, canBeRemoved, evicted, t0, 0);
    EvictUnfold(p, empty, size, limit, keep, count, skip, sizeOf, canBeRemoved);
  }

  /** A tail with a negative weight: the loop throws with the tail gone. */
  lemma NegativeCourse<K, V>(p: seq<Pair<K, V>>, empty: bool, size: int, limit: int, keep: Option<V>,
                     count: nat, skip: nat, sizeOf: (K, V) -> int, canBeRemoved: (K, V) -> bool,
                     evicted: seq<Pair<K, V>>, t0: Trim<K, V>)
    requires skip < count && size >= 0 && !(empty && size != 0) && size > limit && p != []
    requires canBeRemoved(p[|p| - 1].key, p[|p| - 1].value) && keep != Some(p[|p| - 1].value)
    requires sizeOf(p[|p| - 1].key, p[|p| - 1].value) < 0
    requires Course(p, empty, size, limit, keep, count, skip, sizeOf, canBeRemoved, evicted, t0, 2)
    ensures t0 == Trim(p[..|p| - 1], size, evicted, Thrown(IllegalState))
  {
    assert Course(p, empty, size, limit, keep, count, skip, sizeOf, canBeRemoved, evicted, t0, 0);
  }

  /** Putting the tail back keeps the loop on course. */
  lemma SkipCourse<K, V>(p: seq<Pair<K, V>>, empty: bool, size: int, limit: int, keep: Option<V>,
                     count: nat, skip: nat, sizeOf: (K, V) -> int, canBeRemoved: (K, V) -> bool,
                     evicted: seq<Pair<K, V>>, t0: Trim<K, V>)
    requires skip < count && size >= 0 && !(empty && size != 0) && size > limit && p != []
    requires !(canBeRemoved(p[|p| - 1].key, p[|p| - 1].value) && keep != Some(p[|p| - 1].value))
    requires Course(p, empty, size, limit, keep, count, skip, sizeOf, canBeRemoved, evicted, t0, 2)
    ensures var last, rest := p[|p| - 1], p[..|p| - 1];
            Course(PutPairs(rest, last.key, last.value), false, size, limit, keep, count, skip + 1, sizeOf, canBeRemoved,
                   evicted, t0, 2)
  {
    assert Course(p, empty, size, limit, keep, count, skip, sizeOf, canBeRemoved, evicted, t0, 0);
    SkipStep(p, empty, size, limit, keep, count, skip, sizeOf, canBeRemoved);
  }

  // ---- the synchronized blocks of LruCacheEx, on the map and the running size ----

  /** trimToSize on s ends as the loop's course t0 says. */
  lemma TrimSpecOf<K, V>(s: Store<K, V>, empty: bool, count: nat, limit: int, keep: Option<V>,
                         sizeOf: (K, V) -> int, canBeRemoved: (K, V) -> bool, t0: Trim<K, V>)
    requires t0 == TrimLoop(s.pairs, empty, s.size, limit, keep, count, 0, sizeOf, canBeRemoved)
    ensures TrimSpec(s, empty, count, limit, keep, sizeOf, canBeRemoved)
         == (t0.outcome, Store(t0.pairs, t0.size, s.events + LruCacheSpec.Evictions(t0.evicted), s.evictions + |t0.evicted|))
  {
  }

  /** put on s, once both weights are known to be non-negative, is the
      trim of the store the put leaves. */
  lemma PutSpecOf<K, V>(s: Store<K, V>, key: K, value: V, previous: Option<V>, size: int, maxSize: int,
                        sizeOf: (K, V) -> int, canBeRemoved: (K, V) -> bool, st: Store<K, V>)
    requires sizeOf(key, value) >= 0 && previous == Lookup(s.pairs, key)
    requires !(previous.Some? && sizeOf(key, previous.value) < 0)
    requires st == Store(PutPairs(s.pairs, key, value), s.size + sizeOf(key, value) - LruCacheSpec.WeightOf(key, previous, sizeOf),
                         s.events + LruCacheSpec.Replacement(key, previous, value), s.evictions)
    ensures var x, t := PutSpec(s, key, value, maxSize, sizeOf, canBeRemoved),
                        TrimSpec(st, false, |st.pairs|, maxSize, Some(value), sizeOf, canBeRemoved);
            x.0 == (if t.0 == Normal then Ok(previous) else Err(IllegalState))
            && x.1.pairs == t.1.pairs && x.1.size == t.1.size && x.1.events == t.1.events && x.1.evictions == t.1.evictions
  {
  }

  /** The loop of trimToSize(limit, keep) on m, starting from the running
      size: it ends as TrimLoop says, with the size, the evicted entries and
      their count that the caller writes back. */
  method MapTrim<K(==), V(==)>(m: LruMap<K, V>, size: int, limit: int, keep: Option<V>, now: int,
                              sizeOf: (K, V) -> int, canBeRemoved: (K, V) -> bool, ghost s: Store<K, V>)
    returns (outcome: Outcome, newSize: int, evictions: nat, ghost events: seq<Event<K, V>>)
    requires Sound(m, 2) && s.pairs == PairsOf(m.Trimmed(m.Nodes, now)) && s.size == size
    modifies m.Repr
    ensures Sound(m, 2) && fresh(m.Repr - old(m.Repr))
    ensures var x := TrimSpec(s, old(m.Nodes) == [], |old(m.Nodes)|, limit, keep, sizeOf, canBeRemoved);
            outcome == x.0 && PairsOf(m.Trimmed(m.Nodes, now)) == x.1.pairs && newSize == x.1.size
            && events == x.1.events && s.evictions + evictions == x.1.evictions
  {
    var count := SizeAt(m);
    var skip := 0;
    newSize := size;
    evictions := 0;
    // q is what the next removeTail sees, empty what isEmpty reports.
    ghost var q := PairsOf(m.Trimmed(m.Nodes, now));
    ghost var empty := m.Nodes == [];
    ghost var t0 := TrimLoop(q, empty, size, limit, keep, count, 0, sizeOf, canBeRemoved);
    ghost var evicted: seq<Pair<K, V>> := [];
    StartCourse(q, empty, size, limit, keep, count, sizeOf, canBeRemoved);
    TrimSpecOf(s, empty, count, limit, keep, sizeOf, canBeRemoved, t0);
    while true
      invariant Sound(m, 2) && fresh(m.Repr - old(m.Repr)) && skip <= count && evictions == |evicted|
      invariant q == PairsOf(m.Trimmed(m.Nodes, now)) && empty == (m.Nodes == [])
      invariant Course(q, empty, newSize, limit, keep, count, skip, sizeOf, canBeRemoved, evicted, t0, 2)
      decreases count - skip, |q|
    {
      var done, removed;
      ghost var q', empty', evicted';
      done, outcome, newSize, skip, removed, q', empty', evicted' :=
        TrimStep(m, limit, keep, now, count, skip, newSize, sizeOf, canBeRemoved, q, empty, evicted, t0);
      if removed.Some? {
        evictions := evictions + 1;
      }
      q, empty, evicted := q', empty', evicted';
      if done {
        break;
      }
    }
    events := s.events + LruCacheSpec.Evictions(evicted);
  }

  /** One pass of the loop of trimToSize(limit, keep): its checks, and past
      them removeTail and either the eviction of the entry or its return to
      the head. done says the loop ends here, with outcome; removed is the
      entry evicted, if any. */
  method TrimStep<K(==), V(==)>(m: LruMap<K, V>, limit: int, keep: Option<V>, now: int, count: nat, skip: nat,
                               size: int, sizeOf: (K, V) -> int, canBeRemoved: (K, V) -> bool,
                               ghost q: seq<Pair<K, V>>, ghost empty: bool, ghost evicted: seq<Pair<K, V>>,
                               ghost t0: Trim<K, V>)
    returns (done: bool, outcome: Outcome, newSize: int, newSkip: nat, removed: Option<Pair<K, V>>,
             ghost q': seq<Pair<K, V>>, ghost empty': bool, ghost evicted': seq<Pair<K, V>>)
    requires Sound(m, 2) && q == PairsOf(m.Trimmed(m.Nodes, now)) && empty == (m.Nodes == [])
    requires Course(q, empty, size, limit, keep, count, skip, sizeOf, canBeRemoved, evicted, t0, 2)
    modifies m.Repr
    ensures Sound(m, 2) && fresh(m.Repr - old(m.Repr))
    ensures q' == PairsOf(m.Trimmed(m.Nodes, now)) && empty' == (m.Nodes == [])
    ensures |evicted'| == |evicted| + (if removed.Some? then 1 else 0)
    ensures done ==> t0 == Trim(q', newSize, evicted', outcome)
    ensures !done ==> skip <= newSkip <= count && (newSkip > skip || |q'| < |q|)
                      && Course(q', empty', newSize, limit, keep, count, newSkip, sizeOf, canBeRemoved, evicted', t0, 2)
  {
    newSize, newSkip, removed, q', empty', evicted' := size, skip, None, q, empty, evicted;
    var isEmpty := EmptyAt(m);
    if size < 0 || (isEmpty && size != 0) {
      EndCourse(q, empty, size, limit, keep, count, skip, sizeOf, canBeRemoved, evicted, t0);
      return true, Thrown(IllegalState), newSize, newSkip, removed, q', empty', evicted';
    }
    if size <= limit || skip == count {
      EndCourse(q, empty, size, limit, keep, count, skip, sizeOf, canBeRemoved, evicted, t0);
      return true, Normal, newSize, newSkip, removed, q', empty', evicted';
    }
    var tail, evict := TrimPass(m, keep, now, canBeRemoved, q);
    if tail.None? {
      EndCourse(q, empty, size, limit, keep, count, skip, sizeOf, canBeRemoved, evicted, t0);
      return true, Normal, newSize, newSkip, removed, [], true, evicted';
    }
    var key, value := tail.value.key, tail.value.value;
    ghost var rest := q[..|q| - 1];
    if evict {
      var w := sizeOf(key, value);
      if w < 0 {
        NegativeCourse(q, empty, size, limit, keep, count, skip, sizeOf, canBeRemoved, evicted, t0);
        return true, Thrown(IllegalState), newSize, newSkip, removed, rest, rest == [], evicted';
      }
      EvictCourse(q, empty, size, limit, keep, count, skip, sizeOf, canBeRemoved, evicted, t0);
      return false, Normal, size - w, skip, tail, rest, rest == [], evicted + [tail.value];
    }
    SkipCourse(q, empty, size, limit, keep, count, skip, sizeOf, canBeRemoved, evicted, t0);
    return false, Normal, size, skip + 1, None, PutPairs(rest, key, value), false, evicted';
  }

  /** One pass of the loop of trimToSize past its checks: removeTail, then
      the entry is either left out (evict) or put back at the head, when
      canBeRemoved refuses it or its value is the one to keep. */
  method TrimPass<K(==), V(==)>(m: LruMap<K, V>, keep: Option<V>, now: int, canBeRemoved: (K, V) -> bool,
                               ghost q: seq<Pair<K, V>>)
    returns (tail: Option<Pair<K, V>>, evict: bool)
    requires Sound(m, 2) && q == PairsOf(m.Trimmed(m.Nodes, now))
    modifies m.Repr
    ensures Sound(m, 2) && fresh(m.Repr - old(m.Repr))
    ensures tail == (if q == [] then None else Some(q[|q| - 1]))
    ensures q == [] ==> m.Nodes == []
    ensures q != [] ==> evict == (canBeRemoved(q[|q| - 1].key, q[|q| - 1].value) && keep != Some(q[|q| - 1].value))
    ensures q != [] && evict ==> PairsOf(m.Trimmed(m.Nodes, now)) == q[..|q| - 1] && |m.Nodes| == |q| - 1
    ensures q != [] && !evict ==>
              PairsOf(m.Trimmed(m.Nodes, now)) == PutPairs(q[..|q| - 1], q[|q| - 1].key, q[|q| - 1].value) && m.Nodes != []
  {
    tail := TakeTail(m, now);
    if tail.None? {
      return tail, false;
    }
    var key, value := tail.value.key, tail.value.value;
    evict := canBeRemoved(key, value) && keep != Some(value);
    if !evict {
      var _ := PutAt(m, key, value, now);
      assert |m.Nodes| == |PairsOf(m.Nodes)| > 0;
    }
  }

  /** The synchronized block of remove(key): the entry leaves m and its
      weight is taken off the running size; s is what the cache held. */
  method MapRemove<K(==), V(==)>(m: LruMap<K, V>, key: K, now: int, size: int, sizeOf: (K, V) -> int,
                                ghost s: Store<K, V>)
    returns (r: Result<Option<V>>, newSize: int, ghost events: seq<Event<K, V>>)
    requires Sound(m, 2) && s.pairs == PairsOf(m.Trimmed(m.Nodes, now)) && s.size == size
    modifies m.Repr
    ensures Sound(m, 2) && m.Repr == old(m.Repr)
    ensures var x := RemoveSpec(s, key, sizeOf);
            r == x.0 && PairsOf(m.Trimmed(m.Nodes, now)) == x.1.pairs && newSize == x.1.size
            && events == x.1.events && s.evictions == x.1.evictions
  {
    var previous := RemoveAt(m, key, now);
    r, newSize, events := Ok(previous), size, s.events;
    if previous.Some? {
      var w := sizeOf(key, previous.value);
      if w < 0 {
        return Err(IllegalState), newSize, events;
      }
      newSize := size - w;
      events := s.events + [LruCacheSpec.EntryRemoved(false, key, previous.value, None)];
    }
  }

  /** The part of put(key, value) before its trim: the new value's weight
      is added, the pair is put and the replaced value's weight taken off.
      ok is false when either weight is negative; otherwise put ends as the
      trim of st, the store this part leaves. */
  method PutPart<K(==), V(==)>(m: LruMap<K, V>, key: K, value: V, now: int, size: int, ghost maxSize: int,
                              sizeOf: (K, V) -> int, ghost canBeRemoved: (K, V) -> bool, ghost s: Store<K, V>)
    returns (ok: bool, previous: Option<V>, newSize: int, ghost st: Store<K, V>)
    requires Sound(m, 2) && s.pairs == PairsOf(m.Trimmed(m.Nodes, now)) && s.size == size
    modifies m.Repr
    ensures Sound(m, 2) && fresh(m.Repr - old(m.Repr))
    ensures !ok ==> var x := PutSpec(s, key, value, maxSize, sizeOf, canBeRemoved);
                    x.0 == Err(IllegalState) && PairsOf(m.Trimmed(m.Nodes, now)) == x.1.pairs && newSize == x.1.size
                    && x.1.events == s.events && x.1.evictions == s.evictions
    ensures ok ==> m.Trimmed(m.Nodes, now) == m.Nodes && |m.Nodes| > 0
                   && st.pairs == PairsOf(m.Nodes) && st.size == newSize
                   && st.events == s.events + LruCacheSpec.Replacement(key, previous, value) && st.evictions == s.evictions
    ensures ok ==> var x, t := PutSpec(s, key, value, maxSize, sizeOf, canBeRemoved),
                               TrimSpec(st, false, |st.pairs|, maxSize, Some(value), sizeOf, canBeRemoved);
                   x.0 == (if t.0 == Normal then Ok(previous) else Err(IllegalState))
                   && x.1.pairs == t.1.pairs && x.1.size == t.1.size && x.1.events == t.1.events
                   && x.1.evictions == t.1.evictions
  {
    st := s;
    var w := sizeOf(key, value);
    if w < 0 {
      return false, None, size, st;
    }
    newSize := size + w;
    previous := PutAt(m, key, value, now);
    assert |m.Nodes| == |PairsOf(m.Nodes)|;
    if previous.Some? {
      var v := sizeOf(key, previous.value);
      if v < 0 {
        return false, previous, newSize, st;
      }
      newSize := newSize - v;
    }
    ok := true;
    st := Store(PairsOf(m.Nodes), newSize, s.events + LruCacheSpec.Replacement(key, previous, value), s.evictions);
    PutSpecOf(s, key, value, previous, newSize, maxSize, sizeOf, canBeRemoved, st);
  }

  /** The synchronized block of put(key, value) followed by its
      trimToSize(maxSize, value); s is what the cache held. */
  method MapPut<K(==), V(==)>(m: LruMap<K, V>, key: K, value: V, now: int, size: int, maxSize: int,
                             sizeOf: (K, V) -> int, canBeRemoved: (K, V) -> bool, ghost s: Store<K, V>)
    returns (r: Result<Option<V>>, newSize: int, evictions: nat, ghost events: seq<Event<K, V>>)
    requires Sound(m, 2) && s.pairs == PairsOf(m.Trimmed(m.Nodes, now)) && s.size == size
    modifies m.Repr
    ensures Sound(m, 2) && fresh(m.Repr - old(m.Repr))
    ensures var x := PutSpec(s, key, value, maxSize, sizeOf, canBeRemoved);
            r == x.0 && PairsOf(m.Trimmed(m.Nodes, now)) == x.1.pairs && newSize == x.1.size
            && events == x.1.events && s.evictions + evictions == x.1.evictions
  {
    var ok, previous;
    ghost var st;
    ok, previous, newSize, st := PutPart(m, key, value, now, size, maxSize, sizeOf, canBeRemoved, s);
    if !ok {
      return Err(IllegalState), newSize, 0, s.events;
    }
    r, newSize, evictions, events := PutTrim(m, key, value, previous, now, newSize, maxSize, sizeOf, canBeRemoved, s, st);
  }

  /** The trimToSize(maxSize, value) that ends a put whose weights were
      both non-negative; st is what the put left. */
  method PutTrim<K(==), V(==)>(m: LruMap<K, V>, key: K, value: V, previous: Option<V>, now: int, size: int,
                              maxSize: int, sizeOf: (K, V) -> int, canBeRemoved: (K, V) -> bool,
                              ghost s: Store<K, V>, ghost st: Store<K, V>)
    returns (r: Result<Option<V>>, newSize: int, evictions: nat, ghost events: seq<Event<K, V>>)
    requires Sound(m, 2) && m.Trimmed(m.Nodes, now) == m.Nodes && |m.Nodes| > 0
    requires st.pairs == PairsOf(m.Nodes) && st.size == size
    requires st.events == s.events + LruCacheSpec.Replacement(key, previous, value) && st.evictions == s.evictions
    requires var x, t := PutSpec(s, key, value, maxSize, sizeOf, canBeRemoved),
                        TrimSpec(st, false, |st.pairs|, maxSize, Some(value), sizeOf, canBeRemoved);
             x.0 == (if t.0 == Normal then Ok(previous) else Err(IllegalState))
             && x.1.pairs == t.1.pairs && x.1.size == t.1.size && x.1.events == t.1.events
             && x.1.evictions == t.1.evictions
    modifies m.Repr
    ensures Sound(m, 2) && fresh(m.Repr - old(m.Repr))
    ensures var x := PutSpec(s, key, value, maxSize, sizeOf, canBeRemoved);
            r == x.0 && PairsOf(m.Trimmed(m.Nodes, now)) == x.1.pairs && newSize == x.1.size
            && events == x.1.events && s.evictions + evictions == x.1.evictions
  {
    assert |m.Nodes| == |PairsOf(m.Nodes)|;
    var outcome;
    outcome, newSize, evictions, events := MapTrim(m, size, maxSize, Some(value), now, sizeOf, canBeRemoved, st);
    r := if outcome == Normal then Ok(previous) else Err(IllegalState);
  }

  /** A cache of at most maxSize units over an LruMap; sizeOf and
      canBeRemoved are the methods a subclass overrides. */
  class LruCacheEx<K(==), V(==)> {
    const lru: LruMap<K, V>
    var size: int
    var maxSize: int
    var putCount: int
    var evictionCount: int
    var hitCount: int
    var missCount: int
    const sizeOf: (K, V) -> int
    const canBeRemoved: (K, V) -> bool
    /** The entryRemoved calls made so far, oldest first. */
    ghost var Events: seq<Event<K, V>>

    ghost predicate Valid()
      reads lru, lru.Repr
    {
      Sound(lru, 2) && this !in lru.Repr
    }

    /** What a caller observes at now: the content trimToTimeout would leave,
        the running size, the entryRemoved calls and the eviction count. */
    ghost function StoreAt(now: int): Store<K, V>
      reads this, lru
    {
      Store(PairsOf(lru.Trimmed(lru.Nodes, now)), size, Events, evictionCount)
    }

    /** LruCacheEx(maxSize, timeout, comparator) once maxSize > 0 is checked. */
    constructor (maxSize: int, timeout: int, sizeOf: (K, V) -> int, canBeRemoved: (K, V) -> bool)
      requires maxSize > 0
      ensures Valid() && fresh(lru.Repr)
      ensures lru.Nodes == [] && lru.supportTimeout == (timeout > 0)
      ensures size == 0 && this.maxSize == maxSize && Events == []
      ensures putCount == 0 && evictionCount == 0 && hitCount == 0 && missCount == 0
      ensures this.sizeOf == sizeOf && this.canBeRemoved == canBeRemoved
    {
      lru := new LruMap(timeout);
      size := 0;
      this.maxSize := maxSize;
      putCount := 0;
      evictionCount := 0;
      hitCount := 0;
      missCount := 0;
      this.sizeOf := sizeOf;
      this.canBeRemoved := canBeRemoved;
      Events := [];
      new;
      assert Sound(lru, 0);
    }

    /** resize(maxSize) as written: it assigns the running size, not the
        maximum, and then trims to the new value. */
    method ResizeAsWritten(newMax: int, now: int) returns (outcome: Outcome)
      requires Valid()
      modifies this, lru.Repr
      ensures Valid() && fresh(lru.Repr - old(lru.Repr))
      ensures var x := ResizeAsWrittenSpec(old(StoreAt(now)), old(lru.Nodes) == [], |old(lru.Nodes)|, newMax, sizeOf, canBeRemoved);
              outcome == x.0 && StoreAt(now).pairs == x.1.pairs && size == x.1.size
              && Events == x.1.events && evictionCount == x.1.evictions
      ensures maxSize == old(maxSize) && putCount == old(putCount)
      ensures hitCount == old(hitCount) && missCount == old(missCount)
    {
      if newMax <= 0 {
        return Thrown(IllegalArgument);
      }
      size := newMax;
      outcome := TrimToSize(newMax, None, now);
    }

    /** resize(maxSize) as intended: the maximum becomes maxSize and the
        cache is trimmed to it. */
    method Resize(newMax: int, now: int) returns (outcome: Outcome)
      requires Valid()
      modifies this, lru.Repr
      ensures Valid() && fresh(lru.Repr - old(lru.Repr))
      ensures var x := ResizeSpec(old(StoreAt(now)), old(lru.Nodes) == [], |old(lru.Nodes)|, newMax, sizeOf, canBeRemoved);
              outcome == x.0 && StoreAt(now).pairs == x.1.pairs && size == x.1.size
              && Events == x.1.events && evictionCount == x.1.evictions
      ensures maxSize == if newMax <= 0 then old(maxSize) else newMax
      ensures putCount == old(putCount) && hitCount == old(hitCount) && missCount == old(missCount)
      ensures old(Consistent(StoreAt(now), sizeOf)) && newMax > 0 ==>
                outcome == Normal && Consistent(StoreAt(now), sizeOf)
    {
      if newMax <= 0 {
        return Thrown(IllegalArgument);
      }
      maxSize := newMax;
      ghost var s := StoreAt(now);
      ghost var empty := lru.Nodes == [];
      ghost var count := |lru.Nodes|;
      outcome := TrimToSize(newMax, None, now);
      if Consistent(s, sizeOf) {
        TrimConsistent(s, empty, count, newMax, None, sizeOf, canBeRemoved);
      }
    }

    /** mHitCount++ on a hit, mMissCount++ on a miss. */
    method Count(hit: bool)
      requires Valid()
      modifies this
      ensures Valid()
      ensures hitCount == old(hitCount) + (if hit then 1 else 0)
      ensures missCount == old(missCount) + (if hit then 0 else 1)
      ensures size == old(size) && maxSize == old(maxSize) && putCount == old(putCount)
      ensures evictionCount == old(evictionCount) && Events == old(Events)
    {
      if hit {
        hitCount := hitCount + 1;
      } else {
        missCount := missCount + 1;
      }
    }

    /** The bookkeeping after a change to the map: the new running size,
        the evictions to count and the entryRemoved calls made so far. */
    method Record(newSize: int, evictions: nat, ghost events: seq<Event<K, V>>)
      requires Valid()
      modifies this
      ensures Valid()
      ensures size == newSize && evictionCount == old(evictionCount) + evictions
      ensures Events == events
      ensures maxSize == old(maxSize) && putCount == old(putCount)
      ensures hitCount == old(hitCount) && missCount == old(missCount)
    {
      size := newSize;
      evictionCount := evictionCount + evictions;
      Events := events;
    }

    /** get(key): a hit moves the entry to the head and counts a hit,
        a miss counts a miss. */
    method Get(key: K, now: int) returns (r: Option<V>)
      requires Valid()
      modifies this, lru.Repr
      ensures Valid() && lru.Repr == old(lru.Repr)
      ensures var x := GetSpec(old(StoreAt(now)), key);
              r == x.0 && StoreAt(now).pairs == x.1.pairs && size == x.1.size
              && Events == x.1.events && evictionCount == x.1.evictions
      ensures hitCount == old(hitCount) + (if r.Some? then 1 else 0)
      ensures missCount == old(missCount) + (if r.None? then 1 else 0)
      ensures size == old(size) && maxSize == old(maxSize) && putCount == old(putCount)
      ensures old(Consistent(StoreAt(now), sizeOf)) ==> Consistent(StoreAt(now), sizeOf)
    {
      ghost var s := StoreAt(now);
      r := GetAt(lru, key, now);
      Count(r.Some?);
      if Consistent(s, sizeOf) {
        GetConsistent(s, key, sizeOf);
      }
    }

    /** put(key, value): the new weight is added (safeSizeOf throws on a
        negative one before anything changes), the map is updated, the
        replaced value's weight is taken off and the replacement reported,
        and the cache is trimmed to maxSize keeping value. */
    method Put(key: K, value: V, now: int) returns (r: Result<Option<V>>)
      requires Valid()
      modifies this, lru.Repr
      ensures Valid() && fresh(lru.Repr - old(lru.Repr))
      ensures var x := PutSpec(old(StoreAt(now)), key, value, old(maxSize), sizeOf, canBeRemoved);
              r == x.0 && StoreAt(now).pairs == x.1.pairs && size == x.1.size
              && Events == x.1.events && evictionCount == x.1.evictions
      ensures putCount == old(putCount) + 1 && maxSize == old(maxSize)
      ensures hitCount == old(hitCount) && missCount == old(missCount)
      ensures old(Consistent(StoreAt(now), sizeOf)) && sizeOf(key, value) >= 0 ==>
                r == Ok(Lookup(old(StoreAt(now)).pairs, key)) && Consistent(StoreAt(now), sizeOf)
                && Pair(key, value) in StoreAt(now).pairs
    {
      ghost var s := StoreAt(now);
      putCount := putCount + 1;
      var newSize, evictions;
      ghost var events;
      r, newSize, evictions, events := MapPut(lru, key, value, now, size, maxSize, sizeOf, canBeRemoved, s);
      Record(newSize, evictions, events);
      if Consistent(s, sizeOf) {
        PutAccounting(s, key, value, maxSize, sizeOf, canBeRemoved);
      }
    }

    /** trimToSize(maxSize, keepValue): evict from the tail until the size is
        at most limit, putting back the entries that may not be removed,
        at most once per entry the map held when the trim began. */
    method TrimToSize(limit: int, keep: Option<V>, now: int) returns (outcome: Outcome)
      requires Valid()
      modifies this, lru.Repr
      ensures Valid() && fresh(lru.Repr - old(lru.Repr))
      ensures var x := TrimSpec(old(StoreAt(now)), old(lru.Nodes) == [], |old(lru.Nodes)|, limit, keep, sizeOf, canBeRemoved);
              outcome == x.0 && StoreAt(now).pairs == x.1.pairs && size == x.1.size
              && Events == x.1.events && evictionCount == x.1.evictions
      ensures maxSize == old(maxSize) && putCount == old(putCount)
      ensures hitCount == old(hitCount) && missCount == old(missCount)
    {
      var newSize, evictions;
      ghost var events;
      outcome, newSize, evictions, events := MapTrim(lru, size, limit, keep, now, sizeOf, canBeRemoved, StoreAt(now));
      Record(newSize, evictions, events);
    }

    /** trimToSize(maxSize): trimToSize with no value to keep. */
    method Trim(limit: int, now: int) returns (outcome: Outcome)
      requires Valid()
      modifies this, lru.Repr
      ensures Valid() && fresh(lru.Repr - old(lru.Repr))
      ensures var x := TrimSpec(old(StoreAt(now)), old(lru.Nodes) == [], |old(lru.Nodes)|, limit, None, sizeOf, canBeRemoved);
              outcome == x.0 && StoreAt(now).pairs == x.1.pairs && size == x.1.size
              && Events == x.1.events && evictionCount == x.1.evictions
      ensures maxSize == old(maxSize) && putCount == old(putCount)
      ensures hitCount == old(hitCount) && missCount == old(missCount)
      ensures old(Consistent(StoreAt(now), sizeOf)) ==> outcome == Normal && Consistent(StoreAt(now), sizeOf)
    {
      ghost var s := StoreAt(now);
      ghost var empty := lru.Nodes == [];
      ghost var count := |lru.Nodes|;
      outcome := TrimToSize(limit, None, now);
      if Consistent(s, sizeOf) {
        TrimConsistent(s, empty, count, limit, None, sizeOf, canBeRemoved);
      }
    }

    /** remove(key): the entry leaves the map, its weight is taken off
        (safeSizeOf throws on a negative one after the map changed), and
        the removal is reported. */
    method Remove(key: K, now: int) returns (r: Result<Option<V>>)
      requires Valid()
      modifies this, lru.Repr
      ensures Valid() && lru.Repr == old(lru.Repr)
      ensures var x := RemoveSpec(old(StoreAt(now)), key, sizeOf);
              r == x.0 && StoreAt(now).pairs == x.1.pairs && size == x.1.size
              && Events == x.1.events && evictionCount == x.1.evictions
      ensures maxSize == old(maxSize) && putCount == old(putCount)
      ensures hitCount == old(hitCount) && missCount == old(missCount)
      ensures old(Consistent(StoreAt(now), sizeOf)) ==>
                r == Ok(Lookup(old(StoreAt(now)).pairs, key)) && Consistent(StoreAt(now), sizeOf)
                && Lookup(StoreAt(now).pairs, key) == None
    {
      ghost var s := StoreAt(now);
      var newSize;
      ghost var events;
      r, newSize, events := MapRemove(lru, key, now, size, sizeOf, s);
      Record(newSize, 0, events);
      if Consistent(s, sizeOf) {
        RemoveAccounting(s, key, sizeOf);
      }
    }

    /** evictAll: trimToSize(-1), which evicts zero-sized entries too. */
    method EvictAll(now: int) returns (outcome: Outcome)
      requires Valid()
      modifies this, lru.Repr
      ensures Valid() && fresh(lru.Repr - old(lru.Repr))
      ensures var x := TrimSpec(old(StoreAt(now)), old(lru.Nodes) == [], |old(lru.Nodes)|, -1, None, sizeOf, canBeRemoved);
              outcome == x.0 && StoreAt(now).pairs == x.1.pairs && size == x.1.size
              && Events == x.1.events && evictionCount == x.1.evictions
      ensures maxSize == old(maxSize) && putCount == old(putCount)
      ensures hitCount == old(hitCount) && missCount == old(missCount)
      ensures old(Consistent(StoreAt(now), sizeOf)) && old(Removable(StoreAt(now).pairs, None, canBeRemoved)) ==>
                outcome == Normal && StoreAt(now).pairs == [] && size == 0
    {
      ghost var s := StoreAt(now);
      ghost var empty := lru.Nodes == [];
      ghost var count := |lru.Nodes|;
      outcome := TrimToSize(-1, None, now);
      if Consistent(s, sizeOf) && Removable(s.pairs, None, canBeRemoved) {
        EvictAllConsistent(s, empty, count, sizeOf, canBeRemoved);
      }
    }
  }

  /** The constructor's check: maxSize <= 0 is an IllegalArgumentException. */
  method NewLruCacheEx<K(==), V(==)>(maxSize: int, timeout: int, sizeOf: (K, V) -> int, canBeRemoved: (K, V) -> bool)
    returns (r: Result<LruCacheEx<K, V>>)
    ensures maxSize <= 0 <==> r == Err(IllegalArgument)
    ensures r.Ok? ==> fresh(r.value) && r.value.Valid() && fresh(r.value.lru.Repr)
                      && r.value.lru.Nodes == [] && r.value.size == 0 && r.value.maxSize == maxSize
  {
    if maxSize <= 0 {
      return Err(IllegalArgument);
    }
    var c := new LruCacheEx(maxSize, timeout, sizeOf, canBeRemoved);
    r := Ok(c);
  }

  // ---- expiry and the running size ----

  /** trimToTimeout drops expired entries without taking their weight off
      the running size, so a timed cache loses its accounting. With timeout
      10, maximum 1 and weight 1: put(1) at 0 leaves an entry expiring at
      10; at 20 that entry has gone but the size is still 1; put(2) at 20
      brings the size to 2 with one entry; put(3) at 21 evicts 2 and keeps
      3, size 2; evictAll then removes 3, finds the map empty with size 1
      and throws IllegalStateException. Each store below is StoreAt(now)
      for the nodes the map holds at that moment. */
  lemma ExpiryBreaksAccounting(a: Entry<int, string>, b: Entry<int, string>, c: Entry<int, string>)
    ensures var n1, n2, n3 := [Node(a, 1, "1", 0 + 10)], [Node(b, 2, "2", 20 + 10)], [Node(c, 3, "3", 21 + 10)];
            var s1 := PutSpec(Store([], 0, [], 0), 1, "1", 1, UnitWeight, AnyEntry).1;
            var e1 := s1.(pairs := PairsOf(Unexpired(n1, 20)));
            var s2 := PutSpec(e1, 2, "2", 1, UnitWeight, AnyEntry).1;
            var e2 := s2.(pairs := PairsOf(Unexpired(n2, 21)));
            var s3 := PutSpec(e2, 3, "3", 1, UnitWeight, AnyEntry).1;
            var r := TrimSpec(s3, false, |n3|, -1, None, UnitWeight, AnyEntry);
            s1.pairs == PairsOf(n1) && Consistent(s1, UnitWeight) && !Consistent(e1, UnitWeight)
            && s2.pairs == PairsOf(n2) && s2.size == 2 && e2 == s2
            && s3.pairs == PairsOf(n3) && s3.size == 2
            && r.0 == Thrown(IllegalState) && r.1.pairs == [] && r.1.size == 1
  {
    var n1, n2, n3 := [Node(a, 1, "1", 0 + 10)], [Node(b, 2, "2", 20 + 10)], [Node(c, 3, "3", 21 + 10)];
    assert PairsOf(n1) == [Pair(1, "1")] && PairsOf(n2) == [Pair(2, "2")] && PairsOf(n3) == [Pair(3, "3")];
    assert Unexpired(n1, 20) == [] by { assert n1[1..] == []; }
    assert Unexpired(n2, 21) == n2 by { assert n2[1..] == []; }
    ExpiryTrace();
  }
}
