// LruMap: a HashMap from keys to entries threaded on an intrusive doubly
// linked recency list (head = most recently used), with an optional timeout
// index (DuplicateJLMap) from expiry times to entries.
module LruMapModel {
  import opened Common
  import opened DuplicateJL

  /** One entry: its key, value and expiry, and its links in the list. */
  class Entry<K, V> {
    var key: K
    var value: V
    var expired: int
    var previous: Entry?<K, V>
    var next: Entry?<K, V>

    constructor (key: K, value: V)
      ensures this.key == key && this.value == value && expired == 0
      ensures previous == null && next == null
    {
      this.key := key;
      this.value := value;
      expired := 0;
      previous := null;
      next := null;
    }
  }

  /** A snapshot of one entry: which object, and its key, value and expiry. */
  datatype Node<K, V> = Node(entry: Entry<K, V>, key: K, value: V, expired: int)

  // ---- The map's content as values, and what each operation does to it ----

  /** The keys held by nodes. */
  ghost function KeySet<K, V>(s: seq<Node<K, V>>): set<K> {
    set i | 0 <= i < |s| :: s[i].key
  }

  /** mMap.get: the position of key's node, if any. */
  function Find<K(==), V>(s: seq<Node<K, V>>, key: K): (r: Option<nat>)
    ensures r.Some? ==> r.value < |s| && s[r.value].key == key
    ensures r.None? <==> key !in KeySet(s)
  {
    if |s| == 0 then None
    else if s[0].key == key then Some(0)
    else
      var r := Find(s[1..], key);
      assert KeySet(s) == {s[0].key} + KeySet(s[1..]) by {
        assert forall i :: 1 <= i < |s| ==> s[i].key == s[1..][i - 1].key;
        assert forall i :: 0 <= i < |s| - 1 ==> s[1..][i].key == s[i + 1].key;
      }
      match r
      case Some(i) => Some(i + 1)
      case None => None
  }

  /** The value a lookup of key returns (null when absent). */
  function ValueOf<K(==), V>(s: seq<Node<K, V>>, key: K): Option<V> {
    match Find(s, key)
    case Some(i) => Some(s[i].value)
    case None => None
  }

  /** mMap.remove(key) together with unlinking its entry. */
  function WithoutKey<K(==), V>(s: seq<Node<K, V>>, key: K): (r: seq<Node<K, V>>)
    ensures Find(s, key).None? ==> r == s
    ensures Find(s, key).Some? ==> |r| == |s| - 1
  {
    match Find(s, key)
    case Some(i) => s[..i] + s[i + 1..]
    case None => s
  }

  /** The nodes whose expiry is still ahead of now, in order: what
      trimToTimeout leaves. */
  function Unexpired<K, V>(s: seq<Node<K, V>>, now: int): (r: seq<Node<K, V>>)
    ensures |r| <= |s|
  {
    if |s| == 0 then []
    else (if s[0].expired > now then [s[0]] else []) + Unexpired(s[1..], now)
  }

  /** The timeout index records the nodes stand for. */
  function TimedOf<K, V>(s: seq<Node<K, V>>): (r: seq<Timed<Entry<K, V>>>)
    ensures |r| == |s|
    ensures forall i :: 0 <= i < |s| ==> r[i] == Timed(s[i].expired, s[i].entry)
  {
    seq(|s|, i requires 0 <= i < |s| => Timed(s[i].expired, s[i].entry))
  }

  /** The nodes whose entry is not in gone, in order. */
  function Keep<K, V>(s: seq<Node<K, V>>, gone: set<Entry<K, V>>): (r: seq<Node<K, V>>)
    ensures |r| <= |s|
  {
    if |s| == 0 then []
    else (if s[0].entry in gone then [] else [s[0]]) + Keep(s[1..], gone)
  }

  /** The table maps each node's key to its entry, and holds no other key. */
  ghost predicate Tabled<K, V>(table: map<K, Entry<K, V>>, s: seq<Node<K, V>>) {
    (forall i :: 0 <= i < |s| ==> s[i].key in table && table[s[i].key] == s[i].entry)
    && (forall k :: k in table ==> k in KeySet(s))
  }

  ghost predicate DistinctNodes<K, V>(s: seq<Node<K, V>>) {
    forall i, j :: 0 <= i < j < |s| ==> s[i].entry != s[j].entry
  }

  // ---- trimToTimeout: the index prefix it drops is exactly the expired nodes ----

  /** The records whose expiry is after now, in order. */
  function Later<E>(t: seq<Timed<E>>, now: int): (r: seq<Timed<E>>)
    ensures |r| <= |t|
  {
    if |t| == 0 then []
    else (if t[0].key > now then [t[0]] else []) + Later(t[1..], now)
  }

  lemma {:induction false} LaterCount<E>(t: seq<Timed<E>>, now: int, x: Timed<E>)
    ensures multiset(Later(t, now))[x] == if x.key > now then multiset(t)[x] else 0
  {
    if |t| > 0 {
      LaterCount(t[1..], now, x);
      assert t == [t[0]] + t[1..];
    }
  }

  /** Two multisets with the same multiplicities are equal. */
  lemma MultisetExt<T>(a: multiset<T>, b: multiset<T>)
    requires forall x :: a[x] == b[x]
    ensures a == b
  {
  }

  /** Filtering by expiry keeps two record sequences permutations of each other. */
  lemma {:induction false} LaterMultiset<E>(a: seq<Timed<E>>, b: seq<Timed<E>>, now: int)
    requires multiset(a) == multiset(b)
    ensures multiset(Later(a, now)) == multiset(Later(b, now))
  {
    forall x
      ensures multiset(Later(a, now))[x] == multiset(Later(b, now))[x]
    {
      LaterCount(a, now, x);
      LaterCount(b, now, x);
    }
    MultisetExt(multiset(Later(a, now)), multiset(Later(b, now)));
  }

  lemma {:induction false} CountAtMostOne<T>(t: seq<T>, x: T)
    requires forall a, b :: 0 <= a < b < |t| ==> t[a] != t[b]
    ensures multiset(t)[x] <= 1
  {
    if |t| > 0 {
      var init := t[..|t| - 1];
      assert t == init + [t[|t| - 1]];
      CountAtMostOne(init, x);
      if x == t[|t| - 1] {
        assert x !in init;
      }
    }
  }

  /** A permutation of records with distinct entries has distinct entries. */
  lemma {:induction false} DistinctValues<E>(c: seq<Timed<E>>, t: seq<Timed<E>>)
    requires multiset(c) == multiset(t)
    requires forall a, b :: 0 <= a < b < |t| ==> t[a].value != t[b].value
    ensures forall a, b :: 0 <= a < b < |c| ==> c[a].value != c[b].value
  {
    forall a, b | 0 <= a < b < |c|
      ensures c[a].value != c[b].value
    {
      if c[a] == c[b] {
        assert c == c[..b] + [c[b]] + c[b + 1..];
        assert c[a] in c[..b];
        assert multiset(c)[c[a]] >= 2;
        CountAtMostOne(t, c[a]);
      } else {
        assert c[a] in multiset(t) && c[b] in multiset(t);
        var x :| 0 <= x < |t| && t[x] == c[a];
        var y :| 0 <= y < |t| && t[y] == c[b];
        assert x != y;
      }
    }
  }

  /** In an index split at r (expired before, alive after) the alive records are the suffix. */
  lemma {:induction false} LaterSplit<E>(c: seq<Timed<E>>, r: int, now: int)
    requires 0 <= r <= |c|
    requires forall i :: 0 <= i < r ==> c[i].key <= now
    requires forall i :: r <= i < |c| ==> c[i].key > now
    ensures Later(c, now) == c[r..]
  {
    if |c| > 0 {
      if r > 0 {
        LaterSplit(c[1..], r - 1, now);
        assert c[1..][r - 1..] == c[r..];
      } else {
        LaterSplit(c[1..], 0, now);
        assert c == [c[0]] + c[1..];
      }
    }
  }

  lemma {:induction false} LaterTimedOf<K, V>(s: seq<Node<K, V>>, now: int)
    ensures Later(TimedOf(s), now) == TimedOf(Unexpired(s, now))
  {
    if |s| > 0 {
      LaterTimedOf(s[1..], now);
      assert TimedOf(s)[1..] == TimedOf(s[1..]);
      var head := if s[0].expired > now then [s[0]] else [];
      assert TimedOf(head + Unexpired(s[1..], now)) == TimedOf(head) + TimedOf(Unexpired(s[1..], now));
    }
  }

  /** The entries of the first r records of the index. */
  ghost function Gone<E>(c: seq<Timed<E>>, r: int): set<E>
    requires 0 <= r <= |c|
  {
    set k | 0 <= k < r :: c[k].value
  }

  /** With the index a permutation of the nodes' records, split at r, a
      node's entry is among the first r records exactly when it has expired. */
  lemma {:induction false} GoneIffExpired<K, V>(s: seq<Node<K, V>>, c: seq<Timed<Entry<K, V>>>, r: int, now: int)
    requires multiset(c) == multiset(TimedOf(s)) && DistinctNodes(s)
    requires 0 <= r <= |c|
    requires forall i :: 0 <= i < r ==> c[i].key <= now
    requires forall i :: r <= i < |c| ==> c[i].key > now
    ensures forall i :: 0 <= i < |s| ==> (s[i].entry in Gone(c, r) <==> s[i].expired <= now)
  {
    var t := TimedOf(s);
    forall i | 0 <= i < |s|
      ensures s[i].entry in Gone(c, r) <==> s[i].expired <= now
    {
      if s[i].entry in Gone(c, r) {
        var k :| 0 <= k < r && c[k].value == s[i].entry;
        assert c[k] in multiset(t);
        var x :| 0 <= x < |t| && t[x] == c[k];
        assert s[x].entry == s[i].entry;
      }
      if s[i].expired <= now {
        assert t[i] in multiset(c);
        var k :| 0 <= k < |c| && c[k] == t[i];
        assert c[k].value == s[i].entry;
      }
    }
  }

  lemma {:induction false} KeepUnexpired<K, V>(s: seq<Node<K, V>>, gone: set<Entry<K, V>>, now: int)
    requires forall i :: 0 <= i < |s| ==> (s[i].entry in gone <==> s[i].expired <= now)
    ensures Keep(s, gone) == Unexpired(s, now)
  {
    if |s| > 0 {
      assert forall i :: 0 <= i < |s| - 1 ==> s[1..][i] == s[i + 1];
      KeepUnexpired(s[1..], gone, now);
    }
  }

  lemma {:induction false} KeepSubset<K, V>(s: seq<Node<K, V>>, gone: set<Entry<K, V>>)
    ensures forall x :: x in Keep(s, gone) ==> x in s && x.entry !in gone
  {
    if |s| > 0 {
      KeepSubset(s[1..], gone);
    }
  }

  lemma {:induction false} KeepMember<K, V>(s: seq<Node<K, V>>, gone: set<Entry<K, V>>, x: Node<K, V>)
    requires x in s && x.entry !in gone
    ensures x in Keep(s, gone)
  {
    if s[0] != x {
      KeepMember(s[1..], gone, x);
    }
  }

  /** Dropping the first node keeps the entries distinct. */
  lemma DistinctTail<K, V>(s: seq<Node<K, V>>)
    requires |s| > 0 && DistinctNodes(s)
    ensures DistinctNodes(s[1..]) && forall i :: 0 <= i < |s| - 1 ==> s[1..][i].entry != s[0].entry
  {
    forall a, b | 0 <= a < b < |s| - 1 ensures s[1..][a].entry != s[1..][b].entry {
      assert s[1..][a] == s[a + 1] && s[1..][b] == s[b + 1];
    }
    forall i | 0 <= i < |s| - 1 ensures s[1..][i].entry != s[0].entry {
      assert s[1..][i] == s[i + 1];
    }
  }

  /** Adding one more gone entry, found at j of what is kept, drops exactly that node. */
  lemma {:induction false} KeepStep<K, V>(s: seq<Node<K, V>>, gone: set<Entry<K, V>>, j: int)
    requires DistinctNodes(s) && 0 <= j < |Keep(s, gone)|
    ensures Keep(s, gone + {Keep(s, gone)[j].entry}) == Keep(s, gone)[..j] + Keep(s, gone)[j + 1..]
    decreases |s|
  {
    var kept := Keep(s, gone);
    var e := kept[j].entry;
    var rest := Keep(s[1..], gone);
    DistinctTail(s);
    if s[0].entry in gone {
      assert kept == rest;
      KeepStep(s[1..], gone, j);
    } else {
      assert kept == [s[0]] + rest;
      if j == 0 {
        KeepAll(s[1..], gone, e);
        assert kept[..j] + kept[j + 1..] == rest;
      } else {
        assert rest[j - 1] == kept[j];
        KeepSubset(s[1..], gone);
        assert rest[j - 1] in s[1..];
        KeepStep(s[1..], gone, j - 1);
        assert kept[..j] + kept[j + 1..] == [s[0]] + (rest[..j - 1] + rest[j..]);
      }
    }
  }

  /** An entry held by no node drops nothing more. */
  lemma {:induction false} KeepAll<K, V>(s: seq<Node<K, V>>, gone: set<Entry<K, V>>, e: Entry<K, V>)
    requires forall i :: 0 <= i < |s| ==> s[i].entry != e
    ensures Keep(s, gone + {e}) == Keep(s, gone)
  {
    if |s| > 0 {
      KeepAll(s[1..], gone, e);
    }
  }

  /** One round of the trim loop: the i-th index record names a node still
      kept, and dropping it is what removing that node does. */
  lemma {:induction false} TrimStep<K, V>(n0: seq<Node<K, V>>, c: seq<Timed<Entry<K, V>>>, i: int) returns (j: int)
    requires multiset(c) == multiset(TimedOf(n0)) && DistinctNodes(n0)
    requires 0 <= i < |c|
    ensures 0 <= j < |Keep(n0, Gone(c, i))| && Keep(n0, Gone(c, i))[j].entry == c[i].value
    ensures Keep(n0, Gone(c, i + 1)) == Keep(n0, Gone(c, i))[..j] + Keep(n0, Gone(c, i))[j + 1..]
  {
    var kept := Keep(n0, Gone(c, i));
    DistinctValues(c, TimedOf(n0));
    assert c[i] in multiset(TimedOf(n0));
    var x :| 0 <= x < |n0| && TimedOf(n0)[x] == c[i];
    assert n0[x].entry !in Gone(c, i);
    KeepMember(n0, Gone(c, i), n0[x]);
    j :| 0 <= j < |kept| && kept[j] == n0[x];
    assert Gone(c, i + 1) == Gone(c, i) + {c[i].value};
    KeepStep(n0, Gone(c, i), j);
  }

  lemma {:induction false} KeepNone<K, V>(s: seq<Node<K, V>>)
    ensures Keep(s, {}) == s
  {
    if |s| > 0 {
      KeepNone(s[1..]);
      assert s == [s[0]] + s[1..];
    }
  }

  /** With nothing expired, trimming keeps every node. */
  lemma {:induction false} UnexpiredAll<K, V>(s: seq<Node<K, V>>, now: int)
    requires forall i :: 0 <= i < |s| ==> s[i].expired > now
    ensures Unexpired(s, now) == s
  {
    if |s| > 0 {
      assert forall i :: 0 <= i < |s| - 1 ==> s[1..][i] == s[i + 1];
      UnexpiredAll(s[1..], now);
    }
  }

  /** Removing the j-th node and its key keeps the table in step. */
  lemma {:induction false} TabledRemove<K, V>(table: map<K, Entry<K, V>>, s: seq<Node<K, V>>, j: int)
    requires Tabled(table, s) && DistinctNodes(s) && 0 <= j < |s|
    ensures Tabled(table - {s[j].key}, s[..j] + s[j + 1..])
  {
    var rest := s[..j] + s[j + 1..];
    var t := table - {s[j].key};
    forall i | 0 <= i < |rest|
      ensures rest[i].key in t && t[rest[i].key] == rest[i].entry
    {
      var k := if i < j then i else i + 1;
      assert rest[i] == s[k];
      assert table[s[k].key] == s[k].entry;
    }
    forall k | k in t
      ensures k in KeySet(rest)
    {
      var i :| 0 <= i < |s| && s[i].key == k;
      assert i != j;
      if i < j {
        assert rest[i] == s[i];
      } else {
        assert rest[i - 1] == s[i];
      }
    }
  }

  /** What trimToTimeout relies on: with the index v a permutation of the
      nodes' records, split at r by expiry, the records of v's first r cells
      hold distinct entries, dropping their nodes leaves exactly the
      unexpired ones, and the cells left after marking the first r deleted
      record exactly those. */
  lemma {:induction false} TrimOutcome<K, V>(n0: seq<Node<K, V>>, v: seq<Cell<Entry<K, V>>>, r: int, now: int)
    requires NoDeleted(v) && NoEmpty(v) && multiset(Records(v)) == multiset(TimedOf(n0)) && DistinctNodes(n0)
    requires 0 <= r <= |Records(v)|
    requires forall i :: 0 <= i < r ==> Records(v)[i].key <= now
    requires forall i :: r <= i < |Records(v)| ==> Records(v)[i].key > now
    ensures Keep(n0, Gone(Records(v), r)) == Unexpired(n0, now)
    ensures Keep(n0, Gone(Records(v), 0)) == n0
    ensures r == 0 ==> Unexpired(n0, now) == n0
    ensures r <= |v| && multiset(Records(MarkRange(v, 0, r))) == multiset(TimedOf(Unexpired(n0, now)))
  {
    var c := Records(v);
    RecordsClean(v);
    GoneIffExpired(n0, c, r, now);
    KeepUnexpired(n0, Gone(c, r), now);
    assert Gone(c, 0) == {};
    KeepNone(n0);
    MarkPrefixRecords(v, r);
    LaterSplit(c, r, now);
    LaterMultiset(c, TimedOf(n0), now);
    LaterTimedOf(n0, now);
  }

  // ---- get, put and remove on the content ----

  /** No two nodes hold the same key. */
  ghost predicate DistinctKeys<K, V>(s: seq<Node<K, V>>) {
    forall i, j :: 0 <= i < j < |s| ==> s[i].key != s[j].key
  }

  /** The node at i moved to the front, the rest in order: frontEntry. */
  function MoveToFront<K, V>(s: seq<Node<K, V>>, i: int): (r: seq<Node<K, V>>)
    requires 0 <= i < |s|
    ensures |r| == |s| && r[0] == s[i] && multiset(r) == multiset(s)
  {
    assert s == s[..i] + [s[i]] + s[i + 1..];
    [s[i]] + s[..i] + s[i + 1..]
  }

  /** A table in step with the nodes maps one key to one node only. */
  lemma TabledDistinctKeys<K, V>(table: map<K, Entry<K, V>>, s: seq<Node<K, V>>)
    requires Tabled(table, s) && DistinctNodes(s)
    ensures DistinctKeys(s)
  {
  }

  /** With distinct keys, each node is the one found for its key. */
  lemma {:induction false} FindAt<K, V>(s: seq<Node<K, V>>, i: int)
    requires DistinctKeys(s) && 0 <= i < |s|
    ensures Find(s, s[i].key) == Some(i)
  {
    if i > 0 {
      assert s[1..][i - 1] == s[i];
      assert DistinctKeys(s[1..]) by {
        forall a, b | 0 <= a < b < |s| - 1 ensures s[1..][a].key != s[1..][b].key {
          assert s[1..][a] == s[a + 1] && s[1..][b] == s[b + 1];
        }
      }
      FindAt(s[1..], i - 1);
    }
  }

  /** Removing the node at i of distinct-keyed nodes. */
  lemma {:induction false} RemoveAtKeys<K, V>(s: seq<Node<K, V>>, i: int)
    requires DistinctKeys(s) && 0 <= i < |s|
    ensures DistinctKeys(s[..i] + s[i + 1..])
    ensures KeySet(s[..i] + s[i + 1..]) == KeySet(s) - {s[i].key}
  {
    var r := s[..i] + s[i + 1..];
    forall a, b | 0 <= a < b < |r| ensures r[a].key != r[b].key {
      var ka := if a < i then a else a + 1;
      var kb := if b < i then b else b + 1;
      assert r[a] == s[ka] && r[b] == s[kb];
    }
    forall k | k in KeySet(s) - {s[i].key} ensures k in KeySet(r) {
      var x :| 0 <= x < |s| && s[x].key == k;
      if x < i { assert r[x] == s[x]; } else { assert r[x - 1] == s[x]; }
    }
    forall k | k in KeySet(r) ensures k in KeySet(s) - {s[i].key} {
      var x :| 0 <= x < |r| && r[x].key == k;
      var kx := if x < i then x else x + 1;
      assert r[x] == s[kx];
    }
  }

  /** After remove(key) the key is gone and every other key reads as before;
      the keys stay distinct. */
  lemma WithoutKeyValues<K, V>(s: seq<Node<K, V>>, key: K, k: K)
    requires DistinctKeys(s)
    ensures DistinctKeys(WithoutKey(s, key))
    ensures ValueOf(WithoutKey(s, key), k) == if k == key then None else ValueOf(s, k)
  {
    var f := Find(s, key);
    if f.Some? {
      var i := f.value;
      var r := s[..i] + s[i + 1..];
      RemoveAtKeys(s, i);
      var g := Find(s, k);
      if k != key && g.Some? {
        var x := g.value;
        var y := if x < i then x else x - 1;
        assert x != i;
        assert r[y] == s[x];
        FindAt(r, y);
      }
    }
  }

  /** Moving a node to the front changes no lookup and keeps keys distinct. */
  lemma MoveToFrontValues<K, V>(s: seq<Node<K, V>>, i: int, k: K)
    requires DistinctKeys(s) && 0 <= i < |s|
    ensures DistinctKeys(MoveToFront(s, i))
    ensures ValueOf(MoveToFront(s, i), k) == ValueOf(s, k)
  {
    var r := MoveToFront(s, i);
    var pos := (x: int) requires 0 <= x < |s| => if x == i then 0 else if x < i then x + 1 else x;
    forall x | 0 <= x < |s| ensures r[pos(x)] == s[x] { }
    forall a, b | 0 <= a < b < |r| ensures r[a].key != r[b].key {
      var ka := if a == 0 then i else if a <= i then a - 1 else a;
      var kb := if b == 0 then i else if b <= i then b - 1 else b;
      assert r[a] == s[ka] && r[b] == s[kb];
    }
    var g := Find(s, k);
    if g.Some? {
      FindAt(r, pos(g.value));
    } else {
      forall x | 0 <= x < |r| ensures r[x].key != k {
        var kx := if x == 0 then i else if x <= i then x - 1 else x;
        assert r[x] == s[kx];
      }
    }
  }

  /** With distinct keys, the nodes after the first do not hold its key. */
  lemma DistinctKeysTail<K, V>(s: seq<Node<K, V>>)
    requires DistinctKeys(s) && |s| > 0
    ensures DistinctKeys(s[1..]) && s[0].key !in KeySet(s[1..])
  {
    var t := s[1..];
    forall a, b | 0 <= a < b < |t| ensures t[a].key != t[b].key {
      assert t[a] == s[a + 1] && t[b] == s[b + 1];
    }
    forall x | 0 <= x < |t| ensures t[x].key != s[0].key {
      assert t[x] == s[x + 1];
    }
  }

  /** put's new node in front of nodes without its key: the key reads as
      the new value, every other key as before, and keys stay distinct. */
  lemma PushKeys<K, V>(s: seq<Node<K, V>>, n: Node<K, V>, k: K)
    requires DistinctKeys(s) && n.key !in KeySet(s)
    ensures DistinctKeys([n] + s)
    ensures ValueOf([n] + s, k) == if k == n.key then Some(n.value) else ValueOf(s, k)
  {
    var r := [n] + s;
    assert r[1..] == s;
    forall a, b | 0 <= a < b < |r| ensures r[a].key != r[b].key {
      assert r[b] == s[b - 1];
      if a == 0 {
        assert s[b - 1].key in KeySet(s);
      } else {
        assert r[a] == s[a - 1];
      }
    }
  }

  /** Distinct keys: as many keys as nodes. */
  lemma {:induction false} KeySetSize<K, V>(s: seq<Node<K, V>>)
    requires DistinctKeys(s)
    ensures |KeySet(s)| == |s|
  {
    if |s| > 0 {
      DistinctKeysTail(s);
      KeySetSize(s[1..]);
      assert KeySet(s) == {s[0].key} + KeySet(s[1..]) by {
        forall x | x in KeySet(s) ensures x in {s[0].key} + KeySet(s[1..]) {
          var y :| 0 <= y < |s| && s[y].key == x;
          if y > 0 { assert s[1..][y - 1] == s[y]; }
        }
        forall x | x in KeySet(s[1..]) ensures x in KeySet(s) {
          var y :| 0 <= y < |s[1..]| && s[1..][y].key == x;
          assert s[y + 1] == s[1..][y];
        }
      }
    }
  }

  /** mMap.size(): a table in step with distinct-keyed nodes has one key per node. */
  lemma TabledSize<K, V>(table: map<K, Entry<K, V>>, s: seq<Node<K, V>>)
    requires Tabled(table, s) && DistinctKeys(s)
    ensures |table| == |s|
  {
    assert table.Keys == KeySet(s);
    KeySetSize(s);
  }

  /** trimToTimeout keeps the keys distinct. */
  lemma {:induction false} UnexpiredDistinct<K, V>(s: seq<Node<K, V>>, now: int)
    requires DistinctKeys(s)
    ensures DistinctKeys(Unexpired(s, now)) && KeySet(Unexpired(s, now)) <= KeySet(s)
  {
    if |s| > 0 {
      DistinctKeysTail(s);
      UnexpiredDistinct(s[1..], now);
      var u := Unexpired(s[1..], now);
      if s[0].expired > now {
        var r := [s[0]] + u;
        assert Unexpired(s, now) == r;
        forall a, b | 0 <= a < b < |r| ensures r[a].key != r[b].key {
          assert r[b] == u[b - 1] && r[b].key in KeySet(u);
          if a > 0 { assert r[a] == u[a - 1]; }
        }
        forall x | x in KeySet(r) ensures x in KeySet(s) {
          var y :| 0 <= y < |r| && r[y].key == x;
          if y > 0 { assert r[y] == u[y - 1] && x in KeySet(u); }
        }
      } else {
        forall x | x in KeySet(u) ensures x in KeySet(s) {
          var y :| 0 <= y < |s[1..]| && s[1..][y].key == x;
          assert s[y + 1].key == x;
        }
      }
    }
  }

  /** What a lookup reads after trimToTimeout: the node's value while its
      expiry is after now, nothing once it has expired. */
  lemma {:induction false} UnexpiredValues<K, V>(s: seq<Node<K, V>>, now: int, k: K)
    requires DistinctKeys(s)
    ensures ValueOf(Unexpired(s, now), k) ==
      match Find(s, k)
      case Some(i) => if s[i].expired > now then Some(s[i].value) else None
      case None => None
  {
    if |s| > 0 {
      var t := s[1..];
      DistinctKeysTail(s);
      var u := Unexpired(t, now);
      if s[0].key == k {
        if s[0].expired <= now {
          UnexpiredDistinct(t, now);
          assert Unexpired(s, now) == u && k !in KeySet(u);
        }
      } else {
        UnexpiredValues(t, now, k);
        if s[0].expired > now {
          var r := [s[0]] + u;
          assert Unexpired(s, now) == r && r[1..] == u;
          var g := Find(u, k);
          if g.Some? {
            assert r[g.value + 1] == u[g.value];
          }
        } else {
          assert Unexpired(s, now) == u;
        }
        var f := Find(t, k);
        if f.Some? {
          assert Find(s, k) == Some(f.value + 1) && s[f.value + 1] == t[f.value];
        }
      }
    }
  }

  /** trimToTimeout only drops nodes. */
  lemma {:induction false} UnexpiredKeys<K, V>(s: seq<Node<K, V>>, now: int)
    ensures forall x :: x in Unexpired(s, now) ==> x in s
  {
    if |s| > 0 {
      UnexpiredKeys(s[1..], now);
    }
  }

  /** Moving a node to the front keeps the table in step. */
  lemma TabledMove<K, V>(table: map<K, Entry<K, V>>, s: seq<Node<K, V>>, i: int)
    requires Tabled(table, s) && 0 <= i < |s|
    ensures Tabled(table, MoveToFront(s, i))
  {
    var r := MoveToFront(s, i);
    forall x | 0 <= x < |r| ensures r[x].key in table && table[r[x].key] == r[x].entry {
      var kx := if x == 0 then i else if x <= i then x - 1 else x;
      assert r[x] == s[kx];
    }
    forall k | k in table ensures k in KeySet(r) {
      var y :| 0 <= y < |s| && s[y].key == k;
      var p := if y == i then 0 else if y < i then y + 1 else y;
      assert r[p] == s[y];
    }
  }

  /** mMap.put(key, entry) for a new front node n whose key was absent. */
  lemma TabledAdd<K, V>(table: map<K, Entry<K, V>>, s: seq<Node<K, V>>, n: Node<K, V>)
    requires Tabled(table, s) && n.key !in KeySet(s)
    ensures Tabled(table[n.key := n.entry], [n] + s)
  {
    var t := table[n.key := n.entry];
    var r := [n] + s;
    forall x | 0 <= x < |r| ensures r[x].key in t && t[r[x].key] == r[x].entry {
      if x > 0 {
        assert r[x] == s[x - 1] && s[x - 1].key in KeySet(s);
      }
    }
    forall k | k in t ensures k in KeySet(r) {
      if k == n.key {
        assert r[0].key == k;
      } else {
        var y :| 0 <= y < |s| && s[y].key == k;
        assert r[y + 1] == s[y];
      }
    }
  }

  /** Moving a node to the front keeps the records it stands for. */
  lemma TimedOfMove<K, V>(s: seq<Node<K, V>>, i: int)
    requires 0 <= i < |s|
    ensures multiset(TimedOf(MoveToFront(s, i))) == multiset(TimedOf(s))
  {
    var t := TimedOf(s);
    assert TimedOf(MoveToFront(s, i)) == [t[i]] + t[..i] + t[i + 1..];
    assert t == t[..i] + [t[i]] + t[i + 1..];
  }

  /** Taking out the element at k takes one copy of it out of the multiset. */
  lemma MultisetRemove<T>(s: seq<T>, k: int)
    requires 0 <= k < |s|
    ensures multiset(s[..k] + s[k + 1..]) == multiset(s) - multiset{s[k]}
  {
    assert s == s[..k] + [s[k]] + s[k + 1..];
  }

  /** Removing the j-th node removes its record. */
  lemma TimedOfRemove<K, V>(s: seq<Node<K, V>>, j: int)
    requires 0 <= j < |s|
    ensures multiset(TimedOf(s[..j] + s[j + 1..])) == multiset(TimedOf(s)) - multiset{Timed(s[j].expired, s[j].entry)}
  {
    var t := TimedOf(s);
    assert TimedOf(s[..j] + s[j + 1..]) == t[..j] + t[j + 1..];
    MultisetRemove(t, j);
  }

  /** One more copy of t, somewhere in the sequence. */
  lemma InsertedMultiset<T>(c: seq<T>, d: seq<T>, t: T)
    requires InsertedOnce(c, d, t)
    ensures multiset(d) == multiset(c) + multiset{t}
  {
    var i :| 0 <= i <= |c| && d == c[..i] + [t] + c[i..];
    assert c == c[..i] + c[i..];
  }

  /** mTimeoutMap.put(entry.expired, entry) for n, the new front node: the
      index then holds the records of n and of nodes. */
  method Reindex<K, V>(tm: DuplicateJLMap<Entry<K, V>>, entry: Entry<K, V>, n: Node<K, V>, ghost nodes: seq<Node<K, V>>)
    requires tm.Valid() && multiset(tm.Content()) == multiset(TimedOf(nodes))
    requires n.entry == entry
    modifies tm.Repr
    ensures tm.Valid() && fresh(tm.Repr - old(tm.Repr))
    ensures multiset(tm.Content()) == multiset(TimedOf([n] + nodes))
  {
    ghost var c := tm.Content();
    tm.Put(n.expired, entry);
    IndexedPush(c, tm.Content(), n, nodes);
  }

  /** Inserting n's record into an index of nodes gives an index of n and
      nodes. */
  lemma IndexedPush<K, V>(c: seq<Timed<Entry<K, V>>>, d: seq<Timed<Entry<K, V>>>, n: Node<K, V>, nodes: seq<Node<K, V>>)
    requires multiset(c) == multiset(TimedOf(nodes)) && InsertedOnce(c, d, Timed(n.expired, n.entry))
    ensures multiset(d) == multiset(TimedOf([n] + nodes))
  {
    InsertedMultiset(c, d, Timed(n.expired, n.entry));
    assert TimedOf([n] + nodes) == [Timed(n.expired, n.entry)] + TimedOf(nodes);
  }

  /** A valid index's footprint is the index and its two arrays: no entry
      is in it. */
  lemma OutsideIndex<K, V>(tm: DuplicateJLMap<Entry<K, V>>, nodes: seq<Node<K, V>>)
    requires tm.Valid()
    ensures forall i :: 0 <= i < |nodes| ==> nodes[i].entry !in tm.Repr
  {
  }

  /** tm is a valid timeout index, without pending garbage, holding c. */
  ghost predicate IndexHolds<K, V>(tm: DuplicateJLMap?<Entry<K, V>>, c: seq<Timed<Entry<K, V>>>)
    reads tm, if tm != null then tm.Repr else {}
  {
    tm != null && tm.Valid() && !tm.garbage && tm.Content() == c
  }

  /** mTimeoutMap.delete(entry.expired, entry) for the j-th of nodes, whose
      records tm holds: the index then holds the records of the others. */
  method Unindex<K, V>(tm: DuplicateJLMap<Entry<K, V>>, entry: Entry<K, V>, ghost nodes: seq<Node<K, V>>, ghost j: int)
    requires tm.Valid() && multiset(tm.Content()) == multiset(TimedOf(nodes))
    requires 0 <= j < |nodes| && nodes[j].entry == entry && nodes[j].expired == entry.expired
    modifies tm.Repr
    ensures tm.Valid() && tm.Repr == old(tm.Repr)
    ensures multiset(tm.Content()) == multiset(TimedOf(nodes[..j] + nodes[j + 1..]))
  {
    ghost var c := tm.Content();
    assert TimedOf(nodes)[j] == Timed(entry.expired, entry);
    assert Timed(entry.expired, entry) in multiset(c);
    ghost var k := tm.Delete(entry.expired, entry);
    RecordRemoved(c, tm.Content(), k, nodes, j);
  }

  /** The index c held the records of nodes; d is c without its k-th record,
      which stands for the j-th node: d holds the records of the others. */
  lemma RecordRemoved<K, V>(c: seq<Timed<Entry<K, V>>>, d: seq<Timed<Entry<K, V>>>, k: int, nodes: seq<Node<K, V>>, j: int)
    requires multiset(c) == multiset(TimedOf(nodes)) && 0 <= k < |c| && 0 <= j < |nodes|
    requires c[k] == Timed(nodes[j].expired, nodes[j].entry) && d == c[..k] + c[k + 1..]
    ensures multiset(d) == multiset(TimedOf(nodes[..j] + nodes[j + 1..]))
  {
    MultisetRemove(c, k);
    TimedOfRemove(nodes, j);
  }

  /** head and tail are the ends of list, and the links spell list out in
      both directions. */
  ghost predicate LinkedList<K, V>(list: seq<Entry<K, V>>, head: Entry?<K, V>, tail: Entry?<K, V>)
    reads list
  {
    (|list| == 0 ==> head == null && tail == null)
    && (|list| > 0 ==> head == list[0] && tail == list[|list| - 1])
    && (|list| > 0 ==> list[0].previous == null && list[|list| - 1].next == null)
    && (forall i {:trigger list[i].previous} :: 0 < i < |list| ==> list[i].previous == list[i - 1])
    && (forall i {:trigger list[i].next} :: 0 <= i < |list| - 1 ==> list[i].next == list[i + 1])
    && DistinctEntries(list)
  }

  /** The i-th and j-th entries of list are different objects. */
  ghost predicate Apart<K, V>(list: seq<Entry<K, V>>, i: int, j: int)
    requires 0 <= i < |list| && 0 <= j < |list|
  {
    list[i] != list[j]
  }

  /** No entry occurs twice in list. The quantifier fires only on the pairs
      a proof names through Apart. */
  ghost predicate DistinctEntries<K, V>(list: seq<Entry<K, V>>) {
    forall i, j {:trigger Apart(list, i, j)} :: 0 <= i < j < |list| ==> Apart(list, i, j)
  }

  /** nodes records each entry of list with its key, value and expiry. */
  ghost predicate SnapshotOf<K, V>(list: seq<Entry<K, V>>, nodes: seq<Node<K, V>>)
    reads list`key, list`value, list`expired
  {
    |nodes| == |list|
    && forall i :: 0 <= i < |list| ==>
      nodes[i] == Node(list[i], list[i].key, list[i].value, list[i].expired)
  }

  lemma {:induction false} SnapshotRemove<K, V>(list: seq<Entry<K, V>>, nodes: seq<Node<K, V>>, j: int)
    requires SnapshotOf(list, nodes) && 0 <= j < |list|
    ensures SnapshotOf(list[..j] + list[j + 1..], nodes[..j] + nodes[j + 1..])
  {
    var rest, restNodes := list[..j] + list[j + 1..], nodes[..j] + nodes[j + 1..];
    forall i | 0 <= i < |rest|
      ensures restNodes[i] == Node(rest[i], rest[i].key, rest[i].value, rest[i].expired)
    {
      var k := if i < j then i else i + 1;
      assert rest[i] == list[k] && restNodes[i] == nodes[k];
    }
  }

  /** Distinct entries in the list make distinct entries in its snapshot. */
  lemma SnapshotDistinct<K, V>(list: seq<Entry<K, V>>, nodes: seq<Node<K, V>>)
    requires SnapshotOf(list, nodes) && DistinctEntries(list)
    ensures DistinctNodes(nodes)
  {
    forall i, j | 0 <= i < j < |nodes| ensures nodes[i].entry != nodes[j].entry {
      assert Apart(list, i, j) && nodes[i].entry == list[i] && nodes[j].entry == list[j];
    }
  }

  /** In a list without repeats, an entry sits at one index only. */
  lemma SameIndex<K, V>(list: seq<Entry<K, V>>, i: int, j: int)
    requires DistinctEntries(list) && 0 <= i < |list| && 0 <= j < |list| && list[i] == list[j]
    ensures i == j
  {
    assert i < j ==> Apart(list, i, j);
    assert j < i ==> Apart(list, j, i);
  }

  /** The entry at j, its neighbours and the ends of the list are told
      apart by index; any entry away from j is none of those three. */
  lemma Neighbours<K, V>(list: seq<Entry<K, V>>, j: int)
    requires DistinctEntries(list) && 0 <= j < |list|
    ensures j > 0 ==> list[j - 1] != list[j] && list[0] != list[j]
    ensures j < |list| - 1 ==> list[j] != list[j + 1] && list[j] != list[|list| - 1]
    ensures 0 < j < |list| - 1 ==> list[j - 1] != list[j + 1]
    ensures forall k :: 0 <= k < |list| && k != j - 1 && k != j && k != j + 1 ==>
      list[k] != list[j] && (j > 0 ==> list[k] != list[j - 1]) && (j < |list| - 1 ==> list[k] != list[j + 1])
  {
    assert j > 0 ==> Apart(list, j - 1, j) && Apart(list, 0, j);
    assert j < |list| - 1 ==> Apart(list, j, j + 1) && Apart(list, j, |list| - 1);
    assert 0 < j < |list| - 1 ==> Apart(list, j - 1, j + 1);
    forall k | 0 <= k < |list| && k != j - 1 && k != j && k != j + 1
      ensures list[k] != list[j] && (j > 0 ==> list[k] != list[j - 1]) && (j < |list| - 1 ==> list[k] != list[j + 1])
    {
      SameIndexNot(list, k, j);
    }
  }

  /** Around index j, an entry at any other index k is none of the three. */
  lemma SameIndexNot<K, V>(list: seq<Entry<K, V>>, k: int, j: int)
    requires DistinctEntries(list) && 0 <= k < |list| && 0 <= j < |list|
    requires k != j - 1 && k != j && k != j + 1
    ensures list[k] != list[j]
    ensures j > 0 ==> list[k] != list[j - 1]
    ensures j < |list| - 1 ==> list[k] != list[j + 1]
  {
    if list[k] == list[j] { SameIndex(list, k, j); }
    if j > 0 && list[k] == list[j - 1] { SameIndex(list, k, j - 1); }
    if j < |list| - 1 && list[k] == list[j + 1] { SameIndex(list, k, j + 1); }
  }

  /** In a list without repeats, the j-th entry is gone once it is removed. */
  lemma RemovedAbsent<K, V>(list: seq<Entry<K, V>>, j: int)
    requires DistinctEntries(list) && 0 <= j < |list|
    ensures list[j] !in list[..j] + list[j + 1..]
  {
    var rest := list[..j] + list[j + 1..];
    forall i | 0 <= i < |rest| ensures rest[i] != list[j] {
      if i < j {
        assert Apart(list, i, j) && rest[i] == list[i];
      } else {
        assert Apart(list, j, i + 1) && rest[i] == list[i + 1];
      }
    }
  }

  lemma {:induction false} DistinctRemove<K, V>(list: seq<Entry<K, V>>, j: int)
    requires DistinctEntries(list) && 0 <= j < |list|
    ensures DistinctEntries(list[..j] + list[j + 1..])
  {
    var rest := list[..j] + list[j + 1..];
    forall a, b | 0 <= a < b < |rest|
      ensures Apart(rest, a, b)
    {
      var ka := if a < j then a else a + 1;
      var kb := if b < j then b else b + 1;
      assert Apart(list, ka, kb) && rest[a] == list[ka] && rest[b] == list[kb];
    }
  }

  /** The first half of unlinking entry: its neighbours previous and next are
      joined to each other and its own links cleared. */
  method Unlink<K, V>(entry: Entry<K, V>, previous: Entry?<K, V>, next: Entry?<K, V>)
    requires previous == entry.previous && next == entry.next
    requires previous != entry && next != entry && (previous != null ==> previous != next)
    modifies entry, previous, next
    ensures entry.previous == null && entry.next == null
    ensures previous != null ==> previous.next == next && previous.previous == old(previous.previous)
    ensures next != null ==> next.previous == previous && next.next == old(next.next)
    ensures entry.key == old(entry.key) && entry.value == old(entry.value) && entry.expired == old(entry.expired)
    ensures previous != null ==> previous.key == old(previous.key) && previous.value == old(previous.value) && previous.expired == old(previous.expired)
    ensures next != null ==> next.key == old(next.key) && next.value == old(next.value) && next.expired == old(next.expired)
  {
    if previous != null {
      previous.next := next;
    }
    if next != null {
      next.previous := previous;
    }
    entry.previous := null;
    entry.next := null;
  }

  /** Unlinks the j-th entry of a well-linked list: what remains is again a
      well-linked list, whose ends move off the entry if it was one of them,
      and no entry's key, value or expiry changes. */
  method Splice<K, V>(entry: Entry<K, V>, ghost list: seq<Entry<K, V>>, ghost j: int, ghost nodes: seq<Node<K, V>>)
    requires 0 <= j < |list| && list[j] == entry
    requires LinkedList(list, list[0], list[|list| - 1]) && SnapshotOf(list, nodes)
    modifies entry, entry.previous, entry.next
    ensures LinkedList(list[..j] + list[j + 1..],
                       if j == 0 then old(list[j].next) else list[0],
                       if j == |list| - 1 then old(list[j].previous) else list[|list| - 1])
    ensures SnapshotOf(list, nodes)
    ensures list[j].previous == null && list[j].next == null
  {
    var previous := entry.previous;
    var next := entry.next;
    assert previous == if j == 0 then null else list[j - 1];
    assert next == if j == |list| - 1 then null else list[j + 1];
    Neighbours(list, j);
    DistinctRemove(list, j);
    Unlink(entry, previous, next);
    ghost var rest := list[..j] + list[j + 1..];
    forall i | 0 < i < |rest|
      ensures rest[i].previous == rest[i - 1] && rest[i - 1].next == rest[i]
    {
      if i < j {
        assert rest[i] == list[i] && rest[i - 1] == list[i - 1];
      } else if i == j {
        assert rest[i] == list[i + 1] && rest[i - 1] == list[i - 1];
      } else {
        assert rest[i] == list[i + 1] && rest[i - 1] == list[i];
      }
    }
    assert |rest| > 0 ==> rest[0].previous == null && rest[|rest| - 1].next == null;
    forall i | 0 <= i < |list|
      ensures nodes[i] == Node(list[i], list[i].key, list[i].value, list[i].expired)
    {
      assert nodes[i] == old(Node(list[i], list[i].key, list[i].value, list[i].expired));
    }
  }

  /** put's entry.key = key, entry.value = value and (with a timeout)
      entry.expired = now + timeout; the links are left alone. */
  method Fill<K, V>(entry: Entry<K, V>, key: K, value: V, expired: int)
    modifies entry
    ensures entry.key == key && entry.value == value && entry.expired == expired
    ensures entry.previous == old(entry.previous) && entry.next == old(entry.next)
  {
    entry.key, entry.value, entry.expired := key, value, expired;
  }

  class LruMap<K(==), V> {
    /** mMap */
    var table: map<K, Entry<K, V>>
    /** mTimeoutMap: expiry times to entries; null without a timeout. */
    var timeoutMap: DuplicateJLMap?<Entry<K, V>>
    var head: Entry?<K, V>
    var tail: Entry?<K, V>
    const timeout: int
    const supportTimeout: bool
    /** The entries from head to tail. */
    ghost var List: seq<Entry<K, V>>
    /** What List's entries hold, in the same order: the map's content. */
    ghost var Nodes: seq<Node<K, V>>
    ghost var Repr: set<object>

    /** The class invariant: the links spell out List, the table maps each
        key to its entry, and the timeout index holds exactly one record
        (expiry, entry) per entry. */
    ghost predicate Valid()
      reads this, Repr
    {
      this in Repr
      && (forall i :: 0 <= i < |List| ==> List[i] in Repr)
      && Linked() && SnapshotOf(List, Nodes)
      && Tabled(table, Nodes)
      && supportTimeout == (timeout > 0)
      && (supportTimeout <==> timeoutMap != null)
      && (timeoutMap != null ==>
            timeoutMap in Repr && timeoutMap.Repr <= Repr && this !in timeoutMap.Repr
            && (forall i :: 0 <= i < |List| ==> List[i] !in timeoutMap.Repr)
            && timeoutMap.Valid()
            && multiset(timeoutMap.Content()) == multiset(TimedOf(Nodes)))
    }

    /** The content the next operation sees once trimToTimeout has run. */
    ghost function Trimmed(s: seq<Node<K, V>>, now: int): seq<Node<K, V>> {
      if supportTimeout then Unexpired(s, now) else s
    }

    /** LruMap(timeout): empty; a timeout index only for a positive timeout. */
    constructor (timeout: int)
      ensures Valid() && fresh(Repr)
      ensures this.timeout == timeout && supportTimeout == (timeout > 0)
      ensures Nodes == []
    {
      table := map[];
      this.timeout := timeout;
      supportTimeout := timeout > 0;
      head := null;
      tail := null;
      List := [];
      Nodes := [];
      new;
      if timeout > 0 {
        timeoutMap := new DuplicateJLMap();
        Repr := {this} + timeoutMap.Repr;
      } else {
        timeoutMap := null;
        Repr := {this};
      }
    }

    /** mTimeoutMap.valueAt(i) on a collected index: nothing moves. */
    /** What holds after the loop of trimToTimeout has dropped the entries of
        the first i index records c: the list and the table hold exactly the
        nodes of n0 whose entries are not among those i records. */
    ghost predicate TrimmingAt(i: int, n0: seq<Node<K, V>>, c: seq<Timed<Entry<K, V>>>, E: set<object>)
      reads this, List
    {
      && 0 <= i <= |c|
      && multiset(c) == multiset(TimedOf(n0)) && DistinctNodes(n0)
      && (forall k :: 0 <= k < |List| ==> List[k] in E)
      && Linked() && SnapshotOf(List, Nodes) && Tabled(table, Nodes)
      && Nodes == Keep(n0, Gone(c, i))
    }

    /** One round of the loop of trimToTimeout: entry, the value of the i-th
        index record, leaves the list and the table. */
    method TrimNext(entry: Entry<K, V>, i: int, ghost n0: seq<Node<K, V>>, ghost c: seq<Timed<Entry<K, V>>>, ghost E: set<object>)
      requires TrimmingAt(i, n0, c, E) && i < |c| && entry == c[i].value
      modifies this, E
      ensures TrimmingAt(i + 1, n0, c, E) && timeoutMap == old(timeoutMap) && Repr == old(Repr)
    {
      ghost var j := TrimStep(n0, c, i);
      SnapshotDistinct(List, Nodes);
      TabledRemove(table, Nodes, j);
      // removeEntry and the map removal touch disjoint state; the table is
      // updated first so that the list facts RemoveEntry ensures stay current.
      table := table - {entry.key};
      RemoveEntry(entry, j);
    }

    /** The loop of trimToTimeout: the entries of the first removeSize index
        records leave the list and the table; the index is left as it is. */
    method RemoveExpired(removeSize: int, ghost n0: seq<Node<K, V>>, ghost c: seq<Timed<Entry<K, V>>>, ghost E: set<object>)
      requires IndexHolds(timeoutMap, c) && this !in timeoutMap.Repr && E !! timeoutMap.Repr
      requires TrimmingAt(0, n0, c, E) && 0 <= removeSize <= |c|
      modifies this, E
      ensures IndexHolds(timeoutMap, c) && timeoutMap == old(timeoutMap) && Repr == old(Repr)
      ensures timeoutMap.Repr == old(timeoutMap.Repr) && timeoutMap.View() == old(timeoutMap.View())
      ensures TrimmingAt(removeSize, n0, c, E)
    {
      var i := 0;
      while i < removeSize
        invariant 0 <= i <= removeSize
        invariant IndexHolds(timeoutMap, c) && timeoutMap == old(timeoutMap) && Repr == old(Repr)
        invariant TrimmingAt(i, n0, c, E)
      {
        var entry := timeoutMap.Peek(i);
        TrimNext(entry, i, n0, c, E);
        i := i + 1;
      }
      assert i == removeSize;
    }

    /** trimToTimeout: every entry whose expiry is not after now leaves the
        list, the table and the timeout index; the rest keep their order. */
    method TrimToTimeout(now: int)
      requires Valid()
      modifies Repr
      ensures Valid() && Repr == old(Repr)
      ensures Nodes == Trimmed(old(Nodes), now)
    {
      if !supportTimeout {
        return;
      }
      ghost var n0 := Nodes;
      ghost var E := Repr - timeoutMap.Repr;
      assert forall k :: 0 <= k < |List| ==> List[k] in E;
      var removeSize := timeoutMap.GetRemoveSize(now);
      ghost var v := timeoutMap.View();
      SnapshotDistinct(List, Nodes);
      TrimOutcome(n0, v, removeSize, now);
      if removeSize <= 0 {
        return;
      }
      RemoveExpired(removeSize, n0, Records(v), E);
      FinishTrim(removeSize, n0, v, now, E);
    }

    /** The last step of trimToTimeout: the first removeSize index records,
        whose entries have left the list, are marked deleted. */
    method FinishTrim(removeSize: int, ghost n0: seq<Node<K, V>>, ghost v: seq<Cell<Entry<K, V>>>, ghost now: int, ghost E: set<object>)
      requires IndexHolds(timeoutMap, Records(v)) && timeoutMap.View() == v
      requires this in Repr && timeoutMap in Repr && timeoutMap.Repr <= Repr && this !in timeoutMap.Repr
      requires E == Repr - timeoutMap.Repr && supportTimeout == (timeout > 0) && supportTimeout
      requires TrimmingAt(removeSize, n0, Records(v), E) && removeSize <= |v|
      requires Nodes == Unexpired(n0, now)
      requires multiset(Records(MarkRange(v, 0, removeSize))) == multiset(TimedOf(Nodes))
      modifies timeoutMap.Repr
      ensures Valid() && Repr == old(Repr) && Nodes == old(Nodes)
    {
      assert |v| == timeoutMap.size;
      assert forall i :: 0 <= i < |List| ==> List[i] in Repr && List[i] !in timeoutMap.Repr;
      timeoutMap.RemoveAtRange(0, removeSize);
      assert timeoutMap.View() == MarkRange(v, 0, removeSize);
      ValidFromParts();
    }

    /** Valid, conjunct by conjunct, for a map with a timeout index. */
    lemma ValidFromParts()
      requires this in Repr && timeoutMap != null && timeoutMap in Repr && timeoutMap.Repr <= Repr
      requires this !in timeoutMap.Repr && supportTimeout == (timeout > 0) && supportTimeout
      requires forall i :: 0 <= i < |List| ==> List[i] in Repr && List[i] !in timeoutMap.Repr
      requires Linked() && SnapshotOf(List, Nodes) && Tabled(table, Nodes)
      requires timeoutMap.Valid() && multiset(timeoutMap.Content()) == multiset(TimedOf(Nodes))
      ensures Valid()
    {
    }

    /** The head-linking half of put and frontEntry: entry, on no list,
        goes in front of the current head. */
    method PushFront(entry: Entry<K, V>)
      requires Linked() && SnapshotOf(List, Nodes) && head != null
      requires entry !in List && entry.previous == null && entry.next == null
      modifies this, entry, head
      ensures Linked() && List == [entry] + old(List)
      ensures SnapshotOf(List, Nodes) && Nodes == [Node(entry, entry.key, entry.value, entry.expired)] + old(Nodes)
      ensures entry.key == old(entry.key) && entry.value == old(entry.value) && entry.expired == old(entry.expired)
      ensures table == old(table) && timeoutMap == old(timeoutMap) && Repr == old(Repr)
    {
      ghost var list := List;
      List := [entry] + list;
      Nodes := [Node(entry, entry.key, entry.value, entry.expired)] + Nodes;
      head.previous := entry;
      entry.next := head;
      head := entry;
      forall i | 0 < i < |List|
        ensures List[i].previous == List[i - 1] && List[i - 1].next == List[i]
      {
        assert List[i] == list[i - 1];
      }
      assert DistinctEntries(List) by {
        forall a, b | 0 <= a < b < |List| ensures Apart(List, a, b) {
          assert List[b] == list[b - 1];
          if a > 0 { assert Apart(list, a - 1, b - 1) && List[a] == list[a - 1]; }
        }
      }
    }

    /** frontEntry: entry, the j-th of the list, moves to the head. */
    method FrontEntry(entry: Entry<K, V>, ghost j: int)
      requires Linked() && SnapshotOf(List, Nodes) && 0 <= j < |List| && List[j] == entry
      modifies this, List
      ensures Linked() && SnapshotOf(List, Nodes)
      ensures Nodes == MoveToFront(old(Nodes), j)
      ensures table == old(table) && timeoutMap == old(timeoutMap) && Repr == old(Repr)
    {
      if entry == head {
        SameIndex(List, 0, j);
        assert Nodes == MoveToFront(Nodes, 0);
        return;
      }
      assert 0 < j;
      ghost var list := List;
      RemoveEntry(entry, j);
      assert |List| > 0 && head == List[0];
      if head != null {
        assert head in list by {
          assert List[0] == list[if j == 0 then 1 else 0];
        }
        PushFront(entry);
        assert list == list[..j] + [entry] + list[j + 1..];
      } else {
        // Unreachable: entry was not the head, so the list keeps the head.
        assert false;
      }
    }

    /** Valid, after the nodes were reordered by a move to the front. */
    lemma MovedValid(nodes: seq<Node<K, V>>, j: int)
      requires 0 <= j < |nodes| && Nodes == MoveToFront(nodes, j)
      requires this in Repr && Linked() && SnapshotOf(List, Nodes) && Tabled(table, nodes)
      requires supportTimeout == (timeout > 0) && (supportTimeout <==> timeoutMap != null)
      requires forall i :: 0 <= i < |nodes| ==> nodes[i].entry in Repr
      requires timeoutMap != null ==>
        timeoutMap in Repr && timeoutMap.Repr <= Repr && this !in timeoutMap.Repr
        && (forall i :: 0 <= i < |nodes| ==> nodes[i].entry !in timeoutMap.Repr)
        && timeoutMap.Valid() && multiset(timeoutMap.Content()) == multiset(TimedOf(nodes))
      ensures Valid()
    {
      TabledMove(table, nodes, j);
      TimedOfMove(nodes, j);
      forall i | 0 <= i < |List| ensures List[i] in Repr && (timeoutMap != null ==> List[i] !in timeoutMap.Repr) {
        var k := if i == 0 then j else if i <= j then i - 1 else i;
        assert List[i] == Nodes[i].entry && Nodes[i] == nodes[k];
      }
    }

    /** get: after trimToTimeout, a present key's entry moves to the head
        and its value is returned; a missing key returns null. */
    method Get(key: K, now: int) returns (r: Option<V>)
      requires Valid()
      modifies Repr
      ensures Valid() && Repr == old(Repr)
      ensures r == ValueOf(Trimmed(old(Nodes), now), key)
      ensures Nodes == match Find(Trimmed(old(Nodes), now), key)
                       case Some(i) => MoveToFront(Trimmed(old(Nodes), now), i)
                       case None => Trimmed(old(Nodes), now)
    {
      TrimToTimeout(now);
      r := Lookup(key);
    }

    /** The part of get after trimToTimeout: the lookup and the move to the head. */
    method Lookup(key: K) returns (r: Option<V>)
      requires Valid()
      modifies Repr
      ensures Valid() && Repr == old(Repr)
      ensures r == ValueOf(old(Nodes), key)
      ensures Nodes == match Find(old(Nodes), key)
                       case Some(i) => MoveToFront(old(Nodes), i)
                       case None => old(Nodes)
    {
      if key in table {
        var entry := table[key];
        ghost var nodes := Nodes;
        ghost var j := Find(nodes, key).value;
        assert nodes[j].entry == entry == List[j];
        forall i | 0 <= i < |nodes| ensures nodes[i].entry == List[i] { }
        FrontEntry(entry, j);
        MovedValid(nodes, j);
        r := Some(entry.value);
      } else {
        r := None;
      }
    }

    /** entry is out of the list and the timeout index, with its links
        cleared, but still in the footprint. */
    ghost predicate Detached(entry: Entry<K, V>)
      reads this, entry, timeoutMap
    {
      entry in Repr && entry !in List && entry.previous == null && entry.next == null
      && (timeoutMap != null ==> entry !in timeoutMap.Repr)
    }

    /** The common part of put and remove: mMap.remove(key), then unlinking
        the entry found and deleting its record from the timeout index. */
    method DetachKey(key: K) returns (entry: Entry?<K, V>)
      requires Valid()
      modifies Repr
      ensures Valid() && Repr == old(Repr)
      ensures Nodes == WithoutKey(old(Nodes), key)
      ensures entry == null <==> Find(old(Nodes), key).None?
      ensures entry != null ==>
        var i := Find(old(Nodes), key).value;
        Detached(entry) && entry == old(Nodes)[i].entry && entry.key == key
        && entry.value == old(Nodes)[i].value && entry.expired == old(Nodes)[i].expired
    {
      if key !in table {
        return null;
      }
      entry := table[key];
      ghost var nodes := Nodes;
      ghost var j := Find(nodes, key).value;
      assert nodes[j].entry == entry == List[j];
      forall i | 0 <= i < |nodes| ensures nodes[i].entry == List[i] { }
      // The map removal, removeEntry and the index delete touch disjoint
      // state; the index goes first so that the list it is framed against
      // is still the whole list.
      if supportTimeout {
        Unindex(timeoutMap, entry, nodes, j);
      }
      ghost var E := Repr - (if timeoutMap != null then timeoutMap.Repr else {});
      Unlist(entry, j, E);
      DetachedValid(nodes, j);
    }

    /** mMap.remove and removeEntry for entry, the j-th of the list. */
    method Unlist(entry: Entry<K, V>, ghost j: int, ghost E: set<object>)
      requires Linked() && SnapshotOf(List, Nodes) && Tabled(table, Nodes)
      requires 0 <= j < |List| && List[j] == entry && forall k :: 0 <= k < |List| ==> List[k] in E
      modifies this, E
      ensures Linked() && SnapshotOf(List, Nodes) && Tabled(table, Nodes)
      ensures Nodes == old(Nodes)[..j] + old(Nodes)[j + 1..] && entry !in List
      ensures entry.previous == null && entry.next == null
      ensures entry.key == old(entry.key) && entry.value == old(entry.value) && entry.expired == old(entry.expired)
      ensures timeoutMap == old(timeoutMap) && Repr == old(Repr)
    {
      SnapshotDistinct(List, Nodes);
      TabledRemove(table, Nodes, j);
      assert Nodes[j].key == entry.key;
      RemovedAbsent(List, j);
      table := table - {entry.key};
      RemoveEntry(entry, j);
    }

    /** Valid, after the j-th node of nodes was dropped everywhere. */
    lemma DetachedValid(nodes: seq<Node<K, V>>, j: int)
      requires 0 <= j < |nodes| && Nodes == nodes[..j] + nodes[j + 1..]
      requires this in Repr && Linked() && SnapshotOf(List, Nodes) && Tabled(table, Nodes)
      requires supportTimeout == (timeout > 0) && (supportTimeout <==> timeoutMap != null)
      requires forall i :: 0 <= i < |nodes| ==> nodes[i].entry in Repr
      requires timeoutMap != null ==>
        timeoutMap in Repr && timeoutMap.Repr <= Repr && this !in timeoutMap.Repr
        && (forall i :: 0 <= i < |nodes| ==> nodes[i].entry !in timeoutMap.Repr)
        && timeoutMap.Valid() && multiset(timeoutMap.Content()) == multiset(TimedOf(Nodes))
      ensures Valid()
    {
      forall i | 0 <= i < |List| ensures List[i] in Repr && (timeoutMap != null ==> List[i] !in timeoutMap.Repr) {
        var k := if i < j then i else i + 1;
        assert List[i] == Nodes[i].entry && Nodes[i] == nodes[k];
      }
    }

    /** Valid, after n went in front of nodes everywhere. */
    lemma AttachedValid(n: Node<K, V>, nodes: seq<Node<K, V>>)
      requires Nodes == [n] + nodes && n.entry in Repr
      requires this in Repr && Linked() && SnapshotOf(List, Nodes) && Tabled(table, Nodes)
      requires supportTimeout == (timeout > 0) && (supportTimeout <==> timeoutMap != null)
      requires forall i :: 0 <= i < |nodes| ==> nodes[i].entry in Repr
      requires timeoutMap != null ==>
        timeoutMap in Repr && timeoutMap.Repr <= Repr && this !in timeoutMap.Repr
        && n.entry !in timeoutMap.Repr
        && (forall i :: 0 <= i < |nodes| ==> nodes[i].entry !in timeoutMap.Repr)
        && timeoutMap.Valid() && multiset(timeoutMap.Content()) == multiset(TimedOf(Nodes))
      ensures Valid()
    {
      forall i | 0 <= i < |List| ensures List[i] in Repr && (timeoutMap != null ==> List[i] !in timeoutMap.Repr) {
        assert List[i] == Nodes[i].entry;
        if i > 0 {
          assert Nodes[i] == nodes[i - 1];
        }
      }
    }

    /** The linking half of put: entry takes the key, the value and the
        expiry, enters the table under the key and goes to the head of the
        list, and is the tail as well when the list was empty. */
    method LinkFront(entry: Entry<K, V>, key: K, value: V, expired: int, ghost E: set<object>)
      requires Linked() && SnapshotOf(List, Nodes)
      requires entry !in List && entry.previous == null && entry.next == null
      requires entry in E && forall k :: 0 <= k < |List| ==> List[k] in E
      modifies this, E
      ensures Linked() && List == [entry] + old(List)
      ensures SnapshotOf(List, Nodes) && Nodes == [Node(entry, key, value, expired)] + old(Nodes)
      ensures entry.expired == expired
      ensures table == old(table)[key := entry] && timeoutMap == old(timeoutMap) && Repr == old(Repr)
    {
      table := table[key := entry];
      Fill(entry, key, value, expired);
      if head == null {
        assert List == [];
        head, tail := entry, entry;
        List, Nodes := [entry], [Node(entry, key, value, expired)];
      } else {
        PushFront(entry);
      }
    }

    /** The rest of put once the key is absent: entry takes the key, the
        value and, with a timeout, the expiry now + timeout; it goes into the
        timeout index, into the table and to the head of the list. */
    method Attach(entry: Entry<K, V>, key: K, value: V, now: int)
      requires Valid() && key !in KeySet(Nodes)
      requires entry !in List && entry.previous == null && entry.next == null
      requires timeoutMap != null ==> entry !in timeoutMap.Repr
      modifies Repr, entry
      ensures Valid() && timeoutMap == old(timeoutMap)
      ensures entry in Repr && fresh(Repr - old(Repr) - {entry})
      ensures Nodes == [Node(entry, key, value, if supportTimeout then now + timeout else old(entry.expired))] + old(Nodes)
    {
      ghost var nodes := Nodes;
      forall i | 0 <= i < |nodes| ensures nodes[i].entry == List[i] { }
      assert forall i :: 0 <= i < |nodes| ==> nodes[i].entry in Repr;
      var expired := if supportTimeout then now + timeout else entry.expired;
      var n := Node(entry, key, value, expired);
      TabledAdd(table, nodes, n);
      IndexFront(entry, n, nodes);
      LinkAndClose(entry, key, value, expired, n, nodes);
    }

    /** The linking half of put, once the index holds entry's record: entry
        goes to the head and the invariant holds again. */
    method LinkAndClose(entry: Entry<K, V>, key: K, value: V, expired: int, ghost n: Node<K, V>, ghost nodes: seq<Node<K, V>>)
      requires n == Node(entry, key, value, expired) && Nodes == nodes
      requires Linked() && SnapshotOf(List, Nodes) && Tabled(table[key := entry], [n] + nodes)
      requires this in Repr && entry in Repr && entry !in List && entry.previous == null && entry.next == null
      requires forall i :: 0 <= i < |nodes| ==> nodes[i].entry in Repr
      requires supportTimeout == (timeout > 0) && (supportTimeout <==> timeoutMap != null)
      requires timeoutMap != null ==>
        timeoutMap in Repr && timeoutMap.Repr <= Repr && this !in timeoutMap.Repr
        && entry !in timeoutMap.Repr && (forall i :: 0 <= i < |nodes| ==> nodes[i].entry !in timeoutMap.Repr)
        && timeoutMap.Valid() && multiset(timeoutMap.Content()) == multiset(TimedOf([n] + nodes))
      modifies Repr - (if timeoutMap != null then timeoutMap.Repr else {})
      ensures Valid() && Repr == old(Repr) && timeoutMap == old(timeoutMap) && Nodes == [n] + nodes
    {
      forall i | 0 <= i < |nodes| ensures nodes[i].entry == List[i] { }
      ghost var E := Repr - (if timeoutMap != null then timeoutMap.Repr else {});
      assert forall k :: 0 <= k < |List| ==> List[k] in E;
      assert timeoutMap != null ==> timeoutMap.Repr !! E && this !in timeoutMap.Repr;
      LinkFront(entry, key, value, expired, E);
      AttachedValid(n, nodes);
    }

    /** The index half of put: with a timeout, the record of the node about
        to go to the head enters the timeout index; entry joins the
        footprint. */
    method IndexFront(entry: Entry<K, V>, n: Node<K, V>, ghost nodes: seq<Node<K, V>>)
      requires n.entry == entry && this in Repr
      requires timeoutMap != null ==>
        timeoutMap in Repr && timeoutMap.Repr <= Repr && this !in timeoutMap.Repr
        && timeoutMap.Valid() && multiset(timeoutMap.Content()) == multiset(TimedOf(nodes))
      modifies this`Repr, if timeoutMap != null then timeoutMap.Repr else {}
      ensures Repr == old(Repr) + {entry} + (if timeoutMap != null then timeoutMap.Repr else {})
      ensures fresh(Repr - old(Repr) - {entry})
      ensures timeoutMap != null ==>
        timeoutMap in Repr && this !in timeoutMap.Repr
        && entry !in timeoutMap.Repr && (forall i :: 0 <= i < |nodes| ==> nodes[i].entry !in timeoutMap.Repr)
        && timeoutMap.Valid() && multiset(timeoutMap.Content()) == multiset(TimedOf([n] + nodes))
    {
      if timeoutMap != null {
        Reindex(timeoutMap, entry, n, nodes);
        OutsideIndex(timeoutMap, nodes);
        OutsideIndex(timeoutMap, [n]);
        assert [n][0].entry == entry;
        Repr := Repr + {entry} + timeoutMap.Repr;
      } else {
        Repr := Repr + {entry};
      }
    }

    /** put when the key had no entry: a new entry is made and attached. */
    method AttachNew(key: K, value: V, now: int)
      requires Valid() && key !in KeySet(Nodes)
      modifies Repr
      ensures Valid() && timeoutMap == old(timeoutMap) && fresh(Repr - old(Repr))
      ensures |Nodes| > 0 && Nodes[1..] == old(Nodes)
      ensures Nodes[0].key == key && Nodes[0].value == value
      ensures Nodes[0].expired == if supportTimeout then now + timeout else 0
    {
      var created := new Entry(key, value);
      Attach(created, key, value, now);
    }

    /** put: after trimToTimeout, the key's old node (if any) leaves and a node
        holding the key and the value goes to the head; the old value is
        returned. The old entry object is reused, else a new one is made. */
    method Put(key: K, value: V, now: int) returns (r: Option<V>)
      requires Valid()
      modifies Repr
      ensures Valid() && fresh(Repr - old(Repr))
      ensures r == ValueOf(Trimmed(old(Nodes), now), key)
      ensures |Nodes| > 0 && Nodes[0].key == key && Nodes[0].value == value
      ensures Nodes[1..] == WithoutKey(Trimmed(old(Nodes), now), key)
      ensures Nodes[0].expired == if supportTimeout then now + timeout
                                  else match Find(Trimmed(old(Nodes), now), key)
                                       case Some(i) => Trimmed(old(Nodes), now)[i].expired
                                       case None => 0
    {
      TrimToTimeout(now);
      r := PutTrimmed(key, value, now);
    }

    /** put once trimToTimeout has run. */
    method PutTrimmed(key: K, value: V, now: int) returns (r: Option<V>)
      requires Valid()
      modifies Repr
      ensures Valid() && fresh(Repr - old(Repr))
      ensures r == ValueOf(old(Nodes), key)
      ensures |Nodes| > 0 && Nodes[0].key == key && Nodes[0].value == value
      ensures Nodes[1..] == WithoutKey(old(Nodes), key)
      ensures Nodes[0].expired == if supportTimeout then now + timeout
                                  else match Find(old(Nodes), key)
                                       case Some(i) => old(Nodes)[i].expired
                                       case None => 0
    {
      KeyGone(key);
      var entry := DetachKey(key);
      r := Reinsert(entry, key, value, now);
    }

    /** Keys are distinct, so once its node is gone the key is absent. */
    lemma KeyGone(key: K)
      requires Valid()
      ensures key !in KeySet(WithoutKey(Nodes, key))
    {
      SnapshotDistinct(List, Nodes);
      TabledDistinctKeys(table, Nodes);
      WithoutKeyValues(Nodes, key, key);
    }

    /** The second half of put: the detached entry, if there was one, is
        reused, else a new one is made; either way it takes the key and the
        value and goes to the head. The old value is returned. */
    method Reinsert(entry: Entry?<K, V>, key: K, value: V, now: int) returns (r: Option<V>)
      requires Valid() && key !in KeySet(Nodes)
      requires entry != null ==> Detached(entry)
      modifies Repr
      ensures Valid() && fresh(Repr - old(Repr))
      ensures r == if entry == null then None else Some(old(entry.value))
      ensures |Nodes| > 0 && Nodes[0].key == key && Nodes[0].value == value && Nodes[1..] == old(Nodes)
      ensures Nodes[0].expired == if supportTimeout then now + timeout
                                  else if entry == null then 0 else old(entry.expired)
    {
      if entry != null {
        r := Some(entry.value);
        Attach(entry, key, value, now);
      } else {
        r := None;
        AttachNew(key, value, now);
      }
    }

    /** remove: after trimToTimeout, the key's node leaves the list, the table
        and the timeout index; its value is returned, or null without one. */
    method Remove(key: K, now: int) returns (r: Option<V>)
      requires Valid()
      modifies Repr
      ensures Valid() && Repr == old(Repr)
      ensures r == ValueOf(Trimmed(old(Nodes), now), key)
      ensures Nodes == WithoutKey(Trimmed(old(Nodes), now), key)
    {
      TrimToTimeout(now);
      var entry := DetachKey(key);
      if entry != null {
        r := Some(entry.value);
      } else {
        r := None;
      }
    }

    /** removeTail, corrected: after trimToTimeout, the least recently used
        entry is unlinked and dropped from the table, and is returned; null
        on an empty map. LruMap.removeTail as written also leaves the entry's
        record in mTimeoutMap, where a later trimToTimeout meets it again;
        this model, like LruCacheEx on top of it, drops that record too. The
        as-written behaviour and its consequence are LruRemoveTail.RemoveTail
        and LruRemoveTail.StaleRecordExample. */
    method RemoveTail(now: int) returns (r: Entry?<K, V>)
      requires Valid()
      modifies Repr
      ensures Valid() && Repr == old(Repr)
      ensures r == null <==> Trimmed(old(Nodes), now) == []
      ensures r == null ==> Nodes == []
      ensures r != null ==>
        var t := Trimmed(old(Nodes), now);
        Nodes == t[..|t| - 1] && r == t[|t| - 1].entry
        && r.key == t[|t| - 1].key && r.value == t[|t| - 1].value
    {
      TrimToTimeout(now);
      if tail == null {
        return null;
      }
      r := tail;
      ghost var nodes := Nodes;
      SnapshotDistinct(List, Nodes);
      TabledDistinctKeys(table, Nodes);
      FindAt(nodes, |nodes| - 1);
      assert r == nodes[|nodes| - 1].entry && r.key == nodes[|nodes| - 1].key;
      var entry := DetachKey(r.key);
      assert nodes[..|nodes| - 1] + nodes[|nodes|..] == nodes[..|nodes| - 1];
    }

    /** size (and mapSize): the table's size, which is the number of nodes. */
    function Size(): (r: int)
      requires Valid()
      reads this, Repr
      ensures r == |Nodes|
    {
      SnapshotDistinct(List, Nodes);
      TabledDistinctKeys(table, Nodes);
      TabledSize(table, Nodes);
      |table|
    }

    /** isEmpty. */
    function IsEmpty(): (r: bool)
      requires Valid()
      reads this, Repr
      ensures r <==> Nodes == []
    {
      Size() == 0
    }

    /** listSize: counts the entries by walking the links from the head. */
    method ListSize() returns (r: int)
      requires Valid()
      ensures r == |Nodes|
    {
      r := 0;
      var e := head;
      while e != null
        invariant 0 <= r <= |List|
        invariant e == if r < |List| then List[r] else null
        decreases |List| - r
      {
        e := e.next;
        r := r + 1;
      }
    }

    /** The links spell out List, in both directions. */
    ghost predicate Linked()
      reads this, List
    {
      LinkedList(List, head, tail)
    }

    /** Unlinks entry, the j-th of the list: its neighbours are joined, its
        own links cleared, and head and tail moved off it. */
    method RemoveEntry(entry: Entry<K, V>, ghost j: int)
      requires Linked() && SnapshotOf(List, Nodes) && 0 <= j < |List| && List[j] == entry
      modifies this, List
      ensures Linked() && List == old(List)[..j] + old(List)[j + 1..]
      ensures SnapshotOf(List, Nodes) && Nodes == old(Nodes)[..j] + old(Nodes)[j + 1..]
      ensures entry.previous == null && entry.next == null
      ensures entry.key == old(entry.key) && entry.value == old(entry.value)
      ensures entry.expired == old(entry.expired)
      ensures table == old(table) && timeoutMap == old(timeoutMap) && Repr == old(Repr)
    {
      var next := entry.next;
      var previous := entry.previous;
      ghost var list, nodes := List, Nodes;
      assert j > 0 ==> Apart(list, 0, j);
      assert j < |list| - 1 ==> Apart(list, j, |list| - 1);
      List, Nodes := list[..j] + list[j + 1..], nodes[..j] + nodes[j + 1..];
      head, tail := if entry == head then next else head, if entry == tail then previous else tail;
      Splice(entry, list, j, nodes);
      SnapshotRemove(list, nodes, j);
    }
  }
}
