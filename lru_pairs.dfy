// What a caller of LruMap can observe: the key/value pairs from the most
// recently used (the head) to the least recently used (the tail), and the
// operations without a timeout as functions of them.

module LruPairs {
  import opened Common
  import opened LruMapModel

  /** The pairs the nodes hold, head first. */
  function PairsOf<K, V>(s: seq<Node<K, V>>): (r: seq<Pair<K, V>>)
    ensures |r| == |s|
    ensures forall i :: 0 <= i < |s| ==> r[i] == Pair(s[i].key, s[i].value)
  {
    seq(|s|, i requires 0 <= i < |s| => Pair(s[i].key, s[i].value))
  }

  /** The first position holding key, if any. */
  function IndexOf<K(==), V>(p: seq<Pair<K, V>>, key: K): (r: Option<nat>)
    ensures r.Some? ==> r.value < |p| && p[r.value].key == key
    ensures r.Some? ==> forall j :: 0 <= j < r.value ==> p[j].key != key
    ensures r.None? ==> forall j :: 0 <= j < |p| ==> p[j].key != key
  {
    if |p| == 0 then None
    else if p[0].key == key then Some(0)
    else
      match IndexOf(p[1..], key)
      case Some(i) => Some(i + 1)
      case None => None
  }

  /** get without the move: the value held for key, or null. */
  function Lookup<K(==), V>(p: seq<Pair<K, V>>, key: K): Option<V> {
    match IndexOf(p, key)
    case Some(i) => Some(p[i].value)
    case None => None
  }

  /** remove: the pairs without key's pair. */
  function Drop<K(==), V>(p: seq<Pair<K, V>>, key: K): seq<Pair<K, V>> {
    match IndexOf(p, key)
    case Some(i) => p[..i] + p[i + 1..]
    case None => p
  }

  /** put: key's pair leaves and the new pair goes to the head. */
  function PutPairs<K(==), V>(p: seq<Pair<K, V>>, key: K, value: V): seq<Pair<K, V>> {
    [Pair(key, value)] + Drop(p, key)
  }

  /** get: a hit moves key's pair to the head. */
  function GetPairs<K(==), V>(p: seq<Pair<K, V>>, key: K): seq<Pair<K, V>> {
    match IndexOf(p, key)
    case Some(i) => [p[i]] + p[..i] + p[i + 1..]
    case None => p
  }

  // ---- the pairs of the nodes follow the operations on the nodes ----

  lemma {:induction false} IndexOfFind<K, V>(s: seq<Node<K, V>>, key: K)
    ensures IndexOf(PairsOf(s), key) == Find(s, key)
  {
    if |s| > 0 && s[0].key != key {
      IndexOfFind(s[1..], key);
      assert PairsOf(s)[1..] == PairsOf(s[1..]);
    }
  }

  lemma LookupValueOf<K, V>(s: seq<Node<K, V>>, key: K)
    ensures Lookup(PairsOf(s), key) == ValueOf(s, key)
  {
    IndexOfFind(s, key);
  }

  lemma DropWithoutKey<K, V>(s: seq<Node<K, V>>, key: K)
    ensures PairsOf(WithoutKey(s, key)) == Drop(PairsOf(s), key)
  {
    IndexOfFind(s, key);
    match Find(s, key)
    case Some(i) =>
      assert PairsOf(s[..i] + s[i + 1..]) == PairsOf(s)[..i] + PairsOf(s)[i + 1..];
    case None =>
  }

  /** The nodes after LruMap.Put (without a timeout) hold PutPairs of the
      pairs before, and the value returned is the one held before. */
  lemma PutStep<K, V>(s: seq<Node<K, V>>, t: seq<Node<K, V>>, key: K, value: V)
    requires |t| > 0 && t[0].key == key && t[0].value == value && t[1..] == WithoutKey(s, key)
    ensures PairsOf(t) == PutPairs(PairsOf(s), key, value)
    ensures ValueOf(s, key) == Lookup(PairsOf(s), key)
  {
    DropWithoutKey(s, key);
    LookupValueOf(s, key);
    assert PairsOf(t) == [Pair(key, value)] + PairsOf(t[1..]);
  }

  /** The nodes after LruMap.Get (without a timeout) hold GetPairs of the
      pairs before. */
  lemma GetStep<K, V>(s: seq<Node<K, V>>, t: seq<Node<K, V>>, key: K)
    requires t == match Find(s, key)
                  case Some(i) => MoveToFront(s, i)
                  case None => s
    ensures PairsOf(t) == GetPairs(PairsOf(s), key)
    ensures ValueOf(s, key) == Lookup(PairsOf(s), key)
  {
    IndexOfFind(s, key);
    LookupValueOf(s, key);
    match Find(s, key)
    case Some(i) =>
      PairsMoved(s, i);
    case None =>
  }

  lemma PairsMoved<K, V>(s: seq<Node<K, V>>, i: nat)
    requires i < |s|
    ensures PairsOf(MoveToFront(s, i)) == [PairsOf(s)[i]] + PairsOf(s)[..i] + PairsOf(s)[i + 1..]
  {
    var m := MoveToFront(s, i);
    var p := PairsOf(s);
    var q := [p[i]] + p[..i] + p[i + 1..];
    assert |m| == |s| == |q|;
    forall j | 0 <= j < |s| ensures PairsOf(m)[j] == q[j] {
      if j == 0 {
      } else if j <= i {
        assert m[j] == s[j - 1];
      } else {
        assert m[j] == s[j];
      }
    }
  }

  /** The nodes after LruMap.Remove (without a timeout) hold Drop of the
      pairs before. */
  lemma RemoveStep<K, V>(s: seq<Node<K, V>>, t: seq<Node<K, V>>, key: K)
    requires t == WithoutKey(s, key)
    ensures PairsOf(t) == Drop(PairsOf(s), key)
    ensures ValueOf(s, key) == Lookup(PairsOf(s), key)
  {
    DropWithoutKey(s, key);
    LookupValueOf(s, key);
  }

  /** The nodes after LruMap.RemoveTail: the last pair leaves. */
  lemma RemoveTailStep<K, V>(s: seq<Node<K, V>>, t: seq<Node<K, V>>)
    requires |s| > 0 && t == s[..|s| - 1]
    ensures PairsOf(t) == PairsOf(s)[..|s| - 1]
    ensures PairsOf(s)[|s| - 1] == Pair(s[|s| - 1].key, s[|s| - 1].value)
  {
  }

  // ---- properties of the operations ----

  /** A repeated put on one key leaves one pair for it, the latest. */
  lemma PutPut<K, V>(p: seq<Pair<K, V>>, key: K, v1: V, v2: V)
    ensures PutPairs(PutPairs(p, key, v1), key, v2) == PutPairs(p, key, v2)
  {
    assert IndexOf(PutPairs(p, key, v1), key) == Some(0);
    assert PutPairs(p, key, v1)[1..] == Drop(p, key);
  }

  /** After put, key holds the value put, at the head. */
  lemma LookupAfterPut<K, V>(p: seq<Pair<K, V>>, key: K, value: V, other: K)
    ensures Lookup(PutPairs(p, key, value), key) == Some(value)
    ensures other != key ==> Lookup(PutPairs(p, key, value), other) == Lookup(p, other)
  {
    assert IndexOf(PutPairs(p, key, value), key) == Some(0);
    if other != key {
      DropLookup(p, key, other);
      var q := PutPairs(p, key, value);
      assert q[1..] == Drop(p, key);
      match IndexOf(q[1..], other)
      case Some(i) =>
        assert IndexOf(q, other) == Some(i + 1);
      case None =>
        assert IndexOf(q, other) == None;
    }
  }

  /** Dropping key leaves the other keys' values alone. */
  lemma DropLookup<K, V>(p: seq<Pair<K, V>>, key: K, other: K)
    ensures other != key ==> Lookup(Drop(p, key), other) == Lookup(p, other)
  {
    match IndexOf(p, key)
    case None =>
    case Some(i) =>
      var d := p[..i] + p[i + 1..];
      if other != key {
        match IndexOf(p, other)
        case None =>
          assert forall j :: 0 <= j < |d| ==> d[j].key != other;
        case Some(k) =>
          var at := if k < i then k else k - 1;
          assert d[at] == p[k];
          assert forall j :: 0 <= j < at ==> d[j].key != other by {
            forall j | 0 <= j < at ensures d[j].key != other {
              if j < i {
                assert d[j] == p[j];
              } else {
                assert d[j] == p[j + 1];
              }
            }
          }
          IndexOfFirst(d, other, at);
      }
  }

  /** A position holding key with no key before it is where IndexOf finds it. */
  lemma {:induction false} IndexOfFirst<K, V>(p: seq<Pair<K, V>>, key: K, at: nat)
    requires at < |p| && p[at].key == key
    requires forall j :: 0 <= j < at ==> p[j].key != key
    ensures IndexOf(p, key) == Some(at)
  {
    if at > 0 {
      IndexOfFirst(p[1..], key, at - 1);
    }
  }

  // ---- a replay of calls on a map without a timeout ----

  /** A call a client makes on the map, and what it answers. */
  datatype Call<K, V> =
    | PutCall(key: K, value: V)
    | GetCall(key: K)
    | RemoveCall(key: K)
    | RemoveTailCall
    | SizeCall
    | ListSizeCall

  datatype Answer<K, V> =
    | Returned(value: Option<V>)
    | Tail(pair: Option<Pair<K, V>>)
    | Count(n: int)

  /** One call on the pairs p: the pairs afterwards and the answer. */
  function Step<K(==), V>(p: seq<Pair<K, V>>, c: Call<K, V>): (seq<Pair<K, V>>, Answer<K, V>) {
    match c
    case PutCall(key, value) => (PutPairs(p, key, value), Returned(Lookup(p, key)))
    case GetCall(key) => (GetPairs(p, key), Returned(Lookup(p, key)))
    case RemoveCall(key) => (Drop(p, key), Returned(Lookup(p, key)))
    case RemoveTailCall => if p == [] then ([], Tail(None)) else (p[..|p| - 1], Tail(Some(p[|p| - 1])))
    case SizeCall => (p, Count(|p|))
    case ListSizeCall => (p, Count(|p|))
  }

  /** The calls one after the other from p: the pairs at the end and the
      answers in order. */
  function Replay<K(==), V>(p: seq<Pair<K, V>>, calls: seq<Call<K, V>>): (r: (seq<Pair<K, V>>, seq<Answer<K, V>>))
    ensures |r.1| == |calls|
    decreases |calls|
  {
    if calls == [] then (p, [])
    else
      var first := Step(p, calls[0]);
      var rest := Replay(first.0, calls[1..]);
      (rest.0, [first.1] + rest.1)
  }

  /** One call on the map, answered as Step says. */
  method StepOn<K, V>(m: LruMap<K, V>, c: Call<K, V>, now: int) returns (a: Answer<K, V>)
    requires m.Valid() && !m.supportTimeout
    modifies m.Repr
    ensures m.Valid() && fresh(m.Repr - old(m.Repr))
    ensures PairsOf(m.Nodes) == Step(PairsOf(old(m.Nodes)), c).0
    ensures a == Step(PairsOf(old(m.Nodes)), c).1
  {
    match c
    case PutCall(key, value) =>
      var r := PutOn(m, key, value, now);
      a := Returned(r);
    case GetCall(key) =>
      var r := GetOn(m, key, now);
      a := Returned(r);
    case RemoveCall(key) =>
      var r := RemoveOn(m, key, now);
      a := Returned(r);
    case RemoveTailCall =>
      var r := RemoveTailOn(m, now);
      a := Tail(r);
    case SizeCall =>
      a := Count(m.Size());
    case ListSizeCall =>
      var n := m.ListSize();
      a := Count(n);
  }

  method PutOn<K, V>(m: LruMap<K, V>, key: K, value: V, now: int) returns (r: Option<V>)
    requires m.Valid() && !m.supportTimeout
    modifies m.Repr
    ensures m.Valid() && fresh(m.Repr - old(m.Repr))
    ensures PairsOf(m.Nodes) == PutPairs(PairsOf(old(m.Nodes)), key, value)
    ensures r == Lookup(PairsOf(old(m.Nodes)), key)
  {
    ghost var s := m.Nodes;
    r := m.Put(key, value, now);
    PutStep(s, m.Nodes, key, value);
  }

  method GetOn<K, V>(m: LruMap<K, V>, key: K, now: int) returns (r: Option<V>)
    requires m.Valid() && !m.supportTimeout
    modifies m.Repr
    ensures m.Valid() && m.Repr == old(m.Repr)
    ensures PairsOf(m.Nodes) == GetPairs(PairsOf(old(m.Nodes)), key)
    ensures r == Lookup(PairsOf(old(m.Nodes)), key)
  {
    ghost var s := m.Nodes;
    r := m.Get(key, now);
    GetStep(s, m.Nodes, key);
  }

  method RemoveOn<K, V>(m: LruMap<K, V>, key: K, now: int) returns (r: Option<V>)
    requires m.Valid() && !m.supportTimeout
    modifies m.Repr
    ensures m.Valid() && m.Repr == old(m.Repr)
    ensures PairsOf(m.Nodes) == Drop(PairsOf(old(m.Nodes)), key)
    ensures r == Lookup(PairsOf(old(m.Nodes)), key)
  {
    ghost var s := m.Nodes;
    r := m.Remove(key, now);
    RemoveStep(s, m.Nodes, key);
  }

  /** removeTail, answering with the pair of the entry it unlinks. */
  method RemoveTailOn<K, V>(m: LruMap<K, V>, now: int) returns (r: Option<Pair<K, V>>)
    requires m.Valid() && !m.supportTimeout
    modifies m.Repr
    ensures m.Valid() && m.Repr == old(m.Repr)
    ensures var p := PairsOf(old(m.Nodes));
            r == (if p == [] then None else Some(p[|p| - 1]))
            && PairsOf(m.Nodes) == (if p == [] then [] else p[..|p| - 1])
  {
    ghost var s := m.Nodes;
    var e := m.RemoveTail(now);
    if e == null {
      r := None;
    } else {
      RemoveTailStep(s, m.Nodes);
      r := Some(Pair(e.key, e.value));
    }
  }

  /** The calls on the map one after the other, answered as Replay says. */
  method ReplayOn<K, V>(m: LruMap<K, V>, calls: seq<Call<K, V>>, now: int) returns (answers: seq<Answer<K, V>>)
    requires m.Valid() && !m.supportTimeout
    modifies m.Repr
    ensures m.Valid() && fresh(m.Repr - old(m.Repr))
    ensures PairsOf(m.Nodes) == Replay(PairsOf(old(m.Nodes)), calls).0
    ensures answers == Replay(PairsOf(old(m.Nodes)), calls).1
    decreases |calls|
  {
    if calls == [] {
      return [];
    }
    var a := StepOn(m, calls[0], now);
    var rest := ReplayOn(m, calls[1..], now);
    answers := [a] + rest;
  }

  // ---- the repository's LruMap test, replayed ----

  /** Three puts on key 1 leave one entry, holding the last value; each put answers the value it replaces. */
  lemma Replay1()
    ensures Replay<int, string>([], [PutCall(1, "121"), PutCall(1, "12"), PutCall(1, "12fsafa1")]).0 == [Pair(1, "12fsafa1")]
    ensures Replay<int, string>([], [PutCall(1, "121"), PutCall(1, "12"), PutCall(1, "12fsafa1")]).1 == [Returned(None), Returned(Some("121")), Returned(Some("12"))]
  {
  }

  method Stretch1(m: LruMap<int, string>) returns (answers: seq<Answer<int, string>>)
    requires m.Valid() && !m.supportTimeout
    requires PairsOf(m.Nodes) == []
    modifies m.Repr
    ensures m.Valid() && fresh(m.Repr - old(m.Repr))
    ensures PairsOf(m.Nodes) == [Pair(1, "12fsafa1")]
    ensures answers == [Returned(None), Returned(Some("121")), Returned(Some("12"))]
  {
    Replay1();
    answers := ReplayOn(m, [PutCall(1, "121"), PutCall(1, "12"), PutCall(1, "12fsafa1")], 0);
  }

  /** Both sizes are 1; removeTail answers that entry. */
  lemma Replay2()
    ensures Replay([Pair(1, "12fsafa1")], [SizeCall, ListSizeCall, RemoveTailCall]).0 == []
    ensures Replay([Pair(1, "12fsafa1")], [SizeCall, ListSizeCall, RemoveTailCall]).1 == [Count(1), Count(1), Tail(Some(Pair(1, "12fsafa1")))]
  {
  }

  method Stretch2(m: LruMap<int, string>) returns (answers: seq<Answer<int, string>>)
    requires m.Valid() && !m.supportTimeout
    requires PairsOf(m.Nodes) == [Pair(1, "12fsafa1")]
    modifies m.Repr
    ensures m.Valid() && fresh(m.Repr - old(m.Repr))
    ensures PairsOf(m.Nodes) == []
    ensures answers == [Count(1), Count(1), Tail(Some(Pair(1, "12fsafa1")))]
  {
    Replay2();
    answers := ReplayOn(m, [SizeCall, ListSizeCall, RemoveTailCall], 0);
  }

  /** On the empty map removeTail answers null and both sizes stay 0. */
  lemma Replay3()
    ensures Replay<int, string>([], [SizeCall, ListSizeCall, RemoveTailCall, SizeCall, ListSizeCall]).0 == []
    ensures Replay<int, string>([], [SizeCall, ListSizeCall, RemoveTailCall, SizeCall, ListSizeCall]).1 == [Count(0), Count(0), Tail(None), Count(0), Count(0)]
  {
  }

  method Stretch3(m: LruMap<int, string>) returns (answers: seq<Answer<int, string>>)
    requires m.Valid() && !m.supportTimeout
    requires PairsOf(m.Nodes) == []
    modifies m.Repr
    ensures m.Valid() && fresh(m.Repr - old(m.Repr))
    ensures PairsOf(m.Nodes) == []
    ensures answers == [Count(0), Count(0), Tail(None), Count(0), Count(0)]
  {
    Replay3();
    answers := ReplayOn(m, [SizeCall, ListSizeCall, RemoveTailCall, SizeCall, ListSizeCall], 0);
  }

  /** New keys go to the head. */
  lemma Replay4()
    ensures Replay<int, string>([], [PutCall(1, "1"), PutCall(10, "10"), PutCall(8, "8")]).0 == [Pair(8, "8"), Pair(10, "10"), Pair(1, "1")]
    ensures Replay<int, string>([], [PutCall(1, "1"), PutCall(10, "10"), PutCall(8, "8")]).1 == [Returned(None), Returned(None), Returned(None)]
  {
  }

  method Stretch4(m: LruMap<int, string>) returns (answers: seq<Answer<int, string>>)
    requires m.Valid() && !m.supportTimeout
    requires PairsOf(m.Nodes) == []
    modifies m.Repr
    ensures m.Valid() && fresh(m.Repr - old(m.Repr))
    ensures PairsOf(m.Nodes) == [Pair(8, "8"), Pair(10, "10"), Pair(1, "1")]
    ensures answers == [Returned(None), Returned(None), Returned(None)]
  {
    Replay4();
    answers := ReplayOn(m, [PutCall(1, "1"), PutCall(10, "10"), PutCall(8, "8")], 0);
  }

  /** remove answers the value it drops. */
  lemma Replay5()
    ensures Replay([Pair(8, "8"), Pair(10, "10"), Pair(1, "1")], [PutCall(9, "999"), RemoveCall(10)]).0 == [Pair(9, "999"), Pair(8, "8"), Pair(1, "1")]
    ensures Replay([Pair(8, "8"), Pair(10, "10"), Pair(1, "1")], [PutCall(9, "999"), RemoveCall(10)]).1 == [Returned(None), Returned(Some("10"))]
  {
    var q := [Pair(9, "999"), Pair(8, "8"), Pair(10, "10"), Pair(1, "1")];
    var s1 := Step([Pair(8, "8"), Pair(10, "10"), Pair(1, "1")], PutCall(9, "999"));
    assert s1.0 == q && s1.1 == Returned(None);
    var s2 := Step(q, RemoveCall(10));
    assert s2.0 == [Pair(9, "999"), Pair(8, "8"), Pair(1, "1")] && s2.1 == Returned(Some("10"));
  }

  method Stretch5(m: LruMap<int, string>) returns (answers: seq<Answer<int, string>>)
    requires m.Valid() && !m.supportTimeout
    requires PairsOf(m.Nodes) == [Pair(8, "8"), Pair(10, "10"), Pair(1, "1")]
    modifies m.Repr
    ensures m.Valid() && fresh(m.Repr - old(m.Repr))
    ensures PairsOf(m.Nodes) == [Pair(9, "999"), Pair(8, "8"), Pair(1, "1")]
    ensures answers == [Returned(None), Returned(Some("10"))]
  {
    Replay5();
    answers := ReplayOn(m, [PutCall(9, "999"), RemoveCall(10)], 0);
  }

  lemma Replay6()
    ensures Replay([Pair(9, "999"), Pair(8, "8"), Pair(1, "1")], [PutCall(3, "3"), PutCall(232, "232")]).0 == [Pair(232, "232"), Pair(3, "3"), Pair(9, "999"), Pair(8, "8"), Pair(1, "1")]
    ensures Replay([Pair(9, "999"), Pair(8, "8"), Pair(1, "1")], [PutCall(3, "3"), PutCall(232, "232")]).1 == [Returned(None), Returned(None)]
  {
  }

  method Stretch6(m: LruMap<int, string>) returns (answers: seq<Answer<int, string>>)
    requires m.Valid() && !m.supportTimeout
    requires PairsOf(m.Nodes) == [Pair(9, "999"), Pair(8, "8"), Pair(1, "1")]
    modifies m.Repr
    ensures m.Valid() && fresh(m.Repr - old(m.Repr))
    ensures PairsOf(m.Nodes) == [Pair(232, "232"), Pair(3, "3"), Pair(9, "999"), Pair(8, "8"), Pair(1, "1")]
    ensures answers == [Returned(None), Returned(None)]
  {
    Replay6();
    answers := ReplayOn(m, [PutCall(3, "3"), PutCall(232, "232")], 0);
  }

  lemma Replay7()
    ensures Replay([Pair(232, "232"), Pair(3, "3"), Pair(9, "999"), Pair(8, "8"), Pair(1, "1")], [PutCall(7, "7")]).0 == [Pair(7, "7"), Pair(232, "232"), Pair(3, "3"), Pair(9, "999"), Pair(8, "8"), Pair(1, "1")]
    ensures Replay([Pair(232, "232"), Pair(3, "3"), Pair(9, "999"), Pair(8, "8"), Pair(1, "1")], [PutCall(7, "7")]).1 == [Returned(None)]
  {
  }

  method Stretch7(m: LruMap<int, string>) returns (answers: seq<Answer<int, string>>)
    requires m.Valid() && !m.supportTimeout
    requires PairsOf(m.Nodes) == [Pair(232, "232"), Pair(3, "3"), Pair(9, "999"), Pair(8, "8"), Pair(1, "1")]
    modifies m.Repr
    ensures m.Valid() && fresh(m.Repr - old(m.Repr))
    ensures PairsOf(m.Nodes) == [Pair(7, "7"), Pair(232, "232"), Pair(3, "3"), Pair(9, "999"), Pair(8, "8"), Pair(1, "1")]
    ensures answers == [Returned(None)]
  {
    Replay7();
    answers := ReplayOn(m, [PutCall(7, "7")], 0);
  }

  /** A put on a present key moves it to the head. */
  lemma Replay8()
    ensures Replay([Pair(7, "7"), Pair(232, "232"), Pair(3, "3"), Pair(9, "999"), Pair(8, "8"), Pair(1, "1")], [PutCall(3, "3")]).0 == [Pair(3, "3"), Pair(7, "7"), Pair(232, "232"), Pair(9, "999"), Pair(8, "8"), Pair(1, "1")]
    ensures Replay([Pair(7, "7"), Pair(232, "232"), Pair(3, "3"), Pair(9, "999"), Pair(8, "8"), Pair(1, "1")], [PutCall(3, "3")]).1 == [Returned(Some("3"))]
  {
  }

  method Stretch8(m: LruMap<int, string>) returns (answers: seq<Answer<int, string>>)
    requires m.Valid() && !m.supportTimeout
    requires PairsOf(m.Nodes) == [Pair(7, "7"), Pair(232, "232"), Pair(3, "3"), Pair(9, "999"), Pair(8, "8"), Pair(1, "1")]
    modifies m.Repr
    ensures m.Valid() && fresh(m.Repr - old(m.Repr))
    ensures PairsOf(m.Nodes) == [Pair(3, "3"), Pair(7, "7"), Pair(232, "232"), Pair(9, "999"), Pair(8, "8"), Pair(1, "1")]
    ensures answers == [Returned(Some("3"))]
  {
    Replay8();
    answers := ReplayOn(m, [PutCall(3, "3")], 0);
  }

  /** A get moves its key to the head. */
  lemma Replay9()
    ensures Replay([Pair(3, "3"), Pair(7, "7"), Pair(232, "232"), Pair(9, "999"), Pair(8, "8"), Pair(1, "1")], [GetCall(232)]).0 == [Pair(232, "232"), Pair(3, "3"), Pair(7, "7"), Pair(9, "999"), Pair(8, "8"), Pair(1, "1")]
    ensures Replay([Pair(3, "3"), Pair(7, "7"), Pair(232, "232"), Pair(9, "999"), Pair(8, "8"), Pair(1, "1")], [GetCall(232)]).1 == [Returned(Some("232"))]
  {
  }

  method Stretch9(m: LruMap<int, string>) returns (answers: seq<Answer<int, string>>)
    requires m.Valid() && !m.supportTimeout
    requires PairsOf(m.Nodes) == [Pair(3, "3"), Pair(7, "7"), Pair(232, "232"), Pair(9, "999"), Pair(8, "8"), Pair(1, "1")]
    modifies m.Repr
    ensures m.Valid() && fresh(m.Repr - old(m.Repr))
    ensures PairsOf(m.Nodes) == [Pair(232, "232"), Pair(3, "3"), Pair(7, "7"), Pair(9, "999"), Pair(8, "8"), Pair(1, "1")]
    ensures answers == [Returned(Some("232"))]
  {
    Replay9();
    answers := ReplayOn(m, [GetCall(232)], 0);
  }

  lemma Replay10()
    ensures Replay([Pair(232, "232"), Pair(3, "3"), Pair(7, "7"), Pair(9, "999"), Pair(8, "8"), Pair(1, "1")], [PutCall(2, "2")]).0 == [Pair(2, "2"), Pair(232, "232"), Pair(3, "3"), Pair(7, "7"), Pair(9, "999"), Pair(8, "8"), Pair(1, "1")]
    ensures Replay([Pair(232, "232"), Pair(3, "3"), Pair(7, "7"), Pair(9, "999"), Pair(8, "8"), Pair(1, "1")], [PutCall(2, "2")]).1 == [Returned(None)]
  {
  }

  method Stretch10(m: LruMap<int, string>) returns (answers: seq<Answer<int, string>>)
    requires m.Valid() && !m.supportTimeout
    requires PairsOf(m.Nodes) == [Pair(232, "232"), Pair(3, "3"), Pair(7, "7"), Pair(9, "999"), Pair(8, "8"), Pair(1, "1")]
    modifies m.Repr
    ensures m.Valid() && fresh(m.Repr - old(m.Repr))
    ensures PairsOf(m.Nodes) == [Pair(2, "2"), Pair(232, "232"), Pair(3, "3"), Pair(7, "7"), Pair(9, "999"), Pair(8, "8"), Pair(1, "1")]
    ensures answers == [Returned(None)]
  {
    Replay10();
    answers := ReplayOn(m, [PutCall(2, "2")], 0);
  }

  /** The put on 9 answers the 999 it replaces. */
  lemma Replay11()
    ensures Replay([Pair(2, "2"), Pair(232, "232"), Pair(3, "3"), Pair(7, "7"), Pair(9, "999"), Pair(8, "8"), Pair(1, "1")], [PutCall(9, "9")]).0 == [Pair(9, "9"), Pair(2, "2"), Pair(232, "232"), Pair(3, "3"), Pair(7, "7"), Pair(8, "8"), Pair(1, "1")]
    ensures Replay([Pair(2, "2"), Pair(232, "232"), Pair(3, "3"), Pair(7, "7"), Pair(9, "999"), Pair(8, "8"), Pair(1, "1")], [PutCall(9, "9")]).1 == [Returned(Some("999"))]
  {
  }

  method Stretch11(m: LruMap<int, string>) returns (answers: seq<Answer<int, string>>)
    requires m.Valid() && !m.supportTimeout
    requires PairsOf(m.Nodes) == [Pair(2, "2"), Pair(232, "232"), Pair(3, "3"), Pair(7, "7"), Pair(9, "999"), Pair(8, "8"), Pair(1, "1")]
    modifies m.Repr
    ensures m.Valid() && fresh(m.Repr - old(m.Repr))
    ensures PairsOf(m.Nodes) == [Pair(9, "9"), Pair(2, "2"), Pair(232, "232"), Pair(3, "3"), Pair(7, "7"), Pair(8, "8"), Pair(1, "1")]
    ensures answers == [Returned(Some("999"))]
  {
    Replay11();
    answers := ReplayOn(m, [PutCall(9, "9")], 0);
  }

  /** Both sizes are 7. */
  lemma Replay12()
    ensures Replay([Pair(9, "9"), Pair(2, "2"), Pair(232, "232"), Pair(3, "3"), Pair(7, "7"), Pair(8, "8"), Pair(1, "1")], [SizeCall, ListSizeCall]).0 == [Pair(9, "9"), Pair(2, "2"), Pair(232, "232"), Pair(3, "3"), Pair(7, "7"), Pair(8, "8"), Pair(1, "1")]
    ensures Replay([Pair(9, "9"), Pair(2, "2"), Pair(232, "232"), Pair(3, "3"), Pair(7, "7"), Pair(8, "8"), Pair(1, "1")], [SizeCall, ListSizeCall]).1 == [Count(7), Count(7)]
  {
  }

  method Stretch12(m: LruMap<int, string>) returns (answers: seq<Answer<int, string>>)
    requires m.Valid() && !m.supportTimeout
    requires PairsOf(m.Nodes) == [Pair(9, "9"), Pair(2, "2"), Pair(232, "232"), Pair(3, "3"), Pair(7, "7"), Pair(8, "8"), Pair(1, "1")]
    modifies m.Repr
    ensures m.Valid() && fresh(m.Repr - old(m.Repr))
    ensures PairsOf(m.Nodes) == [Pair(9, "9"), Pair(2, "2"), Pair(232, "232"), Pair(3, "3"), Pair(7, "7"), Pair(8, "8"), Pair(1, "1")]
    ensures answers == [Count(7), Count(7)]
  {
    Replay12();
    answers := ReplayOn(m, [SizeCall, ListSizeCall], 0);
  }

  /** removeTail answers the entries from the least recently used on. */
  lemma Replay13()
    ensures Replay([Pair(9, "9"), Pair(2, "2"), Pair(232, "232"), Pair(3, "3"), Pair(7, "7"), Pair(8, "8"), Pair(1, "1")], [RemoveTailCall, RemoveTailCall]).0 == [Pair(9, "9"), Pair(2, "2"), Pair(232, "232"), Pair(3, "3"), Pair(7, "7")]
    ensures Replay([Pair(9, "9"), Pair(2, "2"), Pair(232, "232"), Pair(3, "3"), Pair(7, "7"), Pair(8, "8"), Pair(1, "1")], [RemoveTailCall, RemoveTailCall]).1 == [Tail(Some(Pair(1, "1"))), Tail(Some(Pair(8, "8")))]
  {
  }

  method Stretch13(m: LruMap<int, string>) returns (answers: seq<Answer<int, string>>)
    requires m.Valid() && !m.supportTimeout
    requires PairsOf(m.Nodes) == [Pair(9, "9"), Pair(2, "2"), Pair(232, "232"), Pair(3, "3"), Pair(7, "7"), Pair(8, "8"), Pair(1, "1")]
    modifies m.Repr
    ensures m.Valid() && fresh(m.Repr - old(m.Repr))
    ensures PairsOf(m.Nodes) == [Pair(9, "9"), Pair(2, "2"), Pair(232, "232"), Pair(3, "3"), Pair(7, "7")]
    ensures answers == [Tail(Some(Pair(1, "1"))), Tail(Some(Pair(8, "8")))]
  {
    Replay13();
    answers := ReplayOn(m, [RemoveTailCall, RemoveTailCall], 0);
  }

  lemma Replay14()
    ensures Replay([Pair(9, "9"), Pair(2, "2"), Pair(232, "232"), Pair(3, "3"), Pair(7, "7")], [RemoveTailCall, RemoveTailCall]).0 == [Pair(9, "9"), Pair(2, "2"), Pair(232, "232")]
    ensures Replay([Pair(9, "9"), Pair(2, "2"), Pair(232, "232"), Pair(3, "3"), Pair(7, "7")], [RemoveTailCall, RemoveTailCall]).1 == [Tail(Some(Pair(7, "7"))), Tail(Some(Pair(3, "3")))]
  {
  }

  method Stretch14(m: LruMap<int, string>) returns (answers: seq<Answer<int, string>>)
    requires m.Valid() && !m.supportTimeout
    requires PairsOf(m.Nodes) == [Pair(9, "9"), Pair(2, "2"), Pair(232, "232"), Pair(3, "3"), Pair(7, "7")]
    modifies m.Repr
    ensures m.Valid() && fresh(m.Repr - old(m.Repr))
    ensures PairsOf(m.Nodes) == [Pair(9, "9"), Pair(2, "2"), Pair(232, "232")]
    ensures answers == [Tail(Some(Pair(7, "7"))), Tail(Some(Pair(3, "3")))]
  {
    Replay14();
    answers := ReplayOn(m, [RemoveTailCall, RemoveTailCall], 0);
  }

  lemma Replay15()
    ensures Replay([Pair(9, "9"), Pair(2, "2"), Pair(232, "232")], [RemoveTailCall, RemoveTailCall, RemoveTailCall]).0 == []
    ensures Replay([Pair(9, "9"), Pair(2, "2"), Pair(232, "232")], [RemoveTailCall, RemoveTailCall, RemoveTailCall]).1 == [Tail(Some(Pair(232, "232"))), Tail(Some(Pair(2, "2"))), Tail(Some(Pair(9, "9")))]
  {
  }

  method Stretch15(m: LruMap<int, string>) returns (answers: seq<Answer<int, string>>)
    requires m.Valid() && !m.supportTimeout
    requires PairsOf(m.Nodes) == [Pair(9, "9"), Pair(2, "2"), Pair(232, "232")]
    modifies m.Repr
    ensures m.Valid() && fresh(m.Repr - old(m.Repr))
    ensures PairsOf(m.Nodes) == []
    ensures answers == [Tail(Some(Pair(232, "232"))), Tail(Some(Pair(2, "2"))), Tail(Some(Pair(9, "9")))]
  {
    Replay15();
    answers := ReplayOn(m, [RemoveTailCall, RemoveTailCall, RemoveTailCall], 0);
  }

  /** Three puts on key 1, then removeTail until it answers null. */
  method OneKey(m: LruMap<int, string>) returns (sizes: seq<Answer<int, string>>, removed: Answer<int, string>, none: Answer<int, string>)
    requires m.Valid() && !m.supportTimeout && PairsOf(m.Nodes) == []
    modifies m.Repr
    ensures m.Valid() && fresh(m.Repr - old(m.Repr)) && PairsOf(m.Nodes) == []
    ensures sizes == [Count(1), Count(1), Count(0), Count(0), Count(0), Count(0)]
    ensures removed == Tail(Some(Pair(1, "12fsafa1"))) && none == Tail(None)
  {
    var a1 := Stretch1(m);
    var a2 := Stretch2(m);
    var a3 := Stretch3(m);
    removed, none := a2[2], a3[2];
    sizes := [a2[0], a2[1], a3[0], a3[1], a3[3], a3[4]];
  }

  /** The first puts of the second half, and the remove. */
  method Fill(m: LruMap<int, string>)
    requires m.Valid() && !m.supportTimeout && PairsOf(m.Nodes) == []
    modifies m.Repr
    ensures m.Valid() && fresh(m.Repr - old(m.Repr)) && PairsOf(m.Nodes) == [Pair(9, "999"), Pair(8, "8"), Pair(1, "1")]
  {
    var a4 := Stretch4(m);
    var a5 := Stretch5(m);
  }

  /** The puts that follow. */
  method Grow(m: LruMap<int, string>)
    requires m.Valid() && !m.supportTimeout && PairsOf(m.Nodes) == [Pair(9, "999"), Pair(8, "8"), Pair(1, "1")]
    modifies m.Repr
    ensures m.Valid() && fresh(m.Repr - old(m.Repr)) && PairsOf(m.Nodes) == [Pair(7, "7"), Pair(232, "232"), Pair(3, "3"), Pair(9, "999"), Pair(8, "8"), Pair(1, "1")]
  {
    var a6 := Stretch6(m);
    var a7 := Stretch7(m);
  }

  /** The calls up to the puts on 232 and 7. */
  method FirstHalf(m: LruMap<int, string>) returns (sizes: seq<Answer<int, string>>, removed: Answer<int, string>, none: Answer<int, string>)
    requires m.Valid() && !m.supportTimeout && PairsOf(m.Nodes) == []
    modifies m.Repr
    ensures m.Valid() && fresh(m.Repr - old(m.Repr)) && PairsOf(m.Nodes) == [Pair(7, "7"), Pair(232, "232"), Pair(3, "3"), Pair(9, "999"), Pair(8, "8"), Pair(1, "1")]
    ensures sizes == [Count(1), Count(1), Count(0), Count(0), Count(0), Count(0)]
    ensures removed == Tail(Some(Pair(1, "12fsafa1"))) && none == Tail(None)
  {
    sizes, removed, none := OneKey(m);
    Fill(m);
    Grow(m);
  }

  /** The put and get that move keys to the head, and the put on 2. */
  method Reorder(m: LruMap<int, string>)
    requires m.Valid() && !m.supportTimeout && PairsOf(m.Nodes) == [Pair(7, "7"), Pair(232, "232"), Pair(3, "3"), Pair(9, "999"), Pair(8, "8"), Pair(1, "1")]
    modifies m.Repr
    ensures m.Valid() && fresh(m.Repr - old(m.Repr)) && PairsOf(m.Nodes) == [Pair(2, "2"), Pair(232, "232"), Pair(3, "3"), Pair(7, "7"), Pair(9, "999"), Pair(8, "8"), Pair(1, "1")]
  {
    var a8 := Stretch8(m);
    var a9 := Stretch9(m);
    var a10 := Stretch10(m);
  }

  /** The put on 9 and the sizes. */
  method Replace(m: LruMap<int, string>) returns (replaced: Answer<int, string>, sizes: seq<Answer<int, string>>)
    requires m.Valid() && !m.supportTimeout && PairsOf(m.Nodes) == [Pair(2, "2"), Pair(232, "232"), Pair(3, "3"), Pair(7, "7"), Pair(9, "999"), Pair(8, "8"), Pair(1, "1")]
    modifies m.Repr
    ensures m.Valid() && fresh(m.Repr - old(m.Repr)) && PairsOf(m.Nodes) == [Pair(9, "9"), Pair(2, "2"), Pair(232, "232"), Pair(3, "3"), Pair(7, "7"), Pair(8, "8"), Pair(1, "1")]
    ensures replaced == Returned(Some("999")) && sizes == [Count(7), Count(7)]
  {
    var a11 := Stretch11(m);
    replaced := a11[0];
    sizes := Stretch12(m);
  }

  /** removeTail until the map is empty. */
  method Drain(m: LruMap<int, string>) returns (drained: seq<Answer<int, string>>)
    requires m.Valid() && !m.supportTimeout && PairsOf(m.Nodes) == [Pair(9, "9"), Pair(2, "2"), Pair(232, "232"), Pair(3, "3"), Pair(7, "7"), Pair(8, "8"), Pair(1, "1")]
    modifies m.Repr
    ensures m.Valid() && fresh(m.Repr - old(m.Repr)) && PairsOf(m.Nodes) == []
    ensures drained == [Tail(Some(Pair(1, "1"))), Tail(Some(Pair(8, "8"))), Tail(Some(Pair(7, "7"))),
                        Tail(Some(Pair(3, "3"))), Tail(Some(Pair(232, "232"))), Tail(Some(Pair(2, "2"))),
                        Tail(Some(Pair(9, "9")))]
  {
    var a13 := Stretch13(m);
    var a14 := Stretch14(m);
    var a15 := Stretch15(m);
    drained := [a13[0], a13[1], a14[0], a14[1], a15[0], a15[1], a15[2]];
  }

  /** The calls from the put on 3 on. */
  method SecondHalf(m: LruMap<int, string>) returns (replaced: Answer<int, string>, sizes: seq<Answer<int, string>>, drained: seq<Answer<int, string>>)
    requires m.Valid() && !m.supportTimeout && PairsOf(m.Nodes) == [Pair(7, "7"), Pair(232, "232"), Pair(3, "3"), Pair(9, "999"), Pair(8, "8"), Pair(1, "1")]
    modifies m.Repr
    ensures m.Valid() && fresh(m.Repr - old(m.Repr)) && PairsOf(m.Nodes) == []
    ensures replaced == Returned(Some("999")) && sizes == [Count(7), Count(7)]
    ensures drained == [Tail(Some(Pair(1, "1"))), Tail(Some(Pair(8, "8"))), Tail(Some(Pair(7, "7"))),
                        Tail(Some(Pair(3, "3"))), Tail(Some(Pair(232, "232"))), Tail(Some(Pair(2, "2"))),
                        Tail(Some(Pair(9, "9")))]
  {
    Reorder(m);
    replaced, sizes := Replace(m);
    drained := Drain(m);
  }

  /** The repository's LruMap test on a map without a timeout: what it
      asserts. Three puts on key 1 leave one entry with the last value, so
      removeTail answers that entry and then null; size and listSize agree
      throughout; the put on 9 answers the 999 it replaces; and removeTail
      answers the entries from the least recently used on. */
  method LruMapTrace() returns (removed: Answer<int, string>, none: Answer<int, string>, replaced: Answer<int, string>,
                                sizes: seq<Answer<int, string>>, drained: seq<Answer<int, string>>)
    ensures removed == Tail(Some(Pair(1, "12fsafa1"))) && none == Tail(None)
    ensures replaced == Returned(Some("999"))
    ensures sizes == [Count(1), Count(1), Count(0), Count(0), Count(0), Count(0), Count(7), Count(7)]
    ensures drained == [Tail(Some(Pair(1, "1"))), Tail(Some(Pair(8, "8"))), Tail(Some(Pair(7, "7"))),
                        Tail(Some(Pair(3, "3"))), Tail(Some(Pair(232, "232"))), Tail(Some(Pair(2, "2"))),
                        Tail(Some(Pair(9, "9")))]
  {
    var m := new LruMap<int, string>(0);
    var early, late;
    early, removed, none := FirstHalf(m);
    replaced, late, drained := SecondHalf(m);
    sizes := early + late;
  }
}
