// LruMap.removeTail as written, on values: entry objects are named by
// their position in `cells`, so an entry that has left the list and the
// table can still be reached through a record of the timeout index.

module LruRemoveTail {
  import opened Common

  /** The fields of one Entry object. */
  datatype Cell<K, V> = Cell(key: K, value: V, expired: int)

  /** A record (expiry, entry) of mTimeoutMap. */
  datatype Record = Record(expired: int, id: nat)

  /** mMap as `table`, the links as `list` (head first), mTimeoutMap as
      `index`, sorted by expiry. */
  datatype State<K, V> = State(cells: seq<Cell<K, V>>, list: seq<nat>, table: map<K, nat>,
                               index: seq<Record>, timeout: int)

  function Empty<K, V>(timeout: int): State<K, V> {
    State([], [], map[], [], timeout)
  }

  /** mTimeoutMap.put: the record goes before the first record that
      expires later. */
  function Insert(index: seq<Record>, r: Record): (s: seq<Record>)
    ensures multiset(s) == multiset(index) + multiset{r}
  {
    if index == [] || index[0].expired > r.expired then [r] + index
    else
      assert index == [index[0]] + index[1..];
      [index[0]] + Insert(index[1..], r)
  }

  /** mTimeoutMap.delete: the first record equal to r leaves. */
  function Delete(index: seq<Record>, r: Record): (s: seq<Record>)
    ensures r in index ==> multiset(s) == multiset(index) - multiset{r}
    ensures r !in index ==> s == index
  {
    if index == [] then []
    else
      assert index == [index[0]] + index[1..];
      if index[0] == r then index[1..]
      else [index[0]] + Delete(index[1..], r)
  }

  /** removeEntry on the list: id leaves it, wherever it is. */
  function Without(list: seq<nat>, id: nat): (s: seq<nat>)
    ensures id !in s && forall x :: x in s <==> x in list && x != id
  {
    if list == [] then []
    else if list[0] == id then Without(list[1..], id)
    else [list[0]] + Without(list[1..], id)
  }

  /** getRemoveSize: the records that have expired at now. */
  function CountExpired(index: seq<Record>, now: int): (n: nat)
    ensures n <= |index| && forall i :: 0 <= i < n ==> index[i].expired <= now
  {
    if index == [] || index[0].expired > now then 0
    else 1 + CountExpired(index[1..], now)
  }

  /** The loop of trimToTimeout: each record's entry leaves the list, and
      the table loses the key the entry holds now. */
  function Evict<K, V>(st: State<K, V>, recs: seq<Record>): (r: State<K, V>)
    ensures r.cells == st.cells && r.index == st.index && r.timeout == st.timeout
    decreases |recs|
  {
    if recs == [] then st
    else
      var id := recs[0].id;
      var table := if id < |st.cells| then st.table - {st.cells[id].key} else st.table;
      Evict(st.(list := Without(st.list, id), table := table), recs[1..])
  }

  /** trimToTimeout. */
  function Trim<K, V>(st: State<K, V>, now: int): (r: State<K, V>)
    ensures r.cells == st.cells && r.timeout == st.timeout
  {
    if st.timeout <= 0 then st
    else
      var n := CountExpired(st.index, now);
      Evict(st, st.index[..n]).(index := st.index[n..])
  }

  /** put: an entry already in the table is taken out of the list and the
      index and reused, otherwise a new one is made; either way it goes to
      the head, into the table and (with a timeout) into the index. */
  function Put<K, V>(st: State<K, V>, key: K, value: V, now: int): (r: (State<K, V>, Option<V>))
    ensures key in r.0.table && |r.0.list| > 0 && r.0.list[0] == r.0.table[key]
  {
    var t := Trim(st, now);
    var reused := key in t.table && t.table[key] < |t.cells|;
    var id := if reused then t.table[key] else |t.cells|;
    var index := if reused && t.timeout > 0 then Delete(t.index, Record(t.cells[id].expired, id)) else t.index;
    var expired := if t.timeout > 0 then now + t.timeout else if reused then t.cells[id].expired else 0;
    var cells := if reused then t.cells[id := Cell(key, value, expired)] else t.cells + [Cell(key, value, expired)];
    var next := State(cells, [id] + Without(t.list, id), t.table[key := id],
                      if t.timeout > 0 then Insert(index, Record(expired, id)) else index, t.timeout);
    (next, if reused then Some(t.cells[id].value) else None)
  }

  /** get: a hit moves its entry to the head. */
  function Get<K, V>(st: State<K, V>, key: K, now: int): (r: (State<K, V>, Option<V>))
    ensures r.0.table == Trim(st, now).table && r.0.index == Trim(st, now).index
  {
    var t := Trim(st, now);
    if key in t.table && t.table[key] < |t.cells| then
      var id := t.table[key];
      (t.(list := [id] + Without(t.list, id)), Some(t.cells[id].value))
    else (t, None)
  }

  /** removeTail as written: the tail leaves the list and the table, and
      its record stays in the index. */
  function RemoveTail<K, V>(st: State<K, V>, now: int): (r: (State<K, V>, Option<Cell<K, V>>))
    ensures r.0.index == Trim(st, now).index
    ensures Trim(st, now).list == [] ==> r.1 == None
    ensures Trim(st, now).list != [] ==> r.0.list == Trim(st, now).list[..|Trim(st, now).list| - 1]
  {
    var t := Trim(st, now);
    if t.list == [] then (t, None)
    else
      var id := t.list[|t.list| - 1];
      var rest := t.list[..|t.list| - 1];
      if id < |t.cells| then
        (t.(list := rest, table := t.table - {t.cells[id].key}), Some(t.cells[id]))
      else (t.(list := rest), None)
  }

  /** removeTail as remove does it: the record leaves the index too. */
  function RemoveTailFixed<K, V>(st: State<K, V>, now: int): (r: (State<K, V>, Option<Cell<K, V>>))
    ensures Trim(st, now).list == [] ==> r.1 == None
    ensures Trim(st, now).list != [] ==> r.0.list == Trim(st, now).list[..|Trim(st, now).list| - 1]
  {
    var t := Trim(st, now);
    if t.list == [] then (t, None)
    else
      var id := t.list[|t.list| - 1];
      var rest := t.list[..|t.list| - 1];
      if id < |t.cells| then
        var index := if t.timeout > 0 then Delete(t.index, Record(t.cells[id].expired, id)) else t.index;
        (t.(list := rest, table := t.table - {t.cells[id].key}, index := index), Some(t.cells[id]))
      else (t.(list := rest), None)
  }

  // ---- put(1) at 0, removeTail at 1, put(1) at 5, get(2) at 12, put(1) at 13,
  //      with a timeout of 10 ----

  function S1(): State<int, string> {
    State([Cell(1, "a", 10)], [0], map[1 := 0], [Record(10, 0)], 10)
  }

  /** removeTail has unlinked entry 0, but its record (10, 0) stays. */
  function S2(): State<int, string> {
    State([Cell(1, "a", 10)], [], map[], [Record(10, 0)], 10)
  }

  /** The new put on 1 makes entry 1. */
  function S3(): State<int, string> {
    State([Cell(1, "a", 10), Cell(1, "b", 15)], [1], map[1 := 1], [Record(10, 0), Record(15, 1)], 10)
  }

  /** At 12 the stale record expires and takes key 1 out of the table. */
  function S4(): State<int, string> {
    State([Cell(1, "a", 10), Cell(1, "b", 15)], [1], map[], [Record(15, 1)], 10)
  }

  /** The put on 1 at 13 finds no entry for 1 and makes a second one. */
  function S5(): State<int, string> {
    State([Cell(1, "a", 10), Cell(1, "b", 15), Cell(1, "c", 23)], [2, 1], map[1 := 2],
          [Record(15, 1), Record(23, 2)], 10)
  }

  predicate Same(a: State<int, string>, b: State<int, string>) {
    a.cells == b.cells && a.list == b.list && a.table == b.table && a.index == b.index && a.timeout == b.timeout
  }

  lemma Step1()
    ensures Same(Put(Empty<int, string>(10), 1, "a", 0).0, S1())
  {
  }

  lemma Step2()
    ensures Same(RemoveTail(S1(), 1).0, S2()) && S2().index == [Record(10, 0)]
  {
  }

  lemma Step3()
    ensures Same(Put(S2(), 1, "b", 5).0, S3()) && S3().table == map[1 := 1] && S3().list == [1]
  {
  }

  lemma Step4()
    ensures Same(Get(S3(), 2, 12).0, S4()) && |S4().table| == 0 && |S4().list| == 1
  {
  }

  lemma Step5()
    ensures Same(Put(S4(), 1, "c", 13).0, S5()) && S5().list == [2, 1] && S5().cells[2].key == S5().cells[1].key == 1
  {
  }

  /** With a timeout of 10: put(1) at time 0, removeTail at 1, put(1)
      again at 5, then any get at 12. The record (10, first entry) that
      removeTail left behind expires at 12, and the trim removes key 1 from
      the table through the first entry, which still holds key 1; but key 1
      now maps to the second entry, which stays in the list. size() is then
      0 while listSize() is 1, and the next put on 1 makes a second entry
      for key 1. */
  lemma StaleRecordExample()
    ensures Same(Put(Empty<int, string>(10), 1, "a", 0).0, S1())
    ensures Same(RemoveTail(S1(), 1).0, S2()) && S2().index == [Record(10, 0)]
    ensures Same(Put(S2(), 1, "b", 5).0, S3()) && S3().table == map[1 := 1] && S3().list == [1]
    ensures Same(Get(S3(), 2, 12).0, S4()) && |S4().table| == 0 && |S4().list| == 1
    ensures Same(Put(S4(), 1, "c", 13).0, S5()) && S5().list == [2, 1] && S5().cells[2].key == S5().cells[1].key == 1
  {
    Step1();
    Step2();
    Step3();
    Step4();
    Step5();
  }

  function F2(): State<int, string> {
    State([Cell(1, "a", 10)], [], map[], [], 10)
  }

  function F3(): State<int, string> {
    State([Cell(1, "a", 10), Cell(1, "b", 15)], [1], map[1 := 1], [Record(15, 1)], 10)
  }

  /** The same calls with removeTail deleting the record: at 12 nothing
      expires, and key 1 still maps to the entry in the list. */
  lemma FixedExample()
    ensures var s2 := RemoveTailFixed(S1(), 1).0;
            var s3 := Put(s2, 1, "b", 5).0;
            var s4 := Get(s3, 2, 12).0;
            s2.index == [] && s4.list == [1] && s4.table == map[1 := 1]
  {
    assert Same(RemoveTailFixed(S1(), 1).0, F2());
    assert Same(Put(F2(), 1, "b", 5).0, F3());
  }
}
