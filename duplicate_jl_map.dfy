// LruMap.DuplicateJLMap: the timeout index of LruMap. A sorted array of long
// keys (expiry times, duplicates allowed) beside an array of values, where a
// removed value is first only marked DELETED and the arrays are compacted
// later by gc, in the manner of android.util.SparseArray.
module DuplicateJL {

  /** One value slot: null (never used or cleared by gc), DELETED, or a value. */
  datatype Slot<E> = Empty | Deleted | Live(value: E)

  /** A key slot and its value slot, side by side. */
  datatype Cell<E> = Cell(key: int, slot: Slot<E>)

  /** A live (key, value) record of the index. */
  datatype Timed<E> = Timed(key: int, value: E)

  /** The capacity the no-argument constructor asks for. */
  const InitialCapacity := 10

  function Cells<E>(ks: seq<int>, vs: seq<Slot<E>>): seq<Cell<E>>
    requires |ks| == |vs|
  {
    seq(|ks|, i requires 0 <= i < |ks| => Cell(ks[i], vs[i]))
  }

  function KeysOf<E>(c: seq<Cell<E>>): seq<int> {
    seq(|c|, i requires 0 <= i < |c| => c[i].key)
  }

  ghost predicate Sorted(ks: seq<int>) {
    forall i, j :: 0 <= i < j < |ks| ==> ks[i] <= ks[j]
  }

  ghost predicate NoDeleted<E>(c: seq<Cell<E>>) {
    forall i :: 0 <= i < |c| ==> c[i].slot != Deleted
  }

  ghost predicate NoEmpty<E>(c: seq<Cell<E>>) {
    forall i :: 0 <= i < |c| ==> c[i].slot != Empty
  }

  lemma {:induction false} KeysOfCells<E>(ks: seq<int>, vs: seq<Slot<E>>)
    requires |ks| == |vs|
    ensures KeysOf(Cells(ks, vs)) == ks
  {
  }

  // ---------------------------------------------------------------------
  // ContainerHelpers.binarySearch

  /** The binary search over ks[lo..hi]: the index of a matching key, or
      ~lo (that is -lo - 1) for the insertion point where the probe ended. */
  function Search(ks: seq<int>, lo: int, hi: int, key: int): (r: int)
    requires 0 <= lo <= hi + 1 <= |ks|
    ensures r >= 0 ==> lo <= r <= hi && ks[r] == key
    ensures r < 0 ==> lo <= -r - 1 <= hi + 1
    decreases hi + 1 - lo
  {
    if lo > hi then -lo - 1
    else
      var mid := (lo + hi) / 2;
      if ks[mid] < key then Search(ks, mid + 1, hi, key)
      else if ks[mid] > key then Search(ks, lo, mid - 1, key)
      else mid
  }

  /** The index put and delete start from: a match, or else ~result. */
  function InsertionPoint(ks: seq<int>, key: int): (i: int)
    ensures 0 <= i <= |ks|
  {
    var r := Search(ks, 0, |ks| - 1, key);
    if r < 0 then -r - 1 else r
  }

  /** On sorted keys a miss reports the exact point between smaller and
      larger keys. */
  lemma {:induction false} SearchBrackets(ks: seq<int>, lo: int, hi: int, key: int)
    requires Sorted(ks) && 0 <= lo <= hi + 1 <= |ks|
    requires forall j :: 0 <= j < lo ==> ks[j] < key
    requires forall j :: hi < j < |ks| ==> ks[j] > key
    ensures var r := Search(ks, lo, hi, key);
            r < 0 ==> (forall j :: 0 <= j < -r - 1 ==> ks[j] < key)
                      && (forall j :: -r - 1 <= j < |ks| ==> ks[j] > key)
    decreases hi + 1 - lo
  {
    if lo <= hi {
      var mid := (lo + hi) / 2;
      if ks[mid] < key {
        SearchBrackets(ks, mid + 1, hi, key);
      } else if ks[mid] > key {
        SearchBrackets(ks, lo, mid - 1, key);
      }
    }
  }

  /** binarySearch finds key exactly when it is present. */
  lemma {:induction false} SearchFinds(ks: seq<int>, key: int)
    requires Sorted(ks)
    ensures var r := Search(ks, 0, |ks| - 1, key);
            (r >= 0 <==> key in ks)
            && (r < 0 ==> (forall j :: 0 <= j < -r - 1 ==> ks[j] < key)
                          && (forall j :: -r - 1 <= j < |ks| ==> ks[j] > key))
  {
    SearchBrackets(ks, 0, |ks| - 1, key);
  }

  /** Inserting at the insertion point keeps the keys sorted. */
  lemma {:induction false} InsertionPointOrder(ks: seq<int>, key: int)
    requires Sorted(ks)
    ensures var i := InsertionPoint(ks, key);
            (forall j :: 0 <= j < i ==> ks[j] <= key) && (forall j :: i <= j < |ks| ==> ks[j] >= key)
  {
    SearchFinds(ks, key);
  }

  /** In sorted keys, a run of key that holds index and ends at lo and hi
      (exclusive) holds every occurrence of key. */
  lemma {:induction false} RunBounds(ks: seq<int>, index: int, lo: int, hi: int, key: int)
    requires Sorted(ks) && -1 <= lo < index < hi <= |ks| && ks[index] == key
    requires lo == -1 || ks[lo] != key
    requires hi == |ks| || ks[hi] != key
    ensures forall j :: 0 <= j < |ks| && ks[j] == key ==> lo < j < hi
  {

  }

  /** In sorted keys, the end of a run of l splits the keys at l. */
  lemma {:induction false} RunEnd(ks: seq<int>, index: int, l: int)
    requires Sorted(ks) && 0 < index <= |ks| && ks[index - 1] == l
    requires index == |ks| || ks[index] != l
    ensures forall j :: 0 <= j < index ==> ks[j] <= l
    ensures forall j :: index <= j < |ks| ==> ks[j] > l
  {
    if index < |ks| {
      assert ks[index - 1] <= ks[index];
    }
  }

  method BinarySearch(a: array<int>, size: int, key: int) returns (r: int)
    requires 0 <= size <= a.Length
    ensures r == Search(a[..size], 0, size - 1, key)
  {
    ghost var ks := a[..size];
    var lo, hi := 0, size - 1;
    while lo <= hi
      invariant 0 <= lo <= hi + 1 <= size
      invariant Search(ks, lo, hi, key) == Search(ks, 0, size - 1, key)
      decreases hi + 1 - lo
    {
      var mid := (lo + hi) / 2;
      var midVal := a[mid];
      assert midVal == ks[mid];
      if midVal < key {
        lo := mid + 1;
      } else if midVal > key {
        hi := mid - 1;
      } else {
        return mid;
      }
    }
    return -lo - 1;
  }

  // ---------------------------------------------------------------------
  // The content and gc

  /** The live records, in array order. */
  function Records<E>(c: seq<Cell<E>>): seq<Timed<E>> {
    if |c| == 0 then []
    else Records(c[..|c| - 1])
         + (if c[|c| - 1].slot.Live? then [Timed(c[|c| - 1].key, c[|c| - 1].slot.value)] else [])
  }

  /** gc: the cells that are not DELETED, in order. */
  function Compact<E>(c: seq<Cell<E>>): seq<Cell<E>> {
    if |c| == 0 then []
    else Compact(c[..|c| - 1]) + (if c[|c| - 1].slot == Deleted then [] else [c[|c| - 1]])
  }

  lemma {:induction false} RecordsConcat<E>(a: seq<Cell<E>>, b: seq<Cell<E>>)
    ensures Records(a + b) == Records(a) + Records(b)
    decreases |b|
  {
    if |b| == 0 {
      assert a + b == a;
    } else {
      assert (a + b)[..|a + b| - 1] == a + b[..|b| - 1];
      RecordsConcat(a, b[..|b| - 1]);
    }
  }

  /** Without DELETED and null slots every cell is one live record. */
  lemma {:induction false} RecordsClean<E>(c: seq<Cell<E>>)
    requires NoDeleted(c) && NoEmpty(c)
    ensures |Records(c)| == |c|
    ensures forall i :: 0 <= i < |c| ==> Records(c)[i] == Timed(c[i].key, c[i].slot.value)
  {
    if |c| > 0 {
      RecordsClean(c[..|c| - 1]);
    }
  }

  /** A record of the content is a live cell. */
  lemma {:induction false} RecordsMember<E>(c: seq<Cell<E>>, key: int, value: E)
    ensures Timed(key, value) in Records(c) ==> Cell(key, Live(value)) in c
  {
    if |c| > 0 {
      var init := c[..|c| - 1];
      RecordsMember(init, key, value);
      assert c == init + [c[|c| - 1]];
    }
  }

  /** gc keeps the content and the order, and leaves no DELETED slot. */
  lemma {:induction false} CompactProps<E>(c: seq<Cell<E>>)
    ensures Records(Compact(c)) == Records(c)
    ensures NoDeleted(Compact(c))
    ensures NoEmpty(c) ==> NoEmpty(Compact(c))
    ensures Sorted(KeysOf(c)) ==> Sorted(KeysOf(Compact(c)))
  {
    CompactRecords(c);
    CompactSlots(c);
    if Sorted(KeysOf(c)) {
      CompactSorted(c);
    }
  }

  lemma {:induction false} CompactRecords<E>(c: seq<Cell<E>>)
    ensures Records(Compact(c)) == Records(c)
  {
    if |c| > 0 {
      var init := c[..|c| - 1];
      var last := c[|c| - 1];
      CompactRecords(init);
      var tail: seq<Cell<E>> := if last.slot == Deleted then [] else [last];
      RecordsConcat(Compact(init), tail);
      assert [last][..0] == [];
    }
  }

  /** Every cell gc keeps was a cell before, and none is DELETED. */
  lemma {:induction false} CompactSlots<E>(c: seq<Cell<E>>)
    ensures NoDeleted(Compact(c))
    ensures forall x :: x in Compact(c) ==> x in c
    ensures NoEmpty(c) ==> NoEmpty(Compact(c))
  {
    if |c| > 0 {
      var init := c[..|c| - 1];
      CompactSlots(init);
      assert c == init + [c[|c| - 1]];
      forall x | x in Compact(c) ensures x in c {
        if x in Compact(init) {
          assert x in init;
        }
      }
      if NoEmpty(c) {
        assert NoEmpty(init);
        var d := Compact(c);
        forall i | 0 <= i < |d| ensures d[i].slot != Empty {
          assert d[i] in c;
        }
      }
    }
  }

  lemma {:induction false} CompactSorted<E>(c: seq<Cell<E>>)
    requires Sorted(KeysOf(c))
    ensures Sorted(KeysOf(Compact(c)))
  {
    if |c| > 0 {
      var init := c[..|c| - 1];
      var last := c[|c| - 1];
      assert Sorted(KeysOf(init)) by {
        forall i, j | 0 <= i < j < |KeysOf(init)| ensures KeysOf(init)[i] <= KeysOf(init)[j] {
          assert KeysOf(init)[i] == KeysOf(c)[i] && KeysOf(init)[j] == KeysOf(c)[j];
        }
      }
      CompactSorted(init);
      CompactSlots(init);
      var d := Compact(c);
      var e := Compact(init);
      forall i, j | 0 <= i < j < |d| ensures KeysOf(d)[i] <= KeysOf(d)[j] {
        if j < |e| {
          assert d[i] == e[i] && d[j] == e[j];
          assert KeysOf(e)[i] <= KeysOf(e)[j];
        } else {
          assert d[j] == last;
          assert d[i] == e[i] && e[i] in e;
          var m :| 0 <= m < |init| && init[m] == d[i];
          assert KeysOf(c)[m] <= KeysOf(c)[|c| - 1];
        }
      }
    }
  }

  lemma {:induction false} CompactClean<E>(c: seq<Cell<E>>)
    requires NoDeleted(c)
    ensures Compact(c) == c
  {
    if |c| > 0 {
      var init := c[..|c| - 1];
      assert NoDeleted(init) by {
        forall i | 0 <= i < |init| ensures init[i].slot != Deleted {
          assert init[i] == c[i];
        }
      }
      CompactClean(init);
      assert c[|c| - 1].slot != Deleted;
      assert c == init + [c[|c| - 1]];
    }
  }

  // ---------------------------------------------------------------------
  // put

  /** put's first step: reuse the DELETED slot at the insertion point. */
  ghost predicate Reuses<E>(c: seq<Cell<E>>, key: int) {
    var i := InsertionPoint(KeysOf(c), key);
    i < |c| && c[i].slot == Deleted
  }

  /** The cells after put(key, value); gcFirst says whether the arrays were
      full with garbage pending, which makes put collect before inserting. */
  ghost function PutCells<E>(c: seq<Cell<E>>, gcFirst: bool, key: int, value: E): seq<Cell<E>> {
    if Reuses(c, key) then c[InsertionPoint(KeysOf(c), key) := Cell(key, Live(value))]
    else
      var g := if gcFirst then Compact(c) else c;
      var j := InsertionPoint(KeysOf(g), key);
      g[..j] + [Cell(key, Live(value))] + g[j..]
  }

  lemma {:induction false} InsertSorted<E>(g: seq<Cell<E>>, key: int, value: E)
    requires Sorted(KeysOf(g))
    ensures var j := InsertionPoint(KeysOf(g), key);
            Sorted(KeysOf(g[..j] + [Cell(key, Live(value))] + g[j..]))
  {
    var j := InsertionPoint(KeysOf(g), key);
    InsertionPointOrder(KeysOf(g), key);
    var d := g[..j] + [Cell(key, Live(value))] + g[j..];
    forall a, b | 0 <= a < b < |d| ensures KeysOf(d)[a] <= KeysOf(d)[b] {
      if b < j {
        assert d[a] == g[a] && d[b] == g[b];
        assert KeysOf(g)[a] <= KeysOf(g)[b];
      } else if a > j {
        assert d[a] == g[a - 1] && d[b] == g[b - 1];
        assert KeysOf(g)[a - 1] <= KeysOf(g)[b - 1];
      } else if a == j {
        assert d[b] == g[b - 1] && KeysOf(g)[b - 1] >= key;
      } else if b == j {
        assert d[a] == g[a] && KeysOf(g)[a] <= key;
      } else {
        assert d[a] == g[a] && d[b] == g[b - 1];
        assert KeysOf(g)[a] <= key <= KeysOf(g)[b - 1];
      }
    }
  }

  /** after is before with t inserted at one place. */
  ghost predicate InsertedOnce<T>(before: seq<T>, after: seq<T>, t: T) {
    exists i :: 0 <= i <= |before| && after == before[..i] + [t] + before[i..]
  }

  /** Records of a sequence split around one cell. */
  lemma {:induction false} RecordsAround<E>(a: seq<Cell<E>>, x: Cell<E>, b: seq<Cell<E>>)
    ensures Records(a + [x] + b) == Records(a) + Records([x]) + Records(b)
  {
    RecordsConcat(a + [x], b);
    RecordsConcat(a, [x]);
  }

  lemma {:induction false} RecordsSingle<E>(x: Cell<E>)
    ensures Records([x]) == if x.slot.Live? then [Timed(x.key, x.slot.value)] else []
  {
    assert [x][..0] == [];
  }

  /** Putting a live cell between a and b adds its record between theirs. */
  lemma {:induction false} InsertRecords<E>(a: seq<Cell<E>>, b: seq<Cell<E>>, dropped: seq<Cell<E>>, key: int, value: E)
    requires Records(dropped) == []
    ensures var k := |Records(a)|;
            k <= |Records(a + dropped + b)|
            && Records(a + [Cell(key, Live(value))] + b)
               == Records(a + dropped + b)[..k] + [Timed(key, value)] + Records(a + dropped + b)[k..]
  {
    RecordsAround(a, Cell(key, Live(value)), b);
    RecordsSingle(Cell(key, Live(value)));
    RecordsConcat(a + dropped, b);
    RecordsConcat(a, dropped);
  }

  /** The cell-level shape facts of a put: no null slot appears, and no
      DELETED one unless there was one already. */
  lemma {:induction false} InsertShape<E>(a: seq<Cell<E>>, b: seq<Cell<E>>, key: int, value: E)
    requires NoEmpty(a + b)
    ensures NoEmpty(a + [Cell(key, Live(value))] + b)
    ensures NoDeleted(a + b) ==> NoDeleted(a + [Cell(key, Live(value))] + b)
  {
    var d := a + [Cell(key, Live(value))] + b;
    forall x | 0 <= x < |d| && x != |a| ensures d[x] in a + b {
      if x < |a| { assert d[x] == (a + b)[x]; } else { assert d[x] == (a + b)[x - 1]; }
    }
    forall x | 0 <= x < |d| ensures d[x].slot != Empty {
      if x != |a| {
        var m :| 0 <= m < |a + b| && (a + b)[m] == d[x];
      }
    }
    if NoDeleted(a + b) {
      forall x | 0 <= x < |d| ensures d[x].slot != Deleted {
        if x != |a| {
          var m :| 0 <= m < |a + b| && (a + b)[m] == d[x];
        }
      }
    }
  }

  /** put in the reuse case keeps the keys sorted. */
  lemma {:induction false} ReuseSorted<E>(c: seq<Cell<E>>, key: int, value: E)
    requires Sorted(KeysOf(c)) && Reuses(c, key)
    ensures Sorted(KeysOf(PutCells(c, false, key, value)))
  {
    var i := InsertionPoint(KeysOf(c), key);
    var d := c[i := Cell(key, Live(value))];
    InsertionPointOrder(KeysOf(c), key);
    forall a, b | 0 <= a < b < |d| ensures KeysOf(d)[a] <= KeysOf(d)[b] {
      assert KeysOf(c)[a] <= KeysOf(c)[b];
    }
  }

  /** put keeps the keys sorted and adds exactly one record, Timed(key, value),
      to the content, keeping the order of the others. */
  lemma {:induction false} PutCellsProps<E>(c: seq<Cell<E>>, gcFirst: bool, key: int, value: E)
    requires Sorted(KeysOf(c)) && NoEmpty(c)
    ensures var d := PutCells(c, gcFirst, key, value);
            Sorted(KeysOf(d)) && NoEmpty(d)
            && ((NoDeleted(c) || (gcFirst && !Reuses(c, key))) ==> NoDeleted(d))
            && InsertedOnce(Records(c), Records(d), Timed(key, value))
  {
    if Reuses(c, key) {
      ReuseProps(c, key, value);
      assert PutCells(c, gcFirst, key, value) == PutCells(c, false, key, value);
    } else {
      var g := if gcFirst then Compact(c) else c;
      CompactProps(c);
      InsertProps(g, key, value);
    }
  }

  /** put into the DELETED slot at the insertion point. */
  lemma {:induction false} ReuseProps<E>(c: seq<Cell<E>>, key: int, value: E)
    requires Sorted(KeysOf(c)) && NoEmpty(c) && Reuses(c, key)
    ensures var d := PutCells(c, false, key, value);
            Sorted(KeysOf(d)) && NoEmpty(d) && !NoDeleted(c)
            && InsertedOnce(Records(c), Records(d), Timed(key, value))
  {
    var d := PutCells(c, false, key, value);
    var i := InsertionPoint(KeysOf(c), key);
    ReuseSorted(c, key, value);
    assert c == c[..i] + [c[i]] + c[i + 1..];
    assert d == c[..i] + [Cell(key, Live(value))] + c[i + 1..];
    RecordsSingle(c[i]);
    InsertRecords(c[..i], c[i + 1..], [c[i]], key, value);
    var k := |Records(c[..i])|;
    assert Records(d) == Records(c)[..k] + [Timed(key, value)] + Records(c)[k..];
    var rest := c[..i] + c[i + 1..];
    assert NoEmpty(rest) by {
      forall x | 0 <= x < |rest| ensures rest[x].slot != Empty {
        if x < i { assert rest[x] == c[x]; } else { assert rest[x] == c[x + 1]; }
      }
    }
    InsertShape(c[..i], c[i + 1..], key, value);
    assert NoEmpty(d);
    assert !NoDeleted(c) by {
      assert c[i].slot == Deleted;
    }
    assert InsertedOnce(Records(c), Records(d), Timed(key, value));
  }

  /** put by insertion at the insertion point of g. */
  lemma {:induction false} InsertProps<E>(g: seq<Cell<E>>, key: int, value: E)
    requires Sorted(KeysOf(g)) && NoEmpty(g)
    ensures var j := InsertionPoint(KeysOf(g), key);
            var d := g[..j] + [Cell(key, Live(value))] + g[j..];
            Sorted(KeysOf(d)) && NoEmpty(d) && (NoDeleted(g) ==> NoDeleted(d))
            && InsertedOnce(Records(g), Records(d), Timed(key, value))
  {
    var j := InsertionPoint(KeysOf(g), key);
    var d := g[..j] + [Cell(key, Live(value))] + g[j..];
    InsertSorted(g, key, value);
    var none: seq<Cell<E>> := [];
    assert g == g[..j] + none + g[j..];
    InsertRecords(g[..j], g[j..], none, key, value);
    var k := |Records(g[..j])|;
    assert Records(d) == Records(g)[..k] + [Timed(key, value)] + Records(g)[k..];
    assert g[..j] + g[j..] == g;
    InsertShape(g[..j], g[j..], key, value);
  }


  // ---------------------------------------------------------------------
  // delete, removeAt and removeAtRange

  /** Marking one live slot DELETED removes exactly its record from the content. */
  lemma {:induction false} MarkDeletedRecords<E>(c: seq<Cell<E>>, j: int)
    requires 0 <= j < |c| && c[j].slot.Live?
    ensures var k := |Records(c[..j])|;
            k < |Records(c)| && Records(c)[k] == Timed(c[j].key, c[j].slot.value)
            && Records(c[j := Cell(c[j].key, Deleted)]) == Records(c)[..k] + Records(c)[k + 1..]
  {
    var dead := Cell(c[j].key, Deleted);
    assert c == c[..j] + [c[j]] + c[j + 1..];
    assert c[j := dead] == c[..j] + [dead] + c[j + 1..];
    RecordsConcat(c[..j] + [c[j]], c[j + 1..]);
    RecordsConcat(c[..j], [c[j]]);
    RecordsConcat(c[..j] + [dead], c[j + 1..]);
    RecordsConcat(c[..j], [dead]);
    assert [c[j]][..0] == [] && [dead][..0] == [];
  }

  /** removeAtRange's effect on the cells: [lo, hi) marked DELETED. */
  function MarkRange<E>(c: seq<Cell<E>>, lo: int, hi: int): seq<Cell<E>> {
    seq(|c|, i requires 0 <= i < |c| => if lo <= i < hi then Cell(c[i].key, Deleted) else c[i])
  }

  /** Deleting the first n records of a collected index leaves the rest. */
  lemma {:induction false} MarkPrefixRecords<E>(c: seq<Cell<E>>, n: int)
    requires NoDeleted(c) && NoEmpty(c) && 0 <= n <= |c|
    ensures |Records(c)| == |c| && Records(MarkRange(c, 0, n)) == Records(c)[n..]
  {
    var m := MarkRange(c, 0, n);
    var dead := m[..n];
    assert m == dead + c[n..] by {
      forall i | 0 <= i < |m| ensures m[i] == (dead + c[n..])[i] {
        if i >= n {
          assert m[i] == c[i];
        }
      }
    }
    assert forall i :: 0 <= i < |dead| ==> dead[i].slot == Deleted;
    RecordsDead(dead);
    RecordsConcat(dead, c[n..]);
    var front := c[..n];
    assert c == front + c[n..];
    RecordsConcat(front, c[n..]);
    assert NoDeleted(front) && NoEmpty(front) by {
      forall i | 0 <= i < |front| ensures front[i] == c[i] { }
    }
    RecordsClean(front);
    RecordsClean(c);
    assert Records(c)[n..] == Records(c[n..]);
  }

  lemma {:induction false} RecordsDead<E>(c: seq<Cell<E>>)
    requires forall i :: 0 <= i < |c| ==> c[i].slot == Deleted
    ensures Records(c) == []
  {
    if |c| > 0 {
      RecordsDead(c[..|c| - 1]);
    }
  }

  // ---------------------------------------------------------------------
  // The index, in place

  /** ArrayUtils.insert's growth rule for a full array. */
  function GrowSize(currentSize: int): (n: int)
    ensures n > currentSize
  {
    if currentSize <= 4 then 8 else currentSize * 2
  }

  function Min(a: int, b: int): int {
    if a < b then a else b
  }

  /** getRemoveSize after its gc: the binary search for l, then past the
      run of keys equal to l. */
  method CountExpired(keys: array<int>, size: int, l: int) returns (r: int)
    requires 0 <= size <= keys.Length && Sorted(keys[..size])
    ensures 0 <= r <= size
    ensures forall j :: 0 <= j < r ==> keys[j] <= l
    ensures forall j :: r <= j < size ==> keys[j] > l
  {
    ghost var ks := keys[..size];
    assert forall j :: 0 <= j < size ==> keys[j] == ks[j];
    var index := BinarySearch(keys, size, l);
    SearchFinds(ks, l);
    if index < 0 {
      index := -index - 1;
      if index > size || index <= 0 {
        return 0;
      }
    } else {
      index := index + 1;
      while index < size && l == keys[index]
        invariant 0 < index <= size && keys[index - 1] == l
      {
        index := index + 1;
      }
      RunEnd(ks, index, l);
    }
    return index;
  }

  /** delete's two scans: from the binary search's hit up, then down,
      through the run of equal keys within [0, size), for the slot
      holding o. Returns that slot, or -1. */
  method FindSlot<E(==)>(keys: array<int>, values: array<Slot<E>>, size: int, key: int, o: E)
    returns (r: int)
    requires 0 <= size <= keys.Length && size <= values.Length && Sorted(keys[..size])
    ensures -1 <= r < size
    ensures r >= 0 ==> keys[r] == key && values[r] == Live(o)
    ensures r == -1 <==> forall j :: 0 <= j < size ==> !(keys[j] == key && values[j] == Live(o))
  {
    ghost var ks := keys[..size];
    assert forall j :: 0 <= j < size ==> keys[j] == ks[j];
    var index := BinarySearch(keys, size, key);
    SearchFinds(ks, key);
    if index < 0 {
      return -1;
    }
    var i := index;
    while i < size && keys[i] == key
      invariant index <= i <= size
      invariant forall j :: index <= j < i ==> values[j] != Live(o)
    {
      if values[i] == Live(o) {
        return i;
      }
      i := i + 1;
    }
    ghost var up := i;
    i := index - 1;
    while i >= 0 && keys[i] == key
      invariant -1 <= i < index
      invariant forall j :: i < j < index ==> values[j] != Live(o)
    {
      if values[i] == Live(o) {
        return i;
      }
      i := i - 1;
    }
    RunBounds(ks, index, i, up, key);
    return -1;
  }

  /** gc's loop: moves the cells that are not DELETED to the front, in
      order, and clears the value slots they leave. */
  method Collect<E>(keys: array<int>, values: array<Slot<E>>, n: int) returns (o: int)
    requires 0 <= n <= keys.Length && n <= values.Length
    modifies keys, values
    ensures 0 <= o <= n
    ensures Cells(keys[..o], values[..o]) == Compact(old(Cells(keys[..n], values[..n])))
  {
    ghost var c0 := Cells(keys[..n], values[..n]);
    o := 0;
    var i := 0;
    while i < n
      invariant 0 <= o <= i <= n
      invariant Cells(keys[..o], values[..o]) == Compact(c0[..i])
      invariant forall j :: i <= j < n ==> keys[j] == c0[j].key && values[j] == c0[j].slot
    {
      var val := values[i];
      assert c0[..i + 1] == c0[..i] + [c0[i]];
      if val != Deleted {
        if i != o {
          keys[o] := keys[i];
          values[o] := val;
          values[i] := Empty;
        }
        assert Cells(keys[..o + 1], values[..o + 1]) == Cells(keys[..o], values[..o]) + [c0[i]];
        o := o + 1;
      }
      i := i + 1;
    }
    assert c0[..n] == c0;
  }

  /** Inserting a key and its slot at the same index inserts their cell there. */
  lemma {:induction false} CellsInsert<E>(ks: seq<int>, vs: seq<Slot<E>>, i: int, k: int, v: Slot<E>)
    requires |ks| == |vs| && 0 <= i <= |ks|
    ensures Cells(ks[..i] + [k] + ks[i..], vs[..i] + [v] + vs[i..])
            == Cells(ks, vs)[..i] + [Cell(k, v)] + Cells(ks, vs)[i..]
  {
  }

  /** Overwriting a key and its slot at the same index overwrites their cell. */
  lemma {:induction false} CellsUpdate<E>(ks: seq<int>, vs: seq<Slot<E>>, i: int, k: int, v: Slot<E>)
    requires |ks| == |vs| && 0 <= i < |ks|
    ensures Cells(ks[i := k], vs[i := v]) == Cells(ks, vs)[i := Cell(k, v)]
  {
  }

  /** ArrayUtils.insert on a key array with room: shifts a[index..size) up one. */
  method InsertKeys(a: array<int>, size: int, index: int, key: int)
    requires 0 <= index <= size < a.Length
    modifies a
    ensures a[..size + 1] == old(a[..size])[..index] + [key] + old(a[..size])[index..]
  {
    forall j | index < j <= size {
      a[j] := a[j - 1];
    }
    a[index] := key;
  }

  /** The same on a value array. */
  method InsertSlots<E>(a: array<Slot<E>>, size: int, index: int, s: Slot<E>)
    requires 0 <= index <= size < a.Length
    modifies a
    ensures a[..size + 1] == old(a[..size])[..index] + [s] + old(a[..size])[index..]
  {
    forall j | index < j <= size {
      a[j] := a[j - 1];
    }
    a[index] := s;
  }

  /** ArrayUtils.insert into a grown key array b. */
  method CopyInsertKeys(a: array<int>, b: array<int>, size: int, index: int, key: int)
    requires 0 <= index <= size <= a.Length && size < b.Length && a != b
    modifies b
    ensures b[..size + 1] == a[..size][..index] + [key] + a[..size][index..]
  {
    forall j | 0 <= j < index {
      b[j] := a[j];
    }
    forall j | index < j <= size {
      b[j] := a[j - 1];
    }
    b[index] := key;
  }

  /** ArrayUtils.insert into a grown value array b. */
  method CopyInsertSlots<E>(a: array<Slot<E>>, b: array<Slot<E>>, size: int, index: int, s: Slot<E>)
    requires 0 <= index <= size <= a.Length && size < b.Length && a != b
    modifies b
    ensures b[..size + 1] == a[..size][..index] + [s] + a[..size][index..]
  {
    forall j | 0 <= j < index {
      b[j] := a[j];
    }
    forall j | index < j <= size {
      b[j] := a[j - 1];
    }
    b[index] := s;
  }

  class DuplicateJLMap<E(==)> {
    var keys: array<int>
    var values: array<Slot<E>>
    var size: int
    /** mGarbage: some slot below size may be DELETED. */
    var garbage: bool
    ghost var Repr: set<object>

    ghost predicate Valid()
      reads this, Repr
    {
      Repr == {this, keys, values}
      && keys.Length == values.Length && 0 <= size <= keys.Length
      && Sorted(keys[..size])
      && NoEmpty(View())
      && (!garbage ==> NoDeleted(View()))
    }

    /** The first size slots of both arrays. */
    ghost function View(): seq<Cell<E>>
      reads this, keys, values
      requires 0 <= size <= keys.Length == values.Length
    {
      Cells(keys[..size], values[..size])
    }

    /** The live (expiry, value) records in key order: the index's content. */
    ghost function Content(): seq<Timed<E>>
      reads this, keys, values
      requires 0 <= size <= keys.Length == values.Length
    {
      Records(View())
    }

    constructor ()
      ensures Valid() && fresh(Repr)
      ensures View() == [] && Content() == [] && !garbage && keys.Length == InitialCapacity
    {
      keys := new int[InitialCapacity](_ => 0);
      values := new Slot<E>[InitialCapacity](_ => Empty);
      size := 0;
      garbage := false;
      Repr := {this, keys, values};
    }

    /** Compacts the live slots to the front, in order. */
    method Gc()
      requires Valid()
      modifies this, keys, values
      ensures Valid() && Repr == old(Repr) && keys == old(keys) && values == old(values)
      ensures !garbage && View() == Compact(old(View())) && Content() == old(Content())
    {
      ghost var c0 := View();
      var o := Collect(keys, values, size);
      garbage := false;
      size := o;
      CompactProps(c0);
      KeysOfCells(keys[..size], values[..size]);
      KeysOfCells(old(keys[..size]), old(values[..size]));
    }

    /** Marks the slot holding (key, o) DELETED, if there is one: the record
        Timed(key, o) leaves the content and the rest keep their order. */
    method Delete(key: int, o: E) returns (ghost k: int)
      requires Valid()
      modifies Repr
      ensures Valid() && Repr == old(Repr) && keys == old(keys) && values == old(values)
      ensures size == old(size)
      ensures Timed(key, o) in old(Content()) ==>
        garbage && 0 <= k < |old(Content())| && old(Content())[k] == Timed(key, o)
        && Content() == old(Content())[..k] + old(Content())[k + 1..]
      ensures Timed(key, o) !in old(Content()) ==> View() == old(View()) && garbage == old(garbage)
    {
      ghost var c0 := View();
      var j := FindSlot(keys, values, size, key, o);
      k := 0;
      if j >= 0 {
        k := |Records(c0[..j])|;
        assert c0[j] == Cell(key, Live(o));
        values[j] := Deleted;
        garbage := true;
        assert View() == c0[j := Cell(key, Deleted)];
        MarkDeletedRecords(c0, j);
        assert Sorted(keys[..size]);
      } else {
        RecordsMember(c0, key, o);
        assert Cell(key, Live(o)) !in c0;
      }
    }

    /** ArrayUtils.insert on both arrays, then mSize++. */
    method InsertAt(index: int, key: int, value: E)
      requires Repr == {this, keys, values} && keys.Length == values.Length
      requires 0 <= size <= keys.Length && 0 <= index <= size
      modifies this, keys, values
      ensures Repr == {this, keys, values} && fresh(Repr - old(Repr))
      ensures keys.Length == values.Length && size == old(size) + 1 <= keys.Length
      ensures old(size) < old(keys.Length) ==> keys.Length == old(keys.Length)
      ensures View() == old(View())[..index] + [Cell(key, Live(value))] + old(View())[index..]
      ensures garbage == old(garbage)
    {
      ghost var ks0 := keys[..size];
      ghost var vs0 := values[..size];
      if size < keys.Length {
        InsertKeys(keys, size, index, key);
        InsertSlots(values, size, index, Live(value));
      } else {
        var n := GrowSize(size);
        var newKeys := new int[n](_ => 0);
        var newValues := new Slot<E>[n](_ => Empty);
        CopyInsertKeys(keys, newKeys, size, index, key);
        CopyInsertSlots(values, newValues, size, index, Live(value));
        keys, values := newKeys, newValues;
        Repr := {this, keys, values};
      }
      size := size + 1;
      CellsInsert(ks0, vs0, index, key, Live(value));
    }

    /** Adds (key, value) at its sorted place: into the DELETED slot at the
        insertion point if there is one, else by inserting, after a gc when
        the arrays are full and garbage is pending. */
    method Put(key: int, value: E)
      requires Valid()
      modifies Repr
      ensures Valid() && fresh(Repr - old(Repr))
      ensures View() == PutCells(old(View()), old(garbage) && old(size) >= old(keys.Length), key, value)
      ensures old(size) < old(keys.Length) ==> keys.Length == old(keys.Length)
      ensures InsertedOnce(old(Content()), Content(), Timed(key, value))
    {
      var index := BinarySearch(keys, size, key);
      if index < 0 {
        index := -index - 1;
      }
      if index < size && values[index] == Deleted {
        ReuseAt(index, key, value);
        return;
      }
      InsertNew(index, key, value);
    }

    /** put's first case: the slot at the insertion point is DELETED and
        takes the new record in place. */
    method ReuseAt(index: int, key: int, value: E)
      requires Valid() && index == InsertionPoint(keys[..size], key)
      requires index < size && values[index] == Deleted
      modifies this, keys, values
      ensures Valid() && Repr == old(Repr) && keys == old(keys) && values == old(values)
      ensures View() == PutCells(old(View()), old(garbage) && old(size) >= old(keys.Length), key, value)
      ensures InsertedOnce(old(Content()), Content(), Timed(key, value))
    {
      ghost var c0 := View();
      ghost var ks0 := keys[..size];
      ghost var vs0 := values[..size];
      KeysOfCells(ks0, vs0);
      assert Reuses(c0, key);
      keys[index] := key;
      values[index] := Live(value);
      assert keys[..size] == ks0[index := key] && values[..size] == vs0[index := Live(value)];
      CellsUpdate(ks0, vs0, index, key, Live(value));
      ReuseProps(c0, key, value);
      KeysOfCells(keys[..size], values[..size]);
    }

    /** put's gc before an insertion into full arrays, and the search
        again, since the indices moved. */
    method CollectAndSearch(key: int) returns (index: int)
      requires Valid()
      modifies this, keys, values
      ensures Valid() && Repr == old(Repr) && keys == old(keys) && values == old(values)
      ensures !garbage && View() == Compact(old(View())) && Content() == old(Content())
      ensures index == InsertionPoint(keys[..size], key)
    {
      Gc();
      index := BinarySearch(keys, size, key);
      if index < 0 {
        index := -index - 1;
      }
    }

    /** The rest of put when the slot at the insertion point is not DELETED:
        a gc first when the arrays are full with garbage pending (and a new
        search, since the indices moved), then an insertion that shifts the
        later slots up, growing the arrays if they are full. */
    method InsertNew(index: int, key: int, value: E)
      requires Valid() && index == InsertionPoint(keys[..size], key)
      requires !(index < size && values[index] == Deleted)
      modifies Repr
      ensures Valid() && fresh(Repr - old(Repr))
      ensures View() == PutCells(old(View()), old(garbage) && old(size) >= old(keys.Length), key, value)
      ensures old(size) < old(keys.Length) ==> keys.Length == old(keys.Length)
      ensures InsertedOnce(old(Content()), Content(), Timed(key, value))
    {
      ghost var c0 := View();
      ghost var gcFirst := garbage && size >= keys.Length;
      KeysOfCells(keys[..size], values[..size]);
      assert !Reuses(c0, key);
      var index := index;
      if garbage && size >= keys.Length {
        index := CollectAndSearch(key);
      }
      ghost var g := View();
      KeysOfCells(keys[..size], values[..size]);
      assert g == (if gcFirst then Compact(c0) else c0);
      assert Records(g) == Records(c0);
      ghost var r := Content();
      InsertShifted(index, key, value);
      assert View() == PutCells(c0, gcFirst, key, value);
      assert InsertedOnce(r, Content(), Timed(key, value));
    }

    /** The insertion proper: the slots from index on shift up by one and the
        new record takes slot index, the arrays growing if they are full. */
    method InsertShifted(index: int, key: int, value: E)
      requires Valid() && index == InsertionPoint(KeysOf(View()), key)
      modifies Repr
      ensures Valid() && fresh(Repr - old(Repr)) && garbage == old(garbage)
      ensures View() == old(View())[..index] + [Cell(key, Live(value))] + old(View())[index..]
      ensures old(size) < old(keys.Length) ==> keys.Length == old(keys.Length)
      ensures InsertedOnce(old(Content()), Content(), Timed(key, value))
    {
      ghost var g := View();
      InsertProps(g, key, value);
      InsertAt(index, key, value);
      ghost var d := View();
      KeysOfCells(keys[..size], values[..size]);
      assert Sorted(keys[..size]) && NoEmpty(d) && (!garbage ==> NoDeleted(d));
    }

    /** The value at index, after a gc if garbage is pending. */
    method ValueAt(index: int) returns (e: E)
      requires Valid() && 0 <= index < |Content()|
      modifies Repr
      ensures Valid() && Repr == old(Repr) && keys == old(keys) && values == old(values) && !garbage
      ensures View() == (if old(garbage) then Compact(old(View())) else old(View()))
      ensures Content() == old(Content()) && e == Content()[index].value
    {
      if garbage {
        Gc();
      }
      e := Peek(index);
    }

    /** valueAt on a map without pending garbage: a plain read of the slot. */
    function Peek(index: int): (e: E)
      requires Valid() && !garbage && 0 <= index < |Content()|
      reads this, keys, values
      ensures e == Content()[index].value
    {
      RecordsClean(View());
      assert values[index] == View()[index].slot;
      values[index].value
    }

    /** Marks one slot DELETED, setting garbage if it was not already. */
    method RemoveAt(index: int)
      requires Valid() && 0 <= index < values.Length
      modifies Repr
      ensures Valid() && Repr == old(Repr) && keys == old(keys) && values == old(values)
      ensures size == old(size) && View() == MarkRange(old(View()), index, index + 1)
      ensures garbage == (old(garbage) || old(values[index]) != Deleted)
    {
      if values[index] != Deleted {
        values[index] := Deleted;
        garbage := true;
      }
      assert View() == MarkRange(old(View()), index, index + 1);
    }

    /** Marks the slots [index, min(size, index + n)) DELETED. */
    method RemoveAtRange(index: int, n: int)
      requires Valid() && 0 <= index
      modifies Repr
      ensures Valid() && Repr == old(Repr) && keys == old(keys) && values == old(values)
      ensures size == old(size)
      ensures View() == MarkRange(old(View()), index, Min(old(size), index + n))
      ensures garbage == (old(garbage) || exists i :: index <= i < Min(old(size), index + n)
                                                      && old(View())[i].slot != Deleted)
    {
      ghost var c0 := View();
      var end := Min(size, index + n);
      var i := index;
      while i < end
        invariant index <= i && (i <= end || i == index)
        invariant Valid() && Repr == old(Repr) && keys == old(keys) && values == old(values)
        invariant size == old(size)
        invariant View() == MarkRange(c0, index, i)
        invariant garbage == (old(garbage) || exists j :: index <= j < i && c0[j].slot != Deleted)
      {
        assert values[i] == View()[i].slot == c0[i].slot;
        RemoveAt(i);
        assert MarkRange(MarkRange(c0, index, i), i, i + 1) == MarkRange(c0, index, i + 1);
        i := i + 1;
      }
      if end <= index {
        assert MarkRange(c0, index, end) == c0 == MarkRange(c0, index, index);
      }
    }

    /** How many records expire at or before l: after a gc, the index of the
        first key above l. */
    method GetRemoveSize(l: int) returns (r: int)
      requires Valid()
      modifies Repr
      ensures Valid() && Repr == old(Repr) && !garbage
      ensures View() == (if old(garbage) then Compact(old(View())) else old(View()))
      ensures Content() == old(Content())
      ensures 0 <= r <= |Content()|
      ensures forall i :: 0 <= i < r ==> Content()[i].key <= l
      ensures forall i :: r <= i < |Content()| ==> Content()[i].key > l
    {
      if garbage {
        Gc();
      }
      r := CountExpired(keys, size, l);
      RecordsClean(View());
      forall i | 0 <= i < size ensures Content()[i].key == keys[i] {
        assert View()[i].key == keys[i];
      }
    }
  }

  // ---------------------------------------------------------------------
  // delete as written

  /** The outcome of one of delete's scans as written: the slot it marks,
      a break, or the array index it reads out of bounds. */
  datatype Probe = Hit(index: int) | Miss | OutOfBounds(index: int)

  /** delete's upward scan as written: its guard tests index < mSize, which
      never changes, so the scan passes size and stops only at a different
      key, a match, or the end of the array. */
  function ScanUpAsWritten<E(==)>(ks: seq<int>, vs: seq<Slot<E>>, i: nat, key: int, o: E): Probe
    requires |ks| == |vs|
    decreases |ks| - i
  {
    if i >= |ks| then OutOfBounds(i)
    else if ks[i] != key then Miss
    else if vs[i] == Live(o) then Hit(i)
    else ScanUpAsWritten(ks, vs, i + 1, key, o)
  }

  /** delete's downward scan as written: its guard tests index >= 0. */
  function ScanDownAsWritten<E(==)>(ks: seq<int>, vs: seq<Slot<E>>, i: int, key: int, o: E): Probe
    requires |ks| == |vs| && i < |ks|
    decreases i + 1
  {
    if i < 0 then OutOfBounds(i)
    else if ks[i] != key then Miss
    else if vs[i] == Live(o) then Hit(i)
    else ScanDownAsWritten(ks, vs, i - 1, key, o)
  }

  /** delete as written, over the whole arrays. */
  function DeleteAsWritten<E(==)>(ks: seq<int>, vs: seq<Slot<E>>, size: int, key: int, o: E): Probe
    requires |ks| == |vs| && 0 <= size <= |ks|
  {
    var index := Search(ks[..size], 0, size - 1, key);
    if index < 0 then Miss
    else
      var up := ScanUpAsWritten(ks, vs, index, key, o);
      if up.Miss? then ScanDownAsWritten(ks, vs, index - 1, key, o) else up
  }

  /** Into live records that all expire at 1000, a put of another record
      expiring at 1000 lands at the first probe of the binary search. */
  lemma {:induction false} AllEqualPut(c: seq<Cell<int>>, v: int)
    requires forall i :: 0 <= i < |c| ==> c[i] == Cell(1000, c[i].slot) && c[i].slot.Live?
    ensures var m := if |c| == 0 then 0 else (|c| - 1) / 2;
            PutCells(c, false, 1000, v) == c[..m] + [Cell(1000, Live(v))] + c[m..]
  {
    var ks := KeysOf(c);
    if |c| > 0 {
      assert ks[(|c| - 1) / 2] == 1000;
    }
  }

  /** Ten records with one expiry, put into a new index in the order 0..9:
      binary search hits the middle of the run each time. */
  lemma {:induction false} TenEqualPuts()
    ensures var c0: seq<Cell<int>> := [];
            var c1 := PutCells(c0, false, 1000, 0);
            var c2 := PutCells(c1, false, 1000, 1);
            var c3 := PutCells(c2, false, 1000, 2);
            var c4 := PutCells(c3, false, 1000, 3);
            var c5 := PutCells(c4, false, 1000, 4);
            var c6 := PutCells(c5, false, 1000, 5);
            var c7 := PutCells(c6, false, 1000, 6);
            var c8 := PutCells(c7, false, 1000, 7);
            var c9 := PutCells(c8, false, 1000, 8);
            PutCells(c9, false, 1000, 9) == TenEqual()
  {
    PutsZeroToThree();
    PutsFourToSix();
    PutsSevenToNine();
  }

  lemma {:induction false} PutsZeroToThree()
    ensures var c0: seq<Cell<int>> := [];
            var c1 := PutCells(c0, false, 1000, 0);
            var c2 := PutCells(c1, false, 1000, 1);
            var c3 := PutCells(c2, false, 1000, 2);
            PutCells(c3, false, 1000, 3) == FourEqual()
  {
    var c0: seq<Cell<int>> := [];
    var c1 := [At(0)];
    assert PutCells(c0, false, 1000, 0) == c1 by {
      AllEqualPut(c0, 0);
    }
    var c2 := [At(1), At(0)];
    assert PutCells(c1, false, 1000, 1) == c2 by {
      AllEqualPut(c1, 1);
    }
    var c3 := [At(2), At(1), At(0)];
    assert PutCells(c2, false, 1000, 2) == c3 by {
      AllEqualPut(c2, 2);
    }
    assert PutCells(c3, false, 1000, 3) == FourEqual() by {
      AllEqualPut(c3, 3);
    }
  }

  lemma {:induction false} PutsFourToSix()
    ensures var c4 := FourEqual();
            var c5 := PutCells(c4, false, 1000, 4);
            var c6 := PutCells(c5, false, 1000, 5);
            PutCells(c6, false, 1000, 6) == SevenEqual()
  {
    var c5 := [At(2), At(4), At(3), At(1), At(0)];
    assert PutCells(FourEqual(), false, 1000, 4) == c5 by {
      AllEqualPut(FourEqual(), 4);
    }
    var c6 := [At(2), At(4), At(5), At(3), At(1), At(0)];
    assert PutCells(c5, false, 1000, 5) == c6 by {
      AllEqualPut(c5, 5);
    }
    assert PutCells(c6, false, 1000, 6) == SevenEqual() by {
      AllEqualPut(c6, 6);
    }
  }

  lemma {:induction false} PutsSevenToNine()
    ensures var c7 := SevenEqual();
            var c8 := PutCells(c7, false, 1000, 7);
            var c9 := PutCells(c8, false, 1000, 8);
            PutCells(c9, false, 1000, 9) == TenEqual()
  {
    var c8 := [At(2), At(4), At(6), At(7), At(5), At(3), At(1), At(0)];
    assert PutCells(SevenEqual(), false, 1000, 7) == c8 by {
      AllEqualPut(SevenEqual(), 7);
    }
    var c9 := [At(2), At(4), At(6), At(8), At(7), At(5), At(3), At(1), At(0)];
    assert PutCells(c8, false, 1000, 8) == c9 by {
      AllEqualPut(c8, 8);
    }
    assert PutCells(c9, false, 1000, 9) == TenEqual() by {
      AllEqualPut(c9, 9);
    }
  }

  /** The index after the puts of records 0..3, and after those of 0..6. */
  function FourEqual(): seq<Cell<int>> {
    [At(2), At(3), At(1), At(0)]
  }

  function SevenEqual(): seq<Cell<int>> {
    [At(2), At(4), At(6), At(5), At(3), At(1), At(0)]
  }

  /** The record v expiring at 1000. */
  function At(v: int): Cell<int> {
    Cell(1000, Live(v))
  }

  function TenEqual(): seq<Cell<int>> {
    [At(2), At(4), At(6), At(8), At(9), At(7), At(5), At(3), At(1), At(0)]
  }

  /** With those ten records filling the initial capacity, deleting record 2
      reads mKeys[10]: an ArrayIndexOutOfBoundsException, although the
      record is there and Delete removes it. */
  lemma {:induction false} DeleteOutOfBoundsExample()
    ensures var c := TenEqual();
            DeleteAsWritten(KeysOf(c), seq(10, i requires 0 <= i < 10 => c[i].slot), 10, 1000, 2)
            == OutOfBounds(10)
  {
  }
}
