/**
 * Call sequences on the map and the set from a fresh default table, with
 * the results their contracts fix.
 */
module Scenarios {
  import opened Wrappers
  import opened Hashing
  import opened HashMaps
  import opened HashSets

  const KeyA: Key := [97]
  const KeyB: Key := [98]
  const KeyC: Key := [99]
  const KeyD: Key := [100]
  const KeyE: Key := [101]

  /** A fresh default table holding "a" -> 1 and "b" -> 2. */
  method TwoInserts() returns (m: HashMap<int>)
    ensures fresh(m) && fresh(m.buckets) && m.Valid()
    ensures m.loadNum == DefaultLoadNum && m.loadDen == DefaultLoadDen
    ensures m.Contents == map[KeyA := 1, KeyB := 2] && m.size == 2 && m.capacity == 4
  {
    m := new HashMap<int>(DefaultCapacity, DefaultLoadNum, DefaultLoadDen);
    assert !m.OverLoad(1, 4) && !m.OverLoad(2, 4);
    m.Set(KeyA, 1);
    m.Set(KeyB, 2);
  }

  /** A fresh default table holding "a" -> 1, "b" -> 2 and "c" -> 3: three keys still fit in 4 buckets. */
  method ThreeInserts() returns (m: HashMap<int>)
    ensures fresh(m) && fresh(m.buckets) && m.Valid()
    ensures m.loadNum == DefaultLoadNum && m.loadDen == DefaultLoadDen
    ensures m.Contents == map[KeyA := 1, KeyB := 2, KeyC := 3] && m.size == 3 && m.capacity == 4
  {
    m := TwoInserts();
    assert !m.OverLoad(3, 4);
    m.Set(KeyC, 3);
  }

  /**
   * With 4 buckets and load factor 3/4, three insertions keep the capacity,
   * the fourth pushes 4 / 4 over 3/4 and doubles it once.
   */
  method FourInserts() returns (m: HashMap<int>, capAfterThree: nat)
    ensures fresh(m) && m.Valid()
    ensures m.Contents == map[KeyA := 1, KeyB := 2, KeyC := 3, KeyD := 4]
    ensures capAfterThree == 4 && m.capacity == 8
  {
    m := ThreeInserts();
    assert m.OverLoad(4, 4) && !m.OverLoad(4, 8);
    capAfterThree := m.capacity;
    m.Set(KeyD, 4);
  }

  /** After the growth to 8 buckets, lookups still see every binding. */
  method GrowOnFourthInsert() returns (capAfterThree: nat, capAfterFour: nat, count: nat,
                                       a: Option<int>, b: Option<int>, c: Option<int>,
                                       d: Option<int>, e: bool)
    ensures capAfterThree == 4 && capAfterFour == 8 && count == 4
    ensures a == Some(1) && b == Some(2) && c == Some(3) && d == Some(4) && !e
  {
    var m;
    m, capAfterThree := FourInserts();
    capAfterFour := m.capacity;
    count := m.Length();
    a := m.Get(KeyA);
    b := m.Get(KeyB);
    c := m.Get(KeyC);
    d := m.Get(KeyD);
    e := m.Has(KeyE);
  }

  /**
   * With the default load factor, `set` on a table within the load factor
   * either keeps the capacity or doubles it exactly once.
   */
  method SetDoublesAtMostOnce(m: HashMap<int>, k: Key, v: int)
    requires m.Valid() && m.WithinLoad()
    requires m.loadNum == DefaultLoadNum && m.loadDen == DefaultLoadDen
    modifies m, m.buckets
    ensures m.Valid() && m.WithinLoad()
    ensures m.capacity == old(m.capacity) || m.capacity == 2 * old(m.capacity)
  {
    m.DefaultsNeverRedouble(m.size, m.capacity);
    m.Set(k, v);
  }

  /** Setting a bound key again rebinds it without counting it twice. */
  method OverwriteKeepsCount() returns (count: nat, v: Option<int>)
    ensures count == 1 && v == Some(2)
  {
    var k: Key := [120];
    var m := new HashMap<int>(DefaultCapacity, DefaultLoadNum, DefaultLoadDen);
    m.Set(k, 1);
    m.Set(k, 2);
    count := m.Length();
    v := m.Get(k);
  }

  /** Removing reports whether the key was there, and only the first removal finds it. */
  method RemoveTwice() returns (first: bool, second: bool, count: nat)
    ensures first && !second && count == 0
  {
    var k: Key := [120];
    var m := new HashMap<int>(DefaultCapacity, DefaultLoadNum, DefaultLoadDen);
    m.Set(k, 1);
    first := m.Remove(k);
    second := m.Remove(k);
    count := m.Length();
  }

  /** A fresh default set to which "x" was added twice: it holds "x" once. */
  method AddTwice() returns (s: HashSet, count: nat)
    ensures fresh(s) && fresh(s.table) && fresh(s.table.buckets) && s.Valid()
    ensures s.Elements() == {[120]} && count == 1
  {
    var x: Key := [120];
    s := new HashSet(DefaultCapacity, DefaultLoadNum, DefaultLoadDen);
    s.Add(x);
    s.Add(x);
    count := s.Size();
  }

  /** Then adding "y" makes two keys. */
  method AddTwiceThenOther() returns (s: HashSet, count: nat)
    ensures fresh(s) && fresh(s.table) && fresh(s.table.buckets) && s.Valid()
    ensures s.Elements() == {[120], [121]} && count == 2
  {
    var y: Key := [121];
    var c;
    s, c := AddTwice();
    s.Add(y);
    count := s.Size();
  }

  /** The keys of that set are "x" and "y", each once. */
  method SetKeys() returns (keys: seq<Key>)
    ensures |keys| == 2 && [120 as CodeUnit] in keys && [121 as CodeUnit] in keys
  {
    var s, c := AddTwiceThenOther();
    ghost var x: Key, y: Key := [120], [121];
    assert x[0] != y[0];
    assert |s.Elements()| == 2;
    keys := s.Keys();
  }

  /** Removing "x" from that set finds it and leaves one key. */
  method SetRemove() returns (removed: bool, sizeAfterRemove: nat)
    ensures removed && sizeAfterRemove == 1
  {
    var x: Key := [120];
    var s, c := AddTwiceThenOther();
    removed := s.Remove(x);
    sizeAfterRemove := s.Size();
  }
}
