/**
 * A separate-chaining hash table with string keys. It keeps `capacity` buckets,
 * each an ordered chain of `[key, value]` entries, an explicit `size` counter,
 * and doubles its capacity, re-inserting every entry, once the load factor is
 * exceeded.
 */
module HashMaps {
  import opened Wrappers
  import opened Hashing
  import opened Buckets

  /** The defaults of the constructor: 4 buckets and a load factor of 0.75 = 3/4. */
  const DefaultCapacity: nat := 4
  const DefaultLoadNum: nat := 3
  const DefaultLoadDen: nat := 4

  /** `to` is obtained from `from` by doubling zero or more times. */
  ghost predicate Doubles(from: nat, to: nat)
    decreases to - from
  {
    from == to || (0 < from < to && Doubles(2 * from, to))
  }

  /** Doubling never decreases. */
  lemma {:induction false} DoublesGrows(from: nat, to: nat)
    requires Doubles(from, to)
    ensures from <= to
  {
  }

  /** Doubling after doubling is doubling. */
  lemma {:induction false} DoublesTransitive(a: nat, b: nat, c: nat)
    requires Doubles(a, b) && Doubles(b, c)
    ensures Doubles(a, c)
    decreases b - a
  {
    if a != b {
      DoublesTransitive(2 * a, b, c);
      DoublesGrows(b, c);
    }
  }

  /** Comparing two fractions with positive denominators by cross-multiplying. */
  lemma RatioCompare(c: real, k: real, a: real, d: real)
    requires k > 0.0 && d > 0.0
    ensures c / k > a / d <==> c * d > a * k
  {
    var x, y, p := c / k, a / d, k * d;
    assert x * p == c * d by {
      assert x * k == c;
    }
    assert y * p == a * k by {
      assert y * d == a;
    }
    ScalePositive(x, y, p);
  }

  /** Multiplying by a positive number keeps a strict order. */
  lemma ScalePositive(x: real, y: real, p: real)
    requires p > 0.0
    ensures x > y <==> x * p > y * p
  {
    assert (x - y) * p == x * p - y * p;
  }

  class HashMap<V> {
    var capacity: nat
    var size: nat
    /** The load factor is the rational `loadNum / loadDen`. */
    const loadNum: nat
    const loadDen: nat
    var buckets: array<Bucket<V>>

    /** The finite map the table stores. */
    ghost var Contents: map<Key, V>

    /**
     * The table invariant: every entry sits in the bucket its key hashes to
     * under the current capacity, no bucket holds a key twice, the entries are
     * exactly the bindings of `Contents`, and `size` is the sum of the bucket
     * lengths (which is the number of keys).
     */
    ghost predicate Valid()
      reads this, buckets
    {
      && capacity > 0 && loadNum > 0 && loadDen > 0
      && buckets.Length == capacity
      && Represents(buckets[..], capacity, Contents)
      && size == TotalLength(buckets[..])
      && size == |Contents|
    }

    /** `count / cap > loadNum / loadDen`, the test `set` makes after an insertion. */
    predicate OverLoad(count: nat, cap: nat)
    {
      count * loadDen > cap * loadNum
    }

    /**
     * `OverLoad` is the source's test `size / capacity > loadFactor` computed
     * exactly, with the load factor `loadNum / loadDen`.
     */
    lemma OverLoadIsRatio(count: nat, cap: nat)
      requires cap > 0 && loadDen > 0
      ensures OverLoad(count, cap) <==> (count as real) / (cap as real) > (loadNum as real) / (loadDen as real)
    {
      RatioCompare(count as real, cap as real, loadNum as real, loadDen as real);
      assert (count as real) * (loadDen as real) == (count * loadDen) as real;
      assert (loadNum as real) * (cap as real) == (cap * loadNum) as real;
    }

    /** The load factor is not exceeded. */
    ghost predicate WithinLoad()
      reads this
    {
      !OverLoad(size, capacity)
    }

    /** How far `count` entries in `cap` buckets are over the load factor; the termination measure of `set` and `resize`. */
    function Excess(count: nat, cap: nat): nat
    {
      if OverLoad(count, cap) then count * loadDen - cap * loadNum else 0
    }

    /** An empty table is within the load factor. */
    lemma EmptyWithinLoad(cap: nat)
      ensures !OverLoad(0, cap)
    {
      assert cap * loadNum >= 0;
    }

    /** Fewer entries in the same buckets stay within the load factor. */
    lemma FewerWithinLoad(c1: nat, c2: nat, cap: nat)
      requires c1 <= c2 && !OverLoad(c2, cap)
      ensures !OverLoad(c1, cap)
    {
      CountMonotone(c1, c2);
    }

    /** Counting more entries scales up. */
    lemma CountMonotone(c1: nat, c2: nat)
      requires c1 <= c2
      ensures c1 * loadDen <= c2 * loadDen
    {
      assert (c2 - c1) * loadDen >= 0;
    }

    /** Right after `resize` doubles an overloaded capacity, the new capacity is below twice the needed one. */
    lemma DoubledBelowNeed(n: nat, c0: nat)
      requires OverLoad(n, c0)
      ensures (2 * c0) * loadNum < 2 * (n * loadDen)
    {
    }

    /**
     * With the default load factor 3/4, a table within the load factor that
     * takes one more entry is within the load factor of twice its capacity:
     * a resize then doubles exactly once.
     */
    lemma DefaultsNeverRedouble(count: nat, cap: nat)
      requires loadNum == DefaultLoadNum && loadDen == DefaultLoadDen
      requires cap > 0 && !OverLoad(count, cap)
      ensures !OverLoad(count + 1, 2 * cap)
    {
    }

    /**
     * A re-insertion during `resize` of `n` entries from an overloaded table of
     * `c0` buckets, into `cap >= 2 * c0` buckets holding `k < n` entries, is
     * less overloaded than the resize itself.
     */
    lemma RehashShrinksExcess(k: nat, n: nat, c0: nat, cap: nat)
      requires loadNum > 0 && c0 > 0
      requires k < n && 2 * c0 <= cap && OverLoad(n, c0)
      ensures Excess(k + 1, cap) < Excess(n, c0)
    {
      CountMonotone(k + 1, n);
      assert cap * loadNum >= (2 * c0) * loadNum by {
        assert (cap - 2 * c0) * loadNum >= 0;
      }
      assert (2 * c0) * loadNum == 2 * (c0 * loadNum);
      assert c0 * loadNum > 0;
    }

    /**
     * The arithmetic of one re-insertion during `resize`: it is less
     * overloaded than the resize, and when doubling once suffices it does not
     * push the doubled table over the load factor.
     */
    lemma RehashStep(k: nat, n: nat, c0: nat, cap: nat)
      requires loadNum > 0 && c0 > 0 && k < n && OverLoad(n, c0)
      requires Doubles(2 * c0, cap)
      requires !OverLoad(n, 2 * c0) ==> cap == 2 * c0
      ensures Excess(k + 1, cap) < Excess(n, c0)
      ensures !OverLoad(n, 2 * c0) ==> !OverLoad(k + 1, cap)
    {
      DoublesGrows(2 * c0, cap);
      RehashShrinksExcess(k, n, c0, cap);
      if !OverLoad(n, 2 * c0) {
        FewerWithinLoad(k + 1, n, 2 * c0);
      }
    }

    constructor (initialCapacity: nat, loadNum: nat, loadDen: nat)
      requires initialCapacity > 0 && loadNum > 0 && loadDen > 0
      ensures Valid() && fresh(buckets) && WithinLoad()
      ensures capacity == initialCapacity && size == 0 && Contents == map[]
      ensures this.loadNum == loadNum && this.loadDen == loadDen
    {
      capacity := initialCapacity;
      size := 0;
      this.loadNum := loadNum;
      this.loadDen := loadDen;
      buckets := new Bucket<V>[initialCapacity](_ => []);
      Contents := map[];
      new;
      EmptyRepresents(buckets[..], capacity);
      EmptyWithinLoad(capacity);
    }

    /** The bucket index of `key` under the current capacity. */
    method Hash(key: Key) returns (index: nat)
      requires capacity > 0
      ensures index == HashOf(key, capacity)
      ensures index < capacity
    {
      var hashCode := 0;
      for i := 0 to |key|
        invariant hashCode == HashOf(key[..i], capacity)
      {
        assert key[..i + 1][..i] == key[..i];
        hashCode := Multiplier * hashCode + key[i] as int;
        hashCode := hashCode % capacity;
      }
      assert key[..|key|] == key;
      index := hashCode;
    }

    /**
     * Binds `key` to `value`: overwrites the entry in place when the key is
     * present, otherwise appends a new entry to its bucket, counts it, and
     * resizes if the load factor is now exceeded.
     */
    method Set(key: Key, value: V)
      requires Valid()
      modifies this, buckets
      ensures Valid()
      ensures Contents == old(Contents)[key := value]
      ensures buckets == old(buckets) || fresh(buckets)
      ensures old(key in Contents) ==> size == old(size) && capacity == old(capacity) && buckets == old(buckets)
      ensures old(key !in Contents) ==> size == old(size) + 1
      ensures old(key in Contents) ==>
        var h := HashOf(key, old(capacity));
        exists j :: 0 <= j < |old(buckets[h])| && old(buckets[h])[j].0 == key &&
          buckets[..] == old(buckets[..])[h := old(buckets[h])[j := (key, value)]]
      ensures old(key !in Contents) && capacity == old(capacity) ==>
        var h := HashOf(key, old(capacity));
        buckets == old(buckets) && buckets[..] == old(buckets[..])[h := old(buckets[h]) + [(key, value)]]
      // resizing happens exactly when a new key pushes the table over the load factor
      ensures capacity != old(capacity) <==> old(key !in Contents) && OverLoad(old(size) + 1, old(capacity))
      ensures Doubles(old(capacity), capacity)
      ensures capacity != old(capacity) ==> capacity >= 2 * old(capacity) && capacity * loadNum < 2 * (size * loadDen)
      ensures capacity != old(capacity) && !OverLoad(size, 2 * old(capacity)) ==> capacity == 2 * old(capacity)
      ensures old(key !in Contents || WithinLoad()) ==> WithinLoad()
      decreases Excess(size + 1, capacity), 3
    {
      var index := Hash(key);
      var bucket := buckets[index];
      for j := 0 to |bucket|
        invariant forall t :: 0 <= t < j ==> bucket[t].0 != key
      {
        if bucket[j].0 == key {
          OverwriteRepresents(buckets[..], capacity, Contents, key, value, j);
          TotalLengthUpdate(buckets[..], index, bucket[j := (key, value)]);
          buckets[index] := bucket[j := (key, value)];
          Contents := Contents[key := value];
          return;
        }
      }
      AbsentKey(buckets[..], capacity, Contents, key);
      AppendRepresents(buckets[..], capacity, Contents, key, value);
      TotalLengthUpdate(buckets[..], index, bucket + [(key, value)]);
      buckets[index] := bucket + [(key, value)];
      size := size + 1;
      Contents := Contents[key := value];
      if OverLoad(size, capacity) {
        Resize();
        DoublesGrows(2 * old(capacity), capacity);
      }
    }

    /**
     * Doubles the capacity and re-inserts every entry through `Set`, old bucket
     * by old bucket in chain order. A re-insertion may resize again when the
     * load factor is small next to 1 / capacity; the outer pass then goes on
     * inserting into the larger table.
     */
    method Resize()
      requires Valid()
      requires OverLoad(size, capacity)
      modifies this
      ensures Valid() && fresh(buckets)
      ensures Contents == old(Contents) && size == old(size)
      ensures Doubles(2 * old(capacity), capacity)
      ensures !OverLoad(size, 2 * old(capacity)) ==> capacity == 2 * old(capacity)
      ensures WithinLoad()
      ensures capacity * loadNum < 2 * (size * loadDen)
      decreases Excess(size, capacity), 2
    {
      var layout := buckets[..];
      ghost var c0, n, m0 := capacity, size, Contents;
      capacity := capacity * 2;
      buckets := new Bucket<V>[capacity](_ => []);
      size := 0;
      Contents := map[];
      EmptyRepresents(buckets[..], capacity);
      EmptyWithinLoad(capacity);
      DoubledBelowNeed(n, c0);
      assert Flatten(layout[..0]) == [];

      for i := 0 to |layout|
        invariant Valid() && fresh(buckets)
        invariant Contents == MapOf(Flatten(layout[..i]))
        invariant Doubles(2 * c0, capacity)
        invariant WithinLoad()
        invariant capacity * loadNum < 2 * (n * loadDen)
        invariant !OverLoad(n, 2 * c0) ==> capacity == 2 * c0
      {
        var bucket := layout[i];
        ghost var front := Flatten(layout[..i]);
        TotalLengthPrefix(layout, i);
        Reinsert(bucket, front, n, c0);
      }
      FlattenWhole(layout);
      RehashComplete(layout, c0, m0);
    }

    /**
     * The inner pass of `resize`: re-inserts the entries of one old bucket, in
     * chain order, into the table being rebuilt, which already holds `done`.
     * `n` and `c0` are the size and capacity the resize started from.
     */
    method Reinsert(chain: Bucket<V>, ghost done: seq<Entry<V>>, ghost n: nat, ghost c0: nat)
      requires Valid() && c0 > 0 && OverLoad(n, c0)
      requires Contents == MapOf(done) && |done| + |chain| <= n
      requires Doubles(2 * c0, capacity) && WithinLoad()
      requires capacity * loadNum < 2 * (n * loadDen)
      requires !OverLoad(n, 2 * c0) ==> capacity == 2 * c0
      modifies this, buckets
      ensures Valid() && (buckets == old(buckets) || fresh(buckets))
      ensures Contents == MapOf(done + chain)
      ensures Doubles(2 * c0, capacity) && WithinLoad()
      ensures capacity * loadNum < 2 * (n * loadDen)
      ensures !OverLoad(n, 2 * c0) ==> capacity == 2 * c0
      decreases Excess(n, c0), 1
    {
      assert done + chain[..0] == done;
      for j := 0 to |chain|
        invariant Valid() && (buckets == old(buckets) || fresh(buckets))
        invariant Contents == MapOf(done + chain[..j])
        invariant Doubles(2 * c0, capacity) && WithinLoad()
        invariant capacity * loadNum < 2 * (n * loadDen)
        invariant !OverLoad(n, 2 * c0) ==> capacity == 2 * c0
      {
        var entry := chain[j];
        MapOfStep(done, chain, j);
        ReinsertOne(entry.0, entry.1, n, c0);
      }
      assert chain[..|chain|] == chain;
    }

    /**
     * One re-insertion of `resize`: `set(key, value)` on the table being
     * rebuilt, which holds fewer than the `n` entries the resize started from.
     * Should this `set` resize again, the capacity is still a doubling of
     * `2 * c0` and the termination measure has strictly shrunk.
     */
    method ReinsertOne(key: Key, value: V, ghost n: nat, ghost c0: nat)
      requires Valid() && c0 > 0 && OverLoad(n, c0) && size < n
      requires Doubles(2 * c0, capacity) && WithinLoad()
      requires capacity * loadNum < 2 * (n * loadDen)
      requires !OverLoad(n, 2 * c0) ==> capacity == 2 * c0
      modifies this, buckets
      ensures Valid() && (buckets == old(buckets) || fresh(buckets))
      ensures Contents == old(Contents)[key := value]
      ensures Doubles(2 * c0, capacity) && WithinLoad()
      ensures capacity * loadNum < 2 * (n * loadDen)
      ensures !OverLoad(n, 2 * c0) ==> capacity == 2 * c0
      decreases Excess(n, c0), 0
    {
      RehashStep(size, n, c0, capacity);
      ghost var capBefore := capacity;
      Set(key, value);
      DoublesTransitive(2 * c0, capBefore, capacity);
      CountMonotone(size, n);
    }

    /** The value bound to `key`, or `None` where the source returns `null`. */
    method Get(key: Key) returns (r: Option<V>)
      requires Valid()
      ensures key in Contents ==> r == Some(Contents[key])
      ensures key !in Contents ==> r == None
    {
      var index := Hash(key);
      var bucket := buckets[index];
      for j := 0 to |bucket|
        invariant forall t :: 0 <= t < j ==> bucket[t].0 != key
      {
        if bucket[j].0 == key {
          assert Chain(bucket, index, capacity, Contents);
          return Some(bucket[j].1);
        }
      }
      AbsentKey(buckets[..], capacity, Contents, key);
      return None;
    }

    /** Whether `key` is bound. */
    method Has(key: Key) returns (found: bool)
      requires Valid()
      ensures found <==> key in Contents
    {
      var index := Hash(key);
      var bucket := buckets[index];
      for j := 0 to |bucket|
        invariant forall t :: 0 <= t < j ==> bucket[t].0 != key
      {
        if bucket[j].0 == key {
          assert Chain(bucket, index, capacity, Contents);
          return true;
        }
      }
      AbsentKey(buckets[..], capacity, Contents, key);
      return false;
    }

    /**
     * Unbinds `key`: cuts its entry out of its bucket, keeping the remaining
     * entries in order, and reports whether there was one. Never shrinks.
     */
    method Remove(key: Key) returns (removed: bool)
      requires Valid()
      modifies this, buckets
      ensures old(WithinLoad()) ==> WithinLoad()
      ensures Valid()
      ensures removed <==> old(key in Contents)
      ensures Contents == old(Contents) - {key}
      ensures size == if removed then old(size) - 1 else old(size)
      ensures capacity == old(capacity) && buckets == old(buckets)
      ensures removed ==>
        var h := HashOf(key, capacity);
        exists j :: 0 <= j < |old(buckets[h])| && old(buckets[h])[j].0 == key &&
          buckets[..] == old(buckets[..])[h := old(buckets[h])[..j] + old(buckets[h])[j + 1..]]
      ensures !removed ==> buckets[..] == old(buckets[..])
    {
      var index := Hash(key);
      var bucket := buckets[index];
      for j := 0 to |bucket|
        invariant forall t :: 0 <= t < j ==> bucket[t].0 != key
      {
        if bucket[j].0 == key {
          SpliceRepresents(buckets[..], capacity, Contents, key, j);
          TotalLengthUpdate(buckets[..], index, bucket[..j] + bucket[j + 1..]);
          assert key in Contents && (Contents - {key}).Keys == Contents.Keys - {key};
          buckets[index] := bucket[..j] + bucket[j + 1..];
          size := size - 1;
          Contents := Contents - {key};
          if old(WithinLoad()) {
            FewerWithinLoad(size, old(size), capacity);
          }
          return true;
        }
      }
      AbsentKey(buckets[..], capacity, Contents, key);
      assert Contents - {key} == Contents;
      return false;
    }

    /** The number of bindings. */
    method Length() returns (n: nat)
      requires Valid()
      ensures n == |Contents|
      ensures n == TotalLength(buckets[..])
    {
      n := size;
    }

    /** Replaces every bucket by an empty one, at the current capacity. */
    method Clear()
      requires Valid()
      modifies this
      ensures Valid() && fresh(buckets) && WithinLoad()
      ensures Contents == map[] && size == 0 && capacity == old(capacity)
    {
      buckets := new Bucket<V>[capacity](_ => []);
      size := 0;
      Contents := map[];
      EmptyRepresents(buckets[..], capacity);
      EmptyWithinLoad(capacity);
    }

    /**
     * All keys, bucket by bucket in index order and each bucket in chain
     * order: each key of the map exactly once.
     */
    method Keys() returns (ks: seq<Key>)
      requires Valid()
      ensures ks == KeysOf(Flatten(buckets[..]))
      ensures |ks| == size
      ensures forall k :: k in ks <==> k in Contents
      ensures forall t1, t2 :: 0 <= t1 < t2 < |ks| ==> ks[t1] != ks[t2]
    {
      ks := [];
      assert Flatten(buckets[..0]) == [];
      for i := 0 to buckets.Length
        invariant ks == KeysOf(Flatten(buckets[..i]))
      {
        var bucket := buckets[i];
        ghost var front := Flatten(buckets[..i]);
        assert front + bucket[..0] == front;
        for j := 0 to |bucket|
          invariant ks == KeysOf(front + bucket[..j])
        {
          var entry := bucket[j];
          PrefixSnoc(front, bucket, j);
          KeysOfSnoc(front + bucket[..j], entry);
          ks := ks + [entry.0];
        }
        assert bucket[..|bucket|] == bucket;
        TotalLengthPrefix(buckets[..], i);
      }
      FlattenWhole(buckets[..]);
      ghost var es := Flatten(buckets[..]);
      FlattenRepresents(buckets[..], capacity, Contents);
      forall k | k in Contents
        ensures k in ks
      {
        var t :| 0 <= t < |es| && es[t].0 == k;
        assert ks[t] == k;
      }
    }

    /**
     * All values, bucket by bucket in index order and each bucket in chain
     * order: position `t` holds the value bound to position `t` of `Keys`.
     */
    method Values() returns (vs: seq<V>)
      requires Valid()
      ensures vs == ValuesOf(Flatten(buckets[..]))
      ensures |vs| == size
      ensures forall t :: 0 <= t < |vs| ==>
                KeysOf(Flatten(buckets[..]))[t] in Contents && vs[t] == Contents[KeysOf(Flatten(buckets[..]))[t]]
    {
      vs := [];
      assert Flatten(buckets[..0]) == [];
      for i := 0 to buckets.Length
        invariant vs == ValuesOf(Flatten(buckets[..i]))
      {
        var bucket := buckets[i];
        ghost var front := Flatten(buckets[..i]);
        assert front + bucket[..0] == front;
        for j := 0 to |bucket|
          invariant vs == ValuesOf(front + bucket[..j])
        {
          var entry := bucket[j];
          PrefixSnoc(front, bucket, j);
          ValuesOfSnoc(front + bucket[..j], entry);
          vs := vs + [entry.1];
        }
        assert bucket[..|bucket|] == bucket;
        TotalLengthPrefix(buckets[..], i);
      }
      FlattenWhole(buckets[..]);
      FlattenRepresents(buckets[..], capacity, Contents);
    }

    /**
     * All entries, bucket by bucket in index order and each bucket in chain
     * order: each binding of the map exactly once.
     */
    method Entries() returns (es: seq<Entry<V>>)
      requires Valid()
      ensures es == Flatten(buckets[..])
      ensures |es| == size
      ensures forall t :: 0 <= t < |es| ==> es[t].0 in Contents && Contents[es[t].0] == es[t].1
      ensures forall k :: k in Contents ==> exists t :: 0 <= t < |es| && es[t].0 == k
      ensures forall t1, t2 :: 0 <= t1 < t2 < |es| ==> es[t1].0 != es[t2].0
    {
      es := [];
      assert Flatten(buckets[..0]) == [];
      for i := 0 to buckets.Length
        invariant es == Flatten(buckets[..i])
      {
        var bucket := buckets[i];
        ghost var front := Flatten(buckets[..i]);
        assert front + bucket[..0] == front;
        for j := 0 to |bucket|
          invariant es == front + bucket[..j]
        {
          PrefixSnoc(front, bucket, j);
          es := es + [bucket[j]];
        }
        assert bucket[..|bucket|] == bucket;
        TotalLengthPrefix(buckets[..], i);
      }
      FlattenWhole(buckets[..]);
      FlattenRepresents(buckets[..], capacity, Contents);
    }
  }
}
