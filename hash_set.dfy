/**
 * A set of string keys kept as the key set of a `HashMap` whose every value is
 * `true`; each operation hands over to the corresponding map operation.
 */
module HashSets {
  import opened Hashing
  import opened Buckets
  import opened HashMaps

  class HashSet {
    /** The underlying map; only its keys matter. */
    const table: HashMap<bool>

    /** The map is valid and binds every key it holds to `true`. */
    ghost predicate Valid()
      reads this, table, table.buckets
    {
      && table.Valid()
      && forall k :: k in table.Contents ==> table.Contents[k]
    }

    /** The keys of the set. */
    ghost function Elements(): set<Key>
      reads this, table
    {
      table.Contents.Keys
    }

    constructor (initialCapacity: nat, loadNum: nat, loadDen: nat)
      requires initialCapacity > 0 && loadNum > 0 && loadDen > 0
      ensures Valid() && fresh(table) && fresh(table.buckets)
      ensures Elements() == {}
      ensures table.capacity == initialCapacity && table.loadNum == loadNum && table.loadDen == loadDen
    {
      table := new HashMap<bool>(initialCapacity, loadNum, loadDen);
    }

    /**
     * Adds `key`, stored as a binding to `true`. Adding a key the set already
     * holds changes nothing: not the count, not the capacity, not a bucket.
     */
    method Add(key: Key)
      requires Valid()
      modifies table, table.buckets
      ensures Valid()
      ensures Elements() == old(Elements()) + {key}
      ensures table.buckets == old(table.buckets) || fresh(table.buckets)
      ensures old(key in Elements()) ==>
                table.size == old(table.size) && table.capacity == old(table.capacity) &&
                table.buckets == old(table.buckets) && table.buckets[..] == old(table.buckets[..])
      ensures old(key !in Elements()) ==> table.size == old(table.size) + 1
    {
      ghost var before := table.buckets[..];
      ghost var h := HashOf(key, table.capacity);
      ghost var present := key in table.Contents;
      if present {
        assert Chain(before[h], h, table.capacity, table.Contents);
      }
      table.Set(key, true);
      if present {
        ghost var j :| 0 <= j < |before[h]| && before[h][j].0 == key &&
          table.buckets[..] == before[h := before[h][j := (key, true)]];
        assert before[h][j] == (key, true);
        assert before[h][j := (key, true)] == before[h];
        assert before[h := before[h]] == before;
      }
    }

    /** Whether `key` is in the set. */
    method Has(key: Key) returns (found: bool)
      requires Valid()
      ensures found <==> key in Elements()
    {
      found := table.Has(key);
    }

    /**
     * Takes `key` out of the set and reports whether it was there; its entry
     * is cut out of its bucket, the rest of which keeps its order.
     */
    method Remove(key: Key) returns (removed: bool)
      requires Valid()
      modifies table, table.buckets
      ensures Valid()
      ensures removed <==> old(key in Elements())
      ensures Elements() == old(Elements()) - {key}
      ensures table.capacity == old(table.capacity) && table.buckets == old(table.buckets)
      ensures removed ==>
        var h := HashOf(key, table.capacity);
        exists j :: 0 <= j < |old(table.buckets[h])| && old(table.buckets[h])[j].0 == key &&
          table.buckets[..] == old(table.buckets[..])[h := old(table.buckets[h])[..j] + old(table.buckets[h])[j + 1..]]
      ensures !removed ==> table.buckets[..] == old(table.buckets[..])
    {
      removed := table.Remove(key);
    }

    /** The number of keys. */
    method Size() returns (n: nat)
      requires Valid()
      ensures n == |Elements()|
    {
      n := table.Length();
    }

    /** Empties the set, keeping the capacity of the table. */
    method Clear()
      requires Valid()
      modifies table
      ensures Valid() && fresh(table.buckets)
      ensures Elements() == {} && table.capacity == old(table.capacity)
    {
      table.Clear();
    }

    /** Every key once, in the bucket order of the underlying map. */
    method Keys() returns (ks: seq<Key>)
      requires Valid()
      ensures ks == KeysOf(Flatten(table.buckets[..]))
      ensures |ks| == |Elements()|
      ensures forall k :: k in ks <==> k in Elements()
      ensures forall t1, t2 :: 0 <= t1 < t2 < |ks| ==> ks[t1] != ks[t2]
    {
      ks := table.Keys();
    }
  }
}
