/**
 * Bucket layouts: the array of chains a hash map keeps, viewed as a sequence of
 * sequences of entries, with the invariant that ties a layout to the finite map
 * it stores, and the facts each operation of the map needs about it.
 */
module Buckets {
  import opened Hashing

  /** A `[key, value]` pair of a chain. */
  type Entry<V> = (Key, V)

  /** One bucket: an ordered chain of entries. */
  type Bucket<V> = seq<Entry<V>>

  /** The sum of the bucket lengths. */
  function TotalLength<V>(bs: seq<Bucket<V>>): nat
  {
    if |bs| == 0 then 0 else TotalLength(bs[..|bs| - 1]) + |bs[|bs| - 1]|
  }

  /**
   * All entries, bucket by bucket in index order and each bucket in its own
   * order: what `entries()` collects.
   */
  function Flatten<V>(bs: seq<Bucket<V>>): (es: seq<Entry<V>>)
    ensures |es| == TotalLength(bs)
  {
    if |bs| == 0 then [] else Flatten(bs[..|bs| - 1]) + bs[|bs| - 1]
  }

  /** Taking every bucket is the whole layout. */
  lemma FlattenWhole<V>(bs: seq<Bucket<V>>)
    ensures Flatten(bs[..|bs|]) == Flatten(bs)
  {
    assert bs[..|bs|] == bs;
  }

  /** The keys of a list of entries, in order: what `keys()` collects. */
  function KeysOf<V>(es: seq<Entry<V>>): (ks: seq<Key>)
    ensures |ks| == |es|
    ensures forall t :: 0 <= t < |es| ==> ks[t] == es[t].0
  {
    if |es| == 0 then [] else KeysOf(es[..|es| - 1]) + [es[|es| - 1].0]
  }

  /** The values of a list of entries, in order: what `values()` collects. */
  function ValuesOf<V>(es: seq<Entry<V>>): (vs: seq<V>)
    ensures |vs| == |es|
    ensures forall t :: 0 <= t < |es| ==> vs[t] == es[t].1
  {
    if |es| == 0 then [] else ValuesOf(es[..|es| - 1]) + [es[|es| - 1].1]
  }

  /** The map obtained by storing the entries one after the other, later ones winning. */
  ghost function MapOf<V>(es: seq<Entry<V>>): map<Key, V>
  {
    if |es| == 0 then map[]
    else MapOf(es[..|es| - 1])[es[|es| - 1].0 := es[|es| - 1].1]
  }

  /** The keys of the stored map are exactly the keys of the entries. */
  lemma {:induction false} MapOfKeys<V>(es: seq<Entry<V>>)
    ensures forall k :: k in MapOf(es) <==> exists t :: 0 <= t < |es| && es[t].0 == k
  {
    if |es| > 0 {
      var p := es[..|es| - 1];
      MapOfKeys(p);
      forall k
        ensures k in MapOf(es) <==> exists t :: 0 <= t < |es| && es[t].0 == k
      {
        if k in MapOf(p) {
          var t :| 0 <= t < |p| && p[t].0 == k;
          assert es[t].0 == k;
        }
        if exists t :: 0 <= t < |es| - 1 && es[t].0 == k {
          var t :| 0 <= t < |es| - 1 && es[t].0 == k;
          assert p[t].0 == k;
        }
      }
    }
  }

  /** Listing the keys of one more entry appends its key. */
  lemma KeysOfSnoc<V>(es: seq<Entry<V>>, e: Entry<V>)
    ensures KeysOf(es + [e]) == KeysOf(es) + [e.0]
  {
    assert (es + [e])[..|es|] == es;
  }

  /** Listing the values of one more entry appends its value. */
  lemma ValuesOfSnoc<V>(es: seq<Entry<V>>, e: Entry<V>)
    ensures ValuesOf(es + [e]) == ValuesOf(es) + [e.1]
  {
    assert (es + [e])[..|es|] == es;
  }

  /** Storing entries binds at most as many keys as there are entries. */
  lemma {:induction false} MapOfSize<V>(es: seq<Entry<V>>)
    ensures |MapOf(es)| <= |es|
  {
    if |es| > 0 {
      MapOfSize(es[..|es| - 1]);
    }
  }

  /**
   * Storing the next entry of `chain` after `done` and the first `j` entries
   * of `chain` rebinds its key; before it, at most `|done| + j` keys are bound.
   */
  lemma MapOfStep<V>(done: seq<Entry<V>>, chain: seq<Entry<V>>, j: nat)
    requires j < |chain|
    ensures MapOf(done + chain[..j + 1]) == MapOf(done + chain[..j])[chain[j].0 := chain[j].1]
    ensures |MapOf(done + chain[..j])| <= |done| + j
  {
    PrefixSnoc(done, chain, j);
    MapOfSnoc(done + chain[..j], chain[j]);
    MapOfSize(done + chain[..j]);
  }

  /** Storing one more entry rebinds its key. */
  lemma MapOfSnoc<V>(es: seq<Entry<V>>, e: Entry<V>)
    ensures MapOf(es + [e]) == MapOf(es)[e.0 := e.1]
  {
    assert (es + [e])[..|es|] == es;
  }

  /** Some entry of chain `b` has key `k`. */
  ghost predicate InChain<V>(b: Bucket<V>, k: Key)
  {
    exists j :: 0 <= j < |b| && b[j].0 == k
  }

  /**
   * Chain `b` is a proper bucket number `index` of a table of `capacity`
   * buckets storing `m`: each of its keys hashes to `index` and is bound in `m`
   * to the value stored beside it, and no key occurs twice.
   */
  ghost predicate Chain<V>(b: Bucket<V>, index: nat, capacity: nat, m: map<Key, V>)
    requires capacity > 0
  {
    && (forall j :: 0 <= j < |b| ==>
          HashOf(b[j].0, capacity) == index && b[j].0 in m && m[b[j].0] == b[j].1)
    && (forall j1, j2 :: 0 <= j1 < j2 < |b| ==> b[j1].0 != b[j2].0)
  }

  /**
   * The layout `bs` stores exactly the map `m`: there are `capacity` chains,
   * every chain is proper, and every key of `m` is in the chain it hashes to.
   */
  ghost predicate Represents<V>(bs: seq<Bucket<V>>, capacity: nat, m: map<Key, V>)
  {
    && capacity > 0
    && |bs| == capacity
    && (forall i :: 0 <= i < |bs| ==> Chain(bs[i], i, capacity, m))
    && (forall k {:trigger InChain(bs[HashOf(k, capacity)], k)} :: k in m ==> InChain(bs[HashOf(k, capacity)], k))
  }

  /** A layout of empty chains stores the empty map and holds no entries. */
  lemma {:induction false} EmptyRepresents<V>(bs: seq<Bucket<V>>, capacity: nat)
    requires capacity > 0 && |bs| == capacity
    requires forall i :: 0 <= i < |bs| ==> |bs[i]| == 0
    ensures Represents(bs, capacity, map[])
    ensures TotalLength(bs) == 0
  {
    NoEntries(bs);
  }

  lemma {:induction false} NoEntries<V>(bs: seq<Bucket<V>>)
    requires forall i :: 0 <= i < |bs| ==> |bs[i]| == 0
    ensures TotalLength(bs) == 0
  {
    if |bs| > 0 {
      NoEntries(bs[..|bs| - 1]);
    }
  }

  /** Replacing one chain changes the total by the difference of the lengths. */
  lemma {:induction false} TotalLengthUpdate<V>(bs: seq<Bucket<V>>, i: nat, b: Bucket<V>)
    requires i < |bs|
    ensures TotalLength(bs[i := b]) == TotalLength(bs) - |bs[i]| + |b|
  {
    var n := |bs|;
    if i == n - 1 {
      assert bs[i := b][..n - 1] == bs[..n - 1];
    } else {
      assert bs[i := b][..n - 1] == bs[..n - 1][i := b];
      TotalLengthUpdate(bs[..n - 1], i, b);
    }
  }

  /** The chains before index `i`, together with chain `i`, are part of the total. */
  lemma {:induction false} TotalLengthPrefix<V>(bs: seq<Bucket<V>>, i: nat)
    requires i < |bs|
    ensures TotalLength(bs[..i]) + |bs[i]| == TotalLength(bs[..i + 1]) <= TotalLength(bs)
    ensures Flatten(bs[..i + 1]) == Flatten(bs[..i]) + bs[i]
  {
    assert bs[..i + 1][..i] == bs[..i];
    var n := |bs|;
    if i < n - 1 {
      assert bs[..n - 1][..i] == bs[..i];
      assert bs[..n - 1][..i + 1] == bs[..i + 1];
      TotalLengthPrefix(bs[..n - 1], i);
    } else {
      assert bs[..i + 1] == bs;
    }
  }

  /** Entry `j` of chain `i` sits in the flattening after all entries of earlier chains. */
  lemma {:induction false} FlattenPosition<V>(bs: seq<Bucket<V>>, i: nat, j: nat)
    requires i < |bs| && j < |bs[i]|
    ensures TotalLength(bs[..i]) + j < |Flatten(bs)|
    ensures Flatten(bs)[TotalLength(bs[..i]) + j] == bs[i][j]
  {
    var n := |bs|;
    var front := bs[..n - 1];
    if i < n - 1 {
      assert front[..i] == bs[..i];
      FlattenPosition(front, i, j);
    } else {
      assert bs[..i] == front;
    }
  }

  /** Every position of the flattening comes from one entry of one chain. */
  lemma {:induction false} FlattenOrigin<V>(bs: seq<Bucket<V>>, t: nat) returns (i: nat, j: nat)
    requires t < |Flatten(bs)|
    ensures i < |bs| && j < |bs[i]|
    ensures t == TotalLength(bs[..i]) + j
    ensures Flatten(bs)[t] == bs[i][j]
  {
    var n := |bs|;
    var front := bs[..n - 1];
    if t < |Flatten(front)| {
      i, j := FlattenOrigin(front, t);
      assert front[..i] == bs[..i];
    } else {
      i, j := n - 1, t - |Flatten(front)|;
      assert bs[..i] == front;
    }
  }

  /**
   * The flattening of a layout that stores `m` lists every binding of `m`
   * exactly once: each entry agrees with `m`, each key of `m` occurs, and no
   * key occurs twice.
   */
  lemma FlattenRepresents<V>(bs: seq<Bucket<V>>, capacity: nat, m: map<Key, V>)
    requires Represents(bs, capacity, m)
    ensures forall t :: 0 <= t < |Flatten(bs)| ==>
              Flatten(bs)[t].0 in m && m[Flatten(bs)[t].0] == Flatten(bs)[t].1
    ensures forall k :: k in m ==> exists t :: 0 <= t < |Flatten(bs)| && Flatten(bs)[t].0 == k
    ensures forall t1, t2 :: 0 <= t1 < t2 < |Flatten(bs)| ==> Flatten(bs)[t1].0 != Flatten(bs)[t2].0
  {
    var es := Flatten(bs);
    forall t | 0 <= t < |es|
      ensures es[t].0 in m && m[es[t].0] == es[t].1
    {
      var i, j := FlattenOrigin(bs, t);
      assert Chain(bs[i], i, capacity, m);
    }
    forall k | k in m
      ensures exists t :: 0 <= t < |es| && es[t].0 == k
    {
      var h := HashOf(k, capacity);
      assert InChain(bs[h], k);
      var j :| 0 <= j < |bs[h]| && bs[h][j].0 == k;
      FlattenPosition(bs, h, j);
    }
    forall t1, t2 | 0 <= t1 < t2 < |es|
      ensures es[t1].0 != es[t2].0
    {
      var i1, j1 := FlattenOrigin(bs, t1);
      var i2, j2 := FlattenOrigin(bs, t2);
      assert Chain(bs[i1], i1, capacity, m) && Chain(bs[i2], i2, capacity, m);
      if i1 == i2 {
        assert j1 != j2;
      }
    }
  }

  /** A chain that does not hold `k` stays proper when only the binding of `k` changes. */
  lemma ChainWithout<V>(b: Bucket<V>, index: nat, capacity: nat, m: map<Key, V>, m': map<Key, V>, k: Key)
    requires capacity > 0 && Chain(b, index, capacity, m)
    requires forall j :: 0 <= j < |b| ==> b[j].0 != k
    requires forall k' :: k' != k ==> (k' in m <==> k' in m') && (k' in m ==> m[k'] == m'[k'])
    ensures Chain(b, index, capacity, m')
  {
  }

  /**
   * Overwriting the value of the entry that holds `k`, in place, makes the
   * layout store `m` with `k` rebound to `v`.
   */
  lemma OverwriteRepresents<V>(bs: seq<Bucket<V>>, capacity: nat, m: map<Key, V>, k: Key, v: V, j: nat)
    requires Represents(bs, capacity, m)
    requires j < |bs[HashOf(k, capacity)]| && bs[HashOf(k, capacity)][j].0 == k
    ensures var h := HashOf(k, capacity);
            Represents(bs[h := bs[h][j := (k, v)]], capacity, m[k := v])
  {
    var h := HashOf(k, capacity);
    var bs' := bs[h := bs[h][j := (k, v)]];
    var m' := m[k := v];
    assert Chain(bs[h], h, capacity, m);
    ChainOverwrite(bs[h], h, capacity, m, k, v, j);
    forall i | 0 <= i < |bs'| && i != h
      ensures Chain(bs'[i], i, capacity, m')
    {
      assert Chain(bs[i], i, capacity, m);
      ChainWithout(bs[i], i, capacity, m, m', k);
    }
    forall k' | k' in m'
      ensures InChain(bs'[HashOf(k', capacity)], k')
    {
      OverwriteKeepsKeys(bs, capacity, m, k, v, j, k');
    }
  }

  /** Overwriting the value of entry `j`, which holds `k`, keeps a proper chain for `m` with `k` rebound. */
  lemma ChainOverwrite<V>(b: Bucket<V>, index: nat, capacity: nat, m: map<Key, V>, k: Key, v: V, j: nat)
    requires capacity > 0 && Chain(b, index, capacity, m)
    requires j < |b| && b[j].0 == k
    ensures Chain(b[j := (k, v)], index, capacity, m[k := v])
  {
    var b' := b[j := (k, v)];
    var m' := m[k := v];
    forall t | 0 <= t < |b'|
      ensures HashOf(b'[t].0, capacity) == index && b'[t].0 in m' && m'[b'[t].0] == b'[t].1
    {
      if t != j {
        assert b'[t] == b[t] && b[t].0 != k;
      }
    }
    forall t1, t2 | 0 <= t1 < t2 < |b'|
      ensures b'[t1].0 != b'[t2].0
    {
      assert b'[t1].0 == b[t1].0 && b'[t2].0 == b[t2].0;
    }
  }

  /** After the overwrite, every key of the map is still in the chain it hashes to. */
  lemma OverwriteKeepsKeys<V>(bs: seq<Bucket<V>>, capacity: nat, m: map<Key, V>, k: Key, v: V, j: nat, k': Key)
    requires Represents(bs, capacity, m)
    requires j < |bs[HashOf(k, capacity)]| && bs[HashOf(k, capacity)][j].0 == k
    requires k' in m[k := v]
    ensures var h := HashOf(k, capacity);
            InChain(bs[h := bs[h][j := (k, v)]][HashOf(k', capacity)], k')
  {
    var h := HashOf(k, capacity);
    var bs': seq<Bucket<V>> := bs[h := bs[h][j := (k, v)]];
    if k' == k {
      assert bs'[h][j].0 == k;
    } else {
      var h' := HashOf(k', capacity);
      assert InChain(bs[h'], k');
      var j' :| 0 <= j' < |bs[h']| && bs[h'][j'].0 == k';
      assert bs'[h'][j'].0 == k';
    }
  }

  /**
   * Appending an entry for a key the map does not hold to the chain that key
   * hashes to makes the layout store `m` extended with that binding.
   */
  lemma AppendRepresents<V>(bs: seq<Bucket<V>>, capacity: nat, m: map<Key, V>, k: Key, v: V)
    requires Represents(bs, capacity, m)
    requires k !in m
    ensures var h := HashOf(k, capacity);
            Represents(bs[h := bs[h] + [(k, v)]], capacity, m[k := v])
  {
    var h := HashOf(k, capacity);
    var bs' := bs[h := bs[h] + [(k, v)]];
    var m' := m[k := v];
    forall i | 0 <= i < |bs'|
      ensures Chain(bs'[i], i, capacity, m')
    {
      assert Chain(bs[i], i, capacity, m);
    }
    forall k' | k' in m'
      ensures InChain(bs'[HashOf(k', capacity)], k')
    {
      if k' == k {
        assert bs'[h][|bs[h]|].0 == k;
      } else {
        var h' := HashOf(k', capacity);
        assert InChain(bs[h'], k');
        var j' :| 0 <= j' < |bs[h']| && bs[h'][j'].0 == k';
        assert bs'[h'][j'].0 == k';
      }
    }
  }

  /** Cutting entry `j`, which holds `k`, out of a proper chain leaves a proper chain for `m` without `k`. */
  lemma ChainSplice<V>(b: Bucket<V>, index: nat, capacity: nat, m: map<Key, V>, k: Key, j: nat)
    requires capacity > 0 && Chain(b, index, capacity, m)
    requires j < |b| && b[j].0 == k
    ensures Chain(b[..j] + b[j + 1..], index, capacity, m - {k})
  {
    var b' := b[..j] + b[j + 1..];
    var m' := m - {k};
    assert forall t :: 0 <= t < |b'| ==> b'[t] == (if t < j then b[t] else b[t + 1]);
    forall t | 0 <= t < |b'|
      ensures HashOf(b'[t].0, capacity) == index && b'[t].0 in m' && m'[b'[t].0] == b'[t].1
    {
      if t < j {
        assert b[t].0 != k;
      } else {
        assert b[t + 1].0 != k;
      }
    }
    forall t1, t2 | 0 <= t1 < t2 < |b'|
      ensures b'[t1].0 != b'[t2].0
    {
      var u1 := if t1 < j then t1 else t1 + 1;
      var u2 := if t2 < j then t2 else t2 + 1;
      assert b'[t1] == b[u1] && b'[t2] == b[u2] && u1 < u2;
    }
  }

  /**
   * Cutting the entry that holds `k` out of its chain, keeping the others in
   * order, makes the layout store `m` without `k`.
   */
  lemma SpliceRepresents<V>(bs: seq<Bucket<V>>, capacity: nat, m: map<Key, V>, k: Key, j: nat)
    requires Represents(bs, capacity, m)
    requires j < |bs[HashOf(k, capacity)]| && bs[HashOf(k, capacity)][j].0 == k
    ensures var h := HashOf(k, capacity);
            Represents(bs[h := bs[h][..j] + bs[h][j + 1..]], capacity, m - {k})
  {
    var h := HashOf(k, capacity);
    var b := bs[h];
    var b' := b[..j] + b[j + 1..];
    var bs' := bs[h := b'];
    var m' := m - {k};
    assert Chain(b, h, capacity, m);
    ChainSplice(b, h, capacity, m, k, j);
    forall i | 0 <= i < |bs'| && i != h
      ensures Chain(bs'[i], i, capacity, m')
    {
      assert Chain(bs[i], i, capacity, m);
      ChainWithout(bs[i], i, capacity, m, m', k);
    }
    forall k' | k' in m'
      ensures InChain(bs'[HashOf(k', capacity)], k')
    {
      SpliceKeepsOthers(bs, capacity, m, k, j, k');
    }
  }

  /** After the splice, every other key of the map is still in the chain it hashes to. */
  lemma SpliceKeepsOthers<V>(bs: seq<Bucket<V>>, capacity: nat, m: map<Key, V>, k: Key, j: nat, k': Key)
    requires Represents(bs, capacity, m)
    requires j < |bs[HashOf(k, capacity)]| && bs[HashOf(k, capacity)][j].0 == k
    requires k' in m && k' != k
    ensures var h := HashOf(k, capacity);
            InChain(bs[h := bs[h][..j] + bs[h][j + 1..]][HashOf(k', capacity)], k')
  {
    var h := HashOf(k, capacity);
    var b := bs[h];
    var b' := b[..j] + b[j + 1..];
    var bs': seq<Bucket<V>> := bs[h := b'];
    var h' := HashOf(k', capacity);
    assert InChain(bs[h'], k');
    var j' :| 0 <= j' < |bs[h']| && bs[h'][j'].0 == k';
    if h' == h {
      var t := if j' < j then j' else j' - 1;
      assert b'[t] == b[j'];
      assert bs'[h'][t].0 == k';
    } else {
      assert bs'[h'] == bs[h'];
    }
  }

  /**
   * Storing entries one after the other that all agree with `m` yields a map
   * that agrees with `m` on every key it holds.
   */
  lemma {:induction false} MapOfAgrees<V>(es: seq<Entry<V>>, m: map<Key, V>)
    requires forall t :: 0 <= t < |es| ==> es[t].0 in m && m[es[t].0] == es[t].1
    ensures forall k :: k in MapOf(es) ==> k in m && MapOf(es)[k] == m[k]
  {
    if |es| > 0 {
      MapOfAgrees(es[..|es| - 1], m);
    }
  }

  /**
   * Re-inserting every entry of a layout that stores `m`, in flattening
   * order, rebuilds exactly `m`.
   */
  lemma RehashComplete<V>(bs: seq<Bucket<V>>, capacity: nat, m: map<Key, V>)
    requires Represents(bs, capacity, m)
    ensures MapOf(Flatten(bs)) == m
  {
    var es := Flatten(bs);
    FlattenRepresents(bs, capacity, m);
    MapOfAgrees(es, m);
    MapOfKeys(es);
    assert MapOf(es).Keys == m.Keys;
  }

  /** A key that the chain it hashes to does not hold is not in the map. */
  lemma AbsentKey<V>(bs: seq<Bucket<V>>, capacity: nat, m: map<Key, V>, k: Key)
    requires Represents(bs, capacity, m)
    requires forall t :: 0 <= t < |bs[HashOf(k, capacity)]| ==> bs[HashOf(k, capacity)][t].0 != k
    ensures k !in m
  {
    assert !InChain(bs[HashOf(k, capacity)], k);
  }

  /** Extending a prefix of `b` by one element of `b`. */
  lemma PrefixSnoc<T>(a: seq<T>, b: seq<T>, j: nat)
    requires j < |b|
    ensures a + b[..j + 1] == (a + b[..j]) + [b[j]]
  {
    assert b[..j + 1] == b[..j] + [b[j]];
  }
}
