/** Keyed grouping into a record of arrays, the pattern every page repeats:

      const groups = {};
      xs.forEach(x => { const k = key(x); if (!groups[k]) groups[k] = []; groups[k].push(x); });

    A JavaScript object remembers the order in which its string keys were first
    assigned, so the record is modelled as that key order plus a map from key to
    bucket. */
module Grouping {
  import opened Seqs

  /** A record `Record<K, T[]>`: `keys` is `Object.keys`, `buckets` the values. */
  datatype Groups<K, T> = Groups(keys: seq<K>, buckets: map<K, seq<T>>)

  /** The distinct keys of `xs`, in order of first appearance. This is both
      `Object.keys` of the grouped record and `Array.from(new Set(xs.map(key)))`. */
  function KeysInOrder<T, K(==)>(xs: seq<T>, key: T -> K): seq<K>
  {
    if xs == [] then []
    else
      var ks := KeysInOrder(xs[..|xs| - 1], key);
      if key(xs[|xs| - 1]) in ks then ks else ks + [key(xs[|xs| - 1])]
  }

  /** The test "this element has key `k`". */
  function HasKey<T, K(==)>(key: T -> K, k: K): T -> bool
  {
    (x: T) => key(x) == k
  }

  /** The elements of `xs` with key `k`, in input order: what `groups[k]` holds. */
  function Bucket<T, K(==)>(xs: seq<T>, key: T -> K, k: K): seq<T>
  {
    Filter(HasKey(key, k), xs)
  }

  /** The buckets of `ks`, one after the other: `Object.values(groups).flat()`
      when `ks` is the record's key order. */
  function Flatten<T, K(==)>(xs: seq<T>, key: T -> K, ks: seq<K>): seq<T>
  {
    if ks == [] then [] else Bucket(xs, key, ks[0]) + Flatten(xs, key, ks[1..])
  }

  /** The grouping loop. */
  method GroupBy<T, K(==)>(xs: seq<T>, key: T -> K) returns (g: Groups<K, T>)
    ensures g.keys == KeysInOrder(xs, key)
    ensures forall k :: k in g.buckets <==> k in g.keys
    ensures forall k | k in g.buckets :: g.buckets[k] == Bucket(xs, key, k)
  {
    var keys: seq<K> := [];
    var buckets: map<K, seq<T>> := map[];
    for i := 0 to |xs|
      invariant keys == KeysInOrder(xs[..i], key)
      invariant forall k :: k in buckets <==> k in keys
      invariant forall k | k in buckets :: buckets[k] == Bucket(xs[..i], key, k)
    {
      var k := key(xs[i]);
      assert xs[..i + 1][..i] == xs[..i];
      assert xs[..i + 1][i] == xs[i];
      if k !in buckets {
        KeyAbsentBucketEmpty(xs[..i], key, k);
        buckets := buckets[k := []];
        keys := keys + [k];
      }
      buckets := buckets[k := buckets[k] + [xs[i]]];
    }
    assert xs[..|xs|] == xs;
    g := Groups(keys, buckets);
  }

  /** A key is listed exactly when some element carries it. */
  lemma {:induction false} KeysInOrderMembership<T, K>(xs: seq<T>, key: T -> K, k: K)
    ensures k in KeysInOrder(xs, key) <==> exists i | 0 <= i < |xs| :: key(xs[i]) == k
    decreases |xs|
  {
    if xs != [] {
      var init := xs[..|xs| - 1];
      KeysInOrderMembership(init, key, k);
      if exists i | 0 <= i < |init| :: key(init[i]) == k {
        var i :| 0 <= i < |init| && key(init[i]) == k;
        assert key(xs[i]) == k;
      }
      if exists i | 0 <= i < |xs| :: key(xs[i]) == k {
        var i :| 0 <= i < |xs| && key(xs[i]) == k;
        if i < |init| {
          assert key(init[i]) == k;
        }
      }
    }
  }

  /** Listed keys are pairwise distinct. */
  lemma {:induction false} KeysInOrderDistinct<T, K>(xs: seq<T>, key: T -> K)
    ensures Distinct(KeysInOrder(xs, key))
    decreases |xs|
  {
    if xs != [] {
      KeysInOrderDistinct(xs[..|xs| - 1], key);
    }
  }

  /** A key that no element carries has an empty bucket. */
  lemma KeyAbsentBucketEmpty<T, K>(xs: seq<T>, key: T -> K, k: K)
    requires k !in KeysInOrder(xs, key)
    ensures Bucket(xs, key, k) == []
  {
    KeysInOrderMembership(xs, key, k);
  }

  /** Every listed key has a non-empty bucket. */
  lemma KeyPresentBucketNonEmpty<T, K>(xs: seq<T>, key: T -> K, k: K)
    requires k in KeysInOrder(xs, key)
    ensures |Bucket(xs, key, k)| > 0
  {
    KeysInOrderMembership(xs, key, k);
    var i :| 0 <= i < |xs| && key(xs[i]) == k;
    assert xs[i] in Bucket(xs, key, k);
  }

  /** The sizes of the buckets of `ks`, added up. */
  function BucketSizes<T, K(==)>(xs: seq<T>, key: T -> K, ks: seq<K>): nat
  {
    if ks == [] then 0 else |Bucket(xs, key, ks[0])| + BucketSizes(xs, key, ks[1..])
  }

  /** Laying out buckets one after another adds up their sizes. */
  lemma {:induction false} FlattenLengths<T, K>(xs: seq<T>, key: T -> K, ks: seq<K>)
    ensures |Flatten(xs, key, ks)| == BucketSizes(xs, key, ks)
  {
    if ks != [] {
      FlattenLengths(xs, key, ks[1..]);
    }
  }

  /** Visiting one more element grows its own bucket by one and no other. */
  lemma BucketExtend<T, K>(xs: seq<T>, key: T -> K, k: K, i: nat)
    requires i < |xs|
    ensures |Bucket(xs[..i + 1], key, k)| == |Bucket(xs[..i], key, k)| + (if key(xs[i]) == k then 1 else 0)
  {
    assert xs[..i + 1][..i] == xs[..i];
  }

  /** Laying out the buckets of distinct keys keeps each copy of an element whose
      key is among them, once, and nothing else. */
  lemma {:induction false} FlattenMultiplicity<T, K>(xs: seq<T>, key: T -> K, ks: seq<K>, x: T)
    requires Distinct(ks)
    ensures multiset(Flatten(xs, key, ks))[x] == if key(x) in ks then multiset(xs)[x] else 0
    decreases |ks|
  {
    if ks != [] {
      assert Distinct(ks[1..]);
      FlattenMultiplicity(xs, key, ks[1..], x);
      FilterMultiplicity(HasKey(key, ks[0]), xs, x);
      assert key(x) in ks <==> key(x) == ks[0] || key(x) in ks[1..];
      assert ks[0] !in ks[1..];
    }
  }

  /** When `ks` lists every key of `xs` once, laying out their buckets is a
      permutation of `xs`: each element lands in exactly one bucket. */
  lemma FlattenIsPermutation<T, K>(xs: seq<T>, key: T -> K, ks: seq<K>)
    requires Distinct(ks)
    requires forall i | 0 <= i < |xs| :: key(xs[i]) in ks
    ensures multiset(Flatten(xs, key, ks)) == multiset(xs)
    ensures |Flatten(xs, key, ks)| == |xs|
  {
    var f := Flatten(xs, key, ks);
    forall x
      ensures multiset(f)[x] == multiset(xs)[x]
    {
      FlattenMultiplicity(xs, key, ks, x);
      if x in xs {
        var i :| 0 <= i < |xs| && xs[i] == x;
        assert key(x) in ks;
      }
    }
    MultisetExtensional(multiset(f), multiset(xs));
    assert |multiset(f)| == |f| && |multiset(xs)| == |xs|;
  }

  /** The record built from `xs` holds `xs` exactly: every element lies in exactly
      one bucket, the one of its key; no bucket is empty; and the bucket sizes add
      up to `|xs|`. */
  lemma GroupsPartition<T, K>(xs: seq<T>, key: T -> K)
    ensures Distinct(KeysInOrder(xs, key))
    ensures forall k | k in KeysInOrder(xs, key) :: |Bucket(xs, key, k)| > 0
    ensures multiset(Flatten(xs, key, KeysInOrder(xs, key))) == multiset(xs)
    ensures |Flatten(xs, key, KeysInOrder(xs, key))| == |xs|
  {
    var ks := KeysInOrder(xs, key);
    KeysInOrderDistinct(xs, key);
    forall k | k in ks
      ensures |Bucket(xs, key, k)| > 0
    {
      KeyPresentBucketNonEmpty(xs, key, k);
    }
    forall i | 0 <= i < |xs|
      ensures key(xs[i]) in ks
    {
      KeysInOrderMembership(xs, key, key(xs[i]));
    }
    FlattenIsPermutation(xs, key, ks);
  }
}
