/** Bucket arrays of the hash backend (symtablehash.c): an array of chains, a
    binding living in the chain its key hashes to. */
module Buckets {
  import opened Keys
  import opened Wrappers
  import opened Chains
  import opened Hashing

  /** `ppsSymNode`: one chain head per bucket. */
  type BucketArray<V> = seq<Chain<V>>

  /** Every binding sits in the bucket its key hashes to for this many buckets. */
  predicate Indexed<V>(b: BucketArray<V>) {
    && |b| > 0
    && forall i, j :: 0 <= i < |b| && 0 <= j < |b[i]| ==> Hash(b[i][j].key, |b|) == i
  }

  /** No chain holds a key twice. */
  predicate ChainsUnique<V>(b: BucketArray<V>) {
    forall i :: 0 <= i < |b| ==> UniqueKeys(b[i])
  }

  /** All bindings in bucket-index order, and within a bucket in chain order:
      the order in which `SymTable_map` walks the table. */
  function Flatten<V>(b: BucketArray<V>): Chain<V>
    decreases |b|
  {
    if |b| == 0 then [] else Flatten(b[..|b| - 1]) + b[|b| - 1]
  }

  /** The sum of the chain lengths. */
  function TotalLength<V>(b: BucketArray<V>): nat
    decreases |b|
  {
    if |b| == 0 then 0 else TotalLength(b[..|b| - 1]) + |b[|b| - 1]|
  }

  /** The search of one bucket that `contains`, `get`, `replace` and `remove`
      perform: only the chain `key` hashes to is scanned. */
  function Lookup<V>(b: BucketArray<V>, key: Key): Option<V>
    requires |b| > 0
  {
    Find(b[Hash(key, |b|)], key)
  }

  /** A freshly `calloc`ed array: `n` empty chains. */
  function Empty<V>(n: nat): (b: BucketArray<V>)
    ensures |b| == n
    ensures forall i :: 0 <= i < n ==> b[i] == []
  {
    seq(n, _ => [])
  }

  /** `SymTable_insert`: make `x` the head of the bucket its key hashes to. */
  function Insert<V>(b: BucketArray<V>, x: Binding<V>): (r: BucketArray<V>)
    requires |b| > 0
    ensures |r| == |b|
    ensures var h := Hash(x.key, |b|); |r[h]| > 0 && r[h][0] == x && r[h][1..] == b[h]
    ensures forall i :: 0 <= i < |b| && i != Hash(x.key, |b|) ==> r[i] == b[i]
    ensures TotalLength(r) == TotalLength(b) + 1
  {
    TotalLengthUpdate(b, Hash(x.key, |b|), [x] + b[Hash(x.key, |b|)]);
    var h := Hash(x.key, |b|);
    b[h := [x] + b[h]]
  }

  /** Insert the bindings of `items` one after another, each at the head of
      its bucket. */
  function InsertAll<V>(b: BucketArray<V>, items: Chain<V>): (r: BucketArray<V>)
    requires |b| > 0
    ensures |r| == |b|
    ensures TotalLength(r) == TotalLength(b) + |items|
    decreases |items|
  {
    if |items| == 0 then b else InsertAll(Insert(b, items[0]), items[1..])
  }

  /** Where `InsertAll` puts things: every inserted binding ends up in the
      bucket its key hashes to, no earlier binding leaves its bucket, and a
      bucket no key hashes to is untouched. */
  lemma {:induction false} InsertAllPlaces<V>(b: BucketArray<V>, items: Chain<V>)
    requires |b| > 0
    ensures var r := InsertAll(b, items);
      && (forall i, x :: 0 <= i < |b| && x in b[i] ==> x in r[i])
      && (forall j :: 0 <= j < |items| ==> items[j] in r[Hash(items[j].key, |b|)])
      && (forall i :: 0 <= i < |b| && (forall j :: 0 <= j < |items| ==> Hash(items[j].key, |b|) != i) ==>
            r[i] == b[i])
    decreases |items|
  {
    if |items| > 0 {
      InsertAllPlaces(Insert(b, items[0]), items[1..]);
    }
  }

  /** The flattened array holds as many bindings as the chains together. */
  lemma {:induction false} FlattenLength<V>(b: BucketArray<V>)
    ensures |Flatten(b)| == TotalLength(b)
  {
    if |b| > 0 {
      FlattenLength(b[..|b| - 1]);
    }
  }

  /** Replacing one chain changes the total by the difference in lengths. */
  lemma {:induction false} TotalLengthUpdate<V>(b: BucketArray<V>, i: nat, c: Chain<V>)
    requires i < |b|
    ensures TotalLength(b[i := c]) == TotalLength(b) - |b[i]| + |c|
  {
    var n := |b|;
    var b' := b[i := c];
    if i == n - 1 {
      assert b'[..n - 1] == b[..n - 1];
    } else {
      assert b'[..n - 1] == b[..n - 1][i := c];
      TotalLengthUpdate(b[..n - 1], i, c);
    }
  }

  /** An array of empty chains holds nothing. */
  lemma {:induction false} AllEmpty<V>(b: BucketArray<V>)
    requires forall i :: 0 <= i < |b| ==> b[i] == []
    ensures Flatten(b) == []
    ensures TotalLength(b) == 0
  {
    if |b| > 0 {
      AllEmpty(b[..|b| - 1]);
    }
  }

  /** The first `n` buckets, flattened, hold only keys hashing below `n`, in
      non-decreasing bucket order. */
  lemma {:induction false} FlattenPrefixOrdered<V>(b: BucketArray<V>, n: nat)
    requires Indexed(b)
    requires n <= |b|
    ensures forall p :: 0 <= p < |Flatten(b[..n])| ==> Hash(Flatten(b[..n])[p].key, |b|) < n
    ensures forall p, q :: 0 <= p < q < |Flatten(b[..n])| ==>
      Hash(Flatten(b[..n])[p].key, |b|) <= Hash(Flatten(b[..n])[q].key, |b|)
  {
    if n > 0 {
      assert b[..n][..n - 1] == b[..n - 1];
      FlattenPrefixOrdered(b, n - 1);
      var front: Chain<V>, last: Chain<V> := Flatten(b[..n - 1]), b[n - 1];
      assert Flatten(b[..n]) == front + last;
      forall p | 0 <= p < |front + last|
        ensures Hash((front + last)[p].key, |b|) == if p < |front| then Hash(front[p].key, |b|) else n - 1
      {
        if p >= |front| {
          assert (front + last)[p] == last[p - |front|];
        }
      }
    }
  }

  /** Scanning the first `n` buckets flattened finds exactly what scanning
      the key's own bucket finds, if that bucket is among them. */
  lemma {:induction false} FlattenPrefixFind<V>(b: BucketArray<V>, n: nat, key: Key)
    requires Indexed(b)
    requires n <= |b|
    ensures Find(Flatten(b[..n]), key) ==
      if Hash(key, |b|) < n then Find(b[Hash(key, |b|)], key) else None
  {
    if n > 0 {
      assert b[..n][..n - 1] == b[..n - 1];
      FlattenPrefixFind(b, n - 1, key);
      var front: Chain<V>, last: Chain<V> := Flatten(b[..n - 1]), b[n - 1];
      assert Flatten(b[..n]) == front + last;
      FindAppend(front, last, key);
      if Hash(key, |b|) != n - 1 {
        assert !HasKey(last, key);
      }
    }
  }

  /** Keys in different buckets differ, so the whole table has unique keys
      when every chain does. */
  lemma {:induction false} FlattenPrefixUnique<V>(b: BucketArray<V>, n: nat)
    requires Indexed(b) && ChainsUnique(b)
    requires n <= |b|
    ensures UniqueKeys(Flatten(b[..n]))
  {
    if n > 0 {
      assert b[..n][..n - 1] == b[..n - 1];
      FlattenPrefixUnique(b, n - 1);
      FlattenPrefixOrdered(b, n - 1);
      var front: Chain<V>, last: Chain<V> := Flatten(b[..n - 1]), b[n - 1];
      assert Flatten(b[..n]) == front + last;
      forall j | 0 <= j < |last| ensures !HasKey(front, last[j].key) {
        assert Hash(last[j].key, |b|) == n - 1;
      }
      UniqueAppend(front, last);
    }
  }

  /** The whole-array forms of the prefix lemmas. */
  lemma FlattenAll<V>(b: BucketArray<V>)
    requires Indexed(b)
    ensures forall key :: Find(Flatten(b), key) == Lookup(b, key)
    ensures forall p, q :: 0 <= p < q < |Flatten(b)| ==>
      Hash(Flatten(b)[p].key, |b|) <= Hash(Flatten(b)[q].key, |b|)
    ensures ChainsUnique(b) ==> UniqueKeys(Flatten(b))
    ensures |Flatten(b)| == TotalLength(b)
  {
    assert b[..|b|] == b;
    forall key ensures Find(Flatten(b), key) == Lookup(b, key) {
      FlattenPrefixFind(b, |b|, key);
    }
    FlattenPrefixOrdered(b, |b|);
    if ChainsUnique(b) {
      FlattenPrefixUnique(b, |b|);
    }
    FlattenLength(b);
  }

  /** Replacing chain `h` by a chain with unique keys that all hash to `h`
      keeps the array indexed and unique, and changes lookups of keys of that
      bucket only. */
  lemma UpdateChain<V>(b: BucketArray<V>, h: nat, c: Chain<V>)
    requires Indexed(b) && ChainsUnique(b)
    requires h < |b|
    requires UniqueKeys(c)
    requires forall j :: 0 <= j < |c| ==> Hash(c[j].key, |b|) == h
    ensures Indexed(b[h := c]) && ChainsUnique(b[h := c])
    ensures TotalLength(b[h := c]) == TotalLength(b) - |b[h]| + |c|
    ensures forall k :: Lookup(b[h := c], k) == if Hash(k, |b|) == h then Find(c, k) else Lookup(b, k)
  {
    TotalLengthUpdate(b, h, c);
  }

  /** Swapping the value of a key present in its bucket keeps the array
      indexed and unique, keeps its size, and rebinds exactly that key. */
  lemma SetValueInBucket<V>(b: BucketArray<V>, key: Key, value: V)
    requires Indexed(b) && ChainsUnique(b)
    requires Lookup(b, key).Some?
    ensures var h := Hash(key, |b|);
      var b' := b[h := SetValue(b[h], key, value)];
      && Indexed(b') && ChainsUnique(b')
      && TotalLength(b') == TotalLength(b)
      && forall k :: Lookup(b', k) == if k == key then Some(value) else Lookup(b, k)
  {
    var h := Hash(key, |b|);
    var c := b[h];
    var c' := SetValue(c, key, value);
    SetValueBindings(c, key, value);
    assert forall j :: 0 <= j < |c'| ==> c'[j].key == c[j].key;
    UpdateChain(b, h, c');
  }

  /** Splicing a key present in its bucket out of it keeps the array indexed
      and unique, removes one binding, and unbinds exactly that key. */
  lemma RemoveInBucket<V>(b: BucketArray<V>, key: Key)
    requires Indexed(b) && ChainsUnique(b)
    requires Lookup(b, key).Some?
    ensures var h := Hash(key, |b|);
      var b' := b[h := Chains.Remove(b[h], key)];
      && Indexed(b') && ChainsUnique(b')
      && TotalLength(b') == TotalLength(b) - 1
      && forall k :: Lookup(b', k) == if k == key then None else Lookup(b, k)
  {
    var h := Hash(key, |b|);
    var c := b[h];
    var c' := Chains.Remove(c, key);
    RemoveBindings(c, key);
    var i := IndexOf(c, key);
    forall p | 0 <= p < |c'| ensures Hash(c'[p].key, |b|) == h {
      assert c'[p] == c[if p < i then p else p + 1];
    }
    UpdateChain(b, h, c');
  }

  /** `SymTable_insert` of a binding whose key is absent keeps the array
      indexed and unique, adds one binding, and binds exactly its key anew. */
  lemma InsertFresh<V>(b: BucketArray<V>, x: Binding<V>)
    requires Indexed(b) && ChainsUnique(b)
    requires Lookup(b, x.key) == None
    ensures Indexed(Insert(b, x)) && ChainsUnique(Insert(b, x))
    ensures TotalLength(Insert(b, x)) == TotalLength(b) + 1
    ensures forall key :: Lookup(Insert(b, x), key) ==
                          if key == x.key then Some(x.value) else Lookup(b, key)
  {
    var h := Hash(x.key, |b|);
    var r: BucketArray<V> := Insert(b, x);
    UniqueAppend([x], b[h]);
    TotalLengthUpdate(b, h, [x] + b[h]);
    forall i, j | 0 <= i < |r| && 0 <= j < |r[i]| ensures Hash(r[i][j].key, |r|) == i {
      if i == h && j > 0 {
        assert r[i][j] == b[h][j - 1];
      }
    }
    forall key ensures Lookup(r, key) == if key == x.key then Some(x.value) else Lookup(b, key) {
      FindAppend([x], b[h], key);
    }
  }

  /** Inserting bindings with unique, absent keys one by one keeps the array
      indexed and unique, adds them all, and binds exactly their keys anew. */
  lemma {:induction false} InsertAllFresh<V>(b: BucketArray<V>, items: Chain<V>)
    requires Indexed(b) && ChainsUnique(b)
    requires UniqueKeys(items)
    requires forall i :: 0 <= i < |items| ==> Lookup(b, items[i].key) == None
    ensures Indexed(InsertAll(b, items)) && ChainsUnique(InsertAll(b, items))
    ensures TotalLength(InsertAll(b, items)) == TotalLength(b) + |items|
    ensures forall key :: Lookup(InsertAll(b, items), key) ==
                          if HasKey(items, key) then Find(items, key) else Lookup(b, key)
    decreases |items|
  {
    if |items| > 0 {
      var x, rest := items[0], items[1..];
      var b1 := Insert(b, x);
      InsertFresh(b, x);
      UniqueCons(items);
      forall i | 0 <= i < |rest| ensures Lookup(b1, rest[i].key) == None {
        assert rest[i] == items[i + 1];
      }
      InsertAllFresh(b1, rest);
      forall key ensures Lookup(InsertAll(b, items), key) ==
        if HasKey(items, key) then Find(items, key) else Lookup(b, key)
      {
        FindCons(items, key);
      }
    }
  }
}
