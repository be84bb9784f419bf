/** The hash backend (symtablehash.c): a bucket array whose size follows a fixed
    table of growth stages, a binding count, and operations that scan only the
    bucket a key hashes to.

    The growth stage is a field of each table, not one process-wide counter,
    growth stops at the last stage, and a rehash moves every binding by its
    own key; see `SourceDefects` for how the source departs from this. */
module SymTableHash {
  import opened Keys
  import opened Wrappers
  import opened Chains
  import opened Hashing
  import opened Buckets
  import SymTable

  /** `auBucketCounts`: the bucket count of each growth stage. */
  const BucketCounts: seq<nat> := [509, 1021, 2039, 4093, 8191, 16381, 32749, 65521]

  /** `struct SymTable` with its growth stage: the bucket array, the index of
      the current stage in `BucketCounts`, and the binding count. */
  datatype HashTable<V> = HashTable(buckets: BucketArray<V>, stage: nat, length: nat)

  /** Result of `put`: the table afterwards and whether a binding was added. */
  datatype PutResult<V> = PutResult(table: HashTable<V>, inserted: bool)

  /** Result of `replace` and `remove`: the table afterwards and the old value. */
  datatype SwapResult<V> = SwapResult(table: HashTable<V>, previous: Option<V>)

  /** Representation invariant: the array has the current stage's size, every
      binding is in bucket `Hash(key, count)`, no chain repeats a key, and
      `length` is the sum of the chain lengths. */
  predicate Valid<V>(t: HashTable<V>) {
    && t.stage < |BucketCounts|
    && |t.buckets| == BucketCounts[t.stage]
    && Indexed(t.buckets)
    && ChainsUnique(t.buckets)
    && t.length == TotalLength(t.buckets)
  }

  /** The bindings the table stands for. */
  function Abs<V>(t: HashTable<V>): map<Key, V> {
    ToMap(Flatten(t.buckets))
  }

  /** The binding of a key is found by scanning the key's own bucket only. */
  lemma AbsLookup<V>(t: HashTable<V>, key: Key)
    requires Indexed(t.buckets)
    ensures SymTable.Get(Abs(t), key) == Lookup(t.buckets, key)
  {
    FlattenAll(t.buckets);
  }

  /** A map that answers every key as a scan of the key's bucket does is the
      table's abstraction. */
  lemma AbsByLookup<V>(t: HashTable<V>, m: map<Key, V>)
    requires Indexed(t.buckets)
    requires forall k :: Lookup(t.buckets, k) == SymTable.Get(m, k)
    ensures Abs(t) == m
  {
    forall k ensures SymTable.Get(Abs(t), k) == SymTable.Get(m, k) {
      AbsLookup(t, k);
    }
    SymTable.EqualByGet(Abs(t), m);
  }

  /** A table whose lookups are those of `t` except that `key` is unbound
      stands for the map of `t` without `key`. */
  lemma AbsRemove<V>(t: HashTable<V>, r: HashTable<V>, key: Key)
    requires Indexed(t.buckets) && Indexed(r.buckets)
    requires forall k :: Lookup(r.buckets, k) == if k == key then None else Lookup(t.buckets, k)
    ensures Abs(r) == Abs(t) - {key}
  {
    forall k ensures SymTable.Get(Abs(r), k) == SymTable.Get(Abs(t) - {key}, k) {
      AbsLookup(r, k);
      AbsLookup(t, k);
    }
    SymTable.EqualByGet(Abs(r), Abs(t) - {key});
  }

  /** A table whose lookups are those of `t` except that `key` is bound to
      `value` stands for the map of `t` with `key` bound to `value`. */
  lemma AbsUpdate<V>(t: HashTable<V>, r: HashTable<V>, key: Key, value: V)
    requires Indexed(t.buckets) && Indexed(r.buckets)
    requires forall k :: Lookup(r.buckets, k) == if k == key then Some(value) else Lookup(t.buckets, k)
    ensures Abs(r) == Abs(t)[key := value]
  {
    forall k ensures SymTable.Get(Abs(r), k) == SymTable.Get(Abs(t)[key := value], k) {
      AbsLookup(r, k);
      AbsLookup(t, k);
    }
    SymTable.EqualByGet(Abs(r), Abs(t)[key := value]);
  }

  /** Keys are unique across the whole table, not only within a chain, and
      the count equals the number of bindings. */
  lemma KeysUniqueAcrossTable<V>(t: HashTable<V>)
    requires Valid(t)
    ensures UniqueKeys(Flatten(t.buckets))
    ensures |Abs(t)| == t.length
  {
    FlattenAll(t.buckets);
    MapSize(Flatten(t.buckets));
  }

  /** `SymTable_new`: an empty table of 509 buckets at stage 0, or `None`
      (NULL) when allocating the record or its bucket array fails. */
  function New<V>(allocOk: bool): (r: Option<HashTable<V>>)
    ensures r.Some? <==> allocOk
    ensures r.Some? ==> Valid(r.value) && r.value.stage == 0 && |r.value.buckets| == 509
    ensures r.Some? ==> r.value.length == 0 && Abs(r.value) == SymTable.New()
  {
    if allocOk then
      var b: BucketArray<V> := Empty(BucketCounts[0]);
      AllEmpty(b);
      assert ToMap<V>([]) == map[];
      Some(HashTable(b, 0, 0))
    else None
  }

  /** `SymTable_getLength`: the number of bindings. */
  function GetLength<V>(t: HashTable<V>): (n: nat)
    requires Valid(t)
    ensures n == |Abs(t)|
  {
    KeysUniqueAcrossTable(t);
    t.length
  }

  /** `SymTable_contains`: whether the key's bucket holds the key. */
  function Contains<V>(t: HashTable<V>, key: Key): (b: bool)
    requires Valid(t)
    ensures b <==> key in Abs(t)
  {
    AbsLookup(t, key);
    Lookup(t.buckets, key).Some?
  }

  /** `SymTable_get`: the value bound to `key`, or `None`. */
  function Get<V>(t: HashTable<V>, key: Key): (r: Option<V>)
    requires Valid(t)
    ensures r == SymTable.Get(Abs(t), key)
  {
    AbsLookup(t, key);
    Lookup(t.buckets, key)
  }

  /** The growth decision taken before an insertion: advance exactly one stage
      when the count exceeds the current bucket count, a later stage exists
      and the new array could be allocated; otherwise stay. */
  function NextStage(stage: nat, length: nat, allocOk: bool): (s: nat)
    requires stage < |BucketCounts|
    ensures s < |BucketCounts|
    ensures s == stage || s == stage + 1
    ensures s == stage + 1 <==> length > BucketCounts[stage] && allocOk && stage + 1 < |BucketCounts|
  {
    if length > BucketCounts[stage] && stage + 1 < |BucketCounts| && allocOk then stage + 1 else stage
  }

  /** The rehash of `SymTable_put`: every binding, visited in bucket and chain
      order, is moved by its own key to the head of its bucket in a fresh
      array of the new stage's size. */
  function Rehash<V>(t: HashTable<V>, newStage: nat): (r: HashTable<V>)
    requires Valid(t)
    requires newStage < |BucketCounts|
    ensures Valid(r)
    ensures r.stage == newStage
    ensures Abs(r) == Abs(t)
    ensures r.length == t.length
  {
    var items := Flatten(t.buckets);
    var b0: BucketArray<V> := Empty(BucketCounts[newStage]);
    RehashMovesAll(t, b0);
    HashTable(InsertAll(b0, items), newStage, t.length)
  }

  /** Moving every binding of a valid table into an empty array by its own key
      gives a valid array of that size holding the same bindings. */
  lemma RehashMovesAll<V>(t: HashTable<V>, b0: BucketArray<V>)
    requires Valid(t)
    requires |b0| > 0
    requires forall i :: 0 <= i < |b0| ==> b0[i] == []
    ensures Indexed(InsertAll(b0, Flatten(t.buckets)))
    ensures ChainsUnique(InsertAll(b0, Flatten(t.buckets)))
    ensures TotalLength(InsertAll(b0, Flatten(t.buckets))) == t.length
    ensures ToMap(Flatten(InsertAll(b0, Flatten(t.buckets)))) == Abs(t)
  {
    var items := Flatten(t.buckets);
    AllEmpty(b0);
    FlattenAll(t.buckets);
    InsertAllFresh(b0, items);
    var b := InsertAll(b0, items);
    forall k ensures Lookup(b, k) == SymTable.Get(Abs(t), k) {
      RehashLookup(t, b0, k);
    }
    AbsByLookup(HashTable(b, 0, 0), Abs(t));
  }

  /** After the rehash a key's bucket answers as the old table does. */
  lemma RehashLookup<V>(t: HashTable<V>, b0: BucketArray<V>, k: Key)
    requires Valid(t)
    requires |b0| > 0
    requires forall i :: 0 <= i < |b0| ==> b0[i] == []
    requires forall key :: Lookup(InsertAll(b0, Flatten(t.buckets)), key) ==
                           if HasKey(Flatten(t.buckets), key) then Find(Flatten(t.buckets), key)
                           else Lookup(b0, key)
    ensures Lookup(InsertAll(b0, Flatten(t.buckets)), k) == SymTable.Get(Abs(t), k)
  {
    assert Lookup(b0, k) == None;
    assert SymTable.Get(Abs(t), k) == Find(Flatten(t.buckets), k);
  }

  /** Growth before an insertion: the stage moves as `NextStage` decides, and
      the bindings and the count are untouched whether or not it moves. */
  function MaybeGrow<V>(t: HashTable<V>, allocOk: bool): (r: HashTable<V>)
    requires Valid(t)
    ensures Valid(r)
    ensures r.stage == NextStage(t.stage, t.length, allocOk)
    ensures Abs(r) == Abs(t) && r.length == t.length
    ensures r.stage == t.stage ==> r == t
  {
    var s := NextStage(t.stage, t.length, allocOk);
    if s == t.stage then t else Rehash(t, s)
  }

  /** Prepending a binding with a fresh key to its bucket keeps the table
      valid and binds exactly that key anew. */
  lemma InsertKeepsValid<V>(t: HashTable<V>, key: Key, value: V)
    requires Valid(t)
    requires key !in Abs(t)
    ensures Valid(HashTable(Insert(t.buckets, Binding(key, value)), t.stage, t.length + 1))
    ensures Abs(HashTable(Insert(t.buckets, Binding(key, value)), t.stage, t.length + 1))
         == Abs(t)[key := value]
  {
    AbsLookup(t, key);
    InsertFresh(t.buckets, Binding(key, value));
    AbsUpdate(t, HashTable(Insert(t.buckets, Binding(key, value)), t.stage, t.length + 1), key, value);
  }

  /** `SymTable_put`. A present key returns 0 with buckets and count
      unchanged. Otherwise the table may first grow (`growOk` says whether the
      new array could be allocated); then, if the node could be allocated
      (`nodeOk`), the binding becomes the head of bucket `Hash(key, count)`,
      the other buckets stay as they were, and the count grows by one. A failed
      node allocation returns 0 with the bindings unchanged. */
  function Put<V>(t: HashTable<V>, key: Key, value: V, growOk: bool, nodeOk: bool): (r: PutResult<V>)
    requires Valid(t)
    ensures Valid(r.table)
    ensures SymTable.Put(Abs(t), key, value, nodeOk) == SymTable.PutResult(Abs(r.table), r.inserted)
    ensures key in Abs(t) ==> r.table == t
    ensures key !in Abs(t) ==> r.table.stage == NextStage(t.stage, t.length, growOk)
    ensures r.inserted ==> r.table.length == t.length + 1
    ensures !r.inserted ==> r.table.length == t.length
    ensures r.inserted ==>
      var g := MaybeGrow(t, growOk);
      var h := Hash(key, |g.buckets|);
      && |r.table.buckets| == |g.buckets|
      && r.table.buckets[h] == [Binding(key, value)] + g.buckets[h]
      && forall i :: 0 <= i < |g.buckets| && i != h ==> r.table.buckets[i] == g.buckets[i]
  {
    if Contains(t, key) then PutResult(t, false)
    else
      var g := MaybeGrow(t, growOk);
      if !nodeOk then PutResult(g, false)
      else
        InsertKeepsValid(g, key, value);
        PutResult(HashTable(Insert(g.buckets, Binding(key, value)), g.stage, g.length + 1), true)
  }

  /** The table after the value of `key` is swapped in its bucket. */
  function SwapIn<V>(t: HashTable<V>, key: Key, value: V): HashTable<V>
    requires |t.buckets| > 0
  {
    var h := Hash(key, |t.buckets|);
    HashTable(t.buckets[h := SetValue(t.buckets[h], key, value)], t.stage, t.length)
  }

  /** Swapping the value of a present key in its bucket keeps the table valid,
      rebinds exactly that key, and moves no key: the count, the stage, the
      other buckets and the keys of the key's own bucket stay as they were. */
  lemma SetValueKeepsValid<V>(t: HashTable<V>, key: Key, value: V)
    requires Valid(t)
    requires key in Abs(t)
    ensures Valid(SwapIn(t, key, value))
    ensures Abs(SwapIn(t, key, value)) == Abs(t)[key := value]
    ensures Lookup(t.buckets, key) == Some(Abs(t)[key])
    ensures var r := SwapIn(t, key, value);
      && r.length == t.length && r.stage == t.stage && |r.buckets| == |t.buckets|
      && (forall i :: 0 <= i < |t.buckets| && i != Hash(key, |t.buckets|) ==> r.buckets[i] == t.buckets[i])
      && var c, c' := t.buckets[Hash(key, |t.buckets|)], r.buckets[Hash(key, |t.buckets|)];
         |c'| == |c| && forall j :: 0 <= j < |c| ==> c'[j].key == c[j].key
  {
    AbsLookup(t, key);
    SetValueInBucket(t.buckets, key, value);
    AbsUpdate(t, SwapIn(t, key, value), key, value);
  }

  /** `SymTable_replace`: the value of a present key is swapped in place in
      its bucket and the old value returned; keys, their positions, the count
      and the stage do not change. An absent key changes nothing. */
  function Replace<V>(t: HashTable<V>, key: Key, value: V): (r: SwapResult<V>)
    requires Valid(t)
    ensures Valid(r.table)
    ensures SymTable.Replace(Abs(t), key, value) == SymTable.SwapResult(Abs(r.table), r.previous)
    ensures r.table.length == t.length && r.table.stage == t.stage
    ensures |r.table.buckets| == |t.buckets|
    ensures forall i :: 0 <= i < |t.buckets| && i != Hash(key, |t.buckets|) ==>
      r.table.buckets[i] == t.buckets[i]
    ensures var c, c' := t.buckets[Hash(key, |t.buckets|)], r.table.buckets[Hash(key, |t.buckets|)];
      |c'| == |c| && forall j :: 0 <= j < |c| ==> c'[j].key == c[j].key
  {
    if !Contains(t, key) then SwapResult(t, None)
    else
      SetValueKeepsValid(t, key, value);
      SwapResult(SwapIn(t, key, value), Lookup(t.buckets, key))
  }

  /** The table after `key` is spliced out of its bucket. */
  function SpliceOut<V>(t: HashTable<V>, key: Key): HashTable<V>
    requires |t.buckets| > 0 && t.length > 0
  {
    var h := Hash(key, |t.buckets|);
    HashTable(t.buckets[h := Chains.Remove(t.buckets[h], key)], t.stage, t.length - 1)
  }

  /** Splicing a present key out of its bucket keeps the table valid with one
      binding fewer, unbinds exactly that key, and leaves the other buckets and
      the rest of the key's bucket in order. */
  lemma RemoveKeepsValid<V>(t: HashTable<V>, key: Key)
    requires Valid(t)
    requires key in Abs(t)
    ensures t.length > 0
    ensures Valid(SpliceOut(t, key))
    ensures Abs(SpliceOut(t, key)) == Abs(t) - {key}
    ensures Lookup(t.buckets, key) == Some(Abs(t)[key])
    ensures var r := SpliceOut(t, key);
      && r.length == t.length - 1 && r.stage == t.stage && |r.buckets| == |t.buckets|
      && (forall j :: 0 <= j < |t.buckets| && j != Hash(key, |t.buckets|) ==> r.buckets[j] == t.buckets[j])
      && var h := Hash(key, |t.buckets|);
         var c, i := t.buckets[h], IndexOf(t.buckets[h], key);
         i < |c| && r.buckets[h] == c[..i] + c[i + 1..]
  {
    AbsLookup(t, key);
    RemoveInBucket(t.buckets, key);
    AbsRemove(t, SpliceOut(t, key), key);
    SpliceOutShape(t, key);
  }

  /** Splicing a key out of its bucket touches that bucket only and removes
      exactly its first node with the key. */
  lemma SpliceOutShape<V>(t: HashTable<V>, key: Key)
    requires |t.buckets| > 0 && t.length > 0
    requires HasKey(t.buckets[Hash(key, |t.buckets|)], key)
    ensures var r := SpliceOut(t, key);
      && r.length == t.length - 1 && r.stage == t.stage && |r.buckets| == |t.buckets|
      && (forall j :: 0 <= j < |t.buckets| && j != Hash(key, |t.buckets|) ==> r.buckets[j] == t.buckets[j])
      && var h := Hash(key, |t.buckets|);
         var c, i := t.buckets[h], IndexOf(t.buckets[h], key);
         i < |c| && r.buckets[h] == c[..i] + c[i + 1..]
  {
  }

  /** `SymTable_remove`: a present key's node is unlinked from its bucket, the
      rest of that bucket keeps its order, the other buckets are untouched,
      the count drops by one and the old value is returned. An absent key
      changes nothing. */
  function Remove<V>(t: HashTable<V>, key: Key): (r: SwapResult<V>)
    requires Valid(t)
    ensures Valid(r.table)
    ensures SymTable.Remove(Abs(t), key) == SymTable.SwapResult(Abs(r.table), r.previous)
    ensures r.previous.None? ==> r.table == t
    ensures r.previous.Some? ==> r.table.length == t.length - 1 && r.table.stage == t.stage
    ensures |r.table.buckets| == |t.buckets|
    ensures forall j :: 0 <= j < |t.buckets| && j != Hash(key, |t.buckets|) ==>
      r.table.buckets[j] == t.buckets[j]
    ensures r.previous.Some? ==>
      var h := Hash(key, |t.buckets|);
      var c, i := t.buckets[h], IndexOf(t.buckets[h], key);
      i < |c| && r.table.buckets[h] == c[..i] + c[i + 1..]
  {
    if !Contains(t, key) then SwapResult(t, None)
    else
      RemoveKeepsValid(t, key);
      SwapResult(SpliceOut(t, key), Lookup(t.buckets, key))
  }

  /** `SymTable_map`: the bindings in the order the callback receives them:
      each exactly once, in non-decreasing bucket order. */
  function Map<V>(t: HashTable<V>): (visits: Chain<V>)
    requires Valid(t)
    ensures SymTable.VisitsEachOnce(Abs(t), visits)
    ensures |visits| == t.length
    ensures forall p, q :: 0 <= p < q < |visits| ==>
      Hash(visits[p].key, |t.buckets|) <= Hash(visits[q].key, |t.buckets|)
  {
    FlattenAll(t.buckets);
    Flatten(t.buckets)
  }
}
