/** Places where the hash backend (symtablehash.c) as written departs from what
    its own comments and the shared contract promise. Each part models the code
    as written, exhibits an input on which it goes wrong, and relates it to the
    corrected definition that the rest of the model uses. */
module SourceDefects {
  import opened Keys
  import opened Wrappers
  import opened Chains
  import opened Hashing
  import opened Buckets
  import SymTableHash

  // ---------------------------------------------------------------------------
  // SymTable_delete: a match below the head is never unlinked.

  /** What `SymTable_delete` leaves behind in one bucket: the chain, the
      table's count, and its 1/0 result. */
  datatype DeleteOutcome<V> = DeleteOutcome(chain: Chain<V>, length: nat, deleted: bool)

  /** `SymTable_delete` as written. A match at the head is unlinked. For a
      match further down, the node's `psNextNode` is set to its own successor,
      which unlinks nothing, yet the count still drops by one. `length`, the
      table's count, covers at least the nodes of this bucket. */
  function DeleteAsWritten<V>(c: Chain<V>, length: nat, key: Key): (r: DeleteOutcome<V>)
    requires |c| <= length
    ensures r.deleted <==> HasKey(c, key)
    ensures r.length == if r.deleted then length - 1 else length
    ensures IndexOf(c, key) == 0 < |c| ==> r.chain == c[1..]
    ensures IndexOf(c, key) != 0 ==> r.chain == c
  {
    var i := IndexOf(c, key);
    if i == |c| then DeleteOutcome(c, length, false)
    else if i == 0 then DeleteOutcome(c[1..], length - 1, true)
    else DeleteOutcome(c, length - 1, true)
  }

  /** Deleting the second of two bindings: the count drops while the chain
      keeps both nodes, and the "deleted" key is still found. */
  lemma DeleteAsWrittenKeepsNode()
    ensures var c := [Binding([97], 1), Binding([98], 2)];
      var r := DeleteAsWritten(c, 2, [98]);
      && r.deleted
      && r.length == 1 && |r.chain| == 2
      && Find(r.chain, [98]) == Some(2)
  {
    var c := [Binding([97], 1), Binding([98], 2)];
    assert c[0].key != [98] && c[1].key == [98];
    IndexOfIsFirst(c, [98], 1);
  }

  /** Wherever the match is not the head, the count falls out of step with
      the chain and the key stays bound. */
  lemma DeleteAsWrittenBreaksCount<V>(c: Chain<V>, length: nat, key: Key)
    requires |c| <= length
    requires 0 < IndexOf(c, key) < |c|
    ensures var r := DeleteAsWritten(c, length, key);
      r.deleted && r.length - |r.chain| == length - |c| - 1 && HasKey(r.chain, key)
  {
  }

  /** The evidently intended `SymTable_delete`: splice the match out, as
      `Chains.Remove` and `SymTableHash.Remove` do. */
  function DeleteCorrected<V>(c: Chain<V>, length: nat, key: Key): (r: DeleteOutcome<V>)
    requires |c| <= length
    requires UniqueKeys(c)
    ensures r.deleted <==> HasKey(c, key)
    ensures r.length - |r.chain| == length - |c|
    ensures !HasKey(r.chain, key)
    ensures UniqueKeys(r.chain)
    ensures forall k :: k != key ==> Find(r.chain, k) == Find(c, k)
  {
    RemoveBindings(c, key);
    var r := Chains.Remove(c, key);
    assert Find(r, key) == None;
    if HasKey(c, key) then DeleteOutcome(r, length - 1, true)
    else DeleteOutcome(r, length, false)
  }

  // ---------------------------------------------------------------------------
  // SymTable_put: `counter++` with no check that a later stage exists.

  /** symtablehash.c lines 110-119 as written: when the count exceeds the current bucket
      count, `counter` is incremented and `auBucketCounts[counter]` is read
      for the allocation, whatever the stage. Returns the index read, or `None`
      when the growth branch is not taken. */
  function GrowthIndexAsWritten(stage: nat, length: nat): (r: Option<nat>)
    requires stage < |SymTableHash.BucketCounts|
    ensures r.Some? <==> length > SymTableHash.BucketCounts[stage]
    ensures r.Some? ==> r.value == stage + 1
  {
    if length > SymTableHash.BucketCounts[stage] then Some(stage + 1) else None
  }

  /** A table at the last stage holding more than 65521 bindings makes the
      next `put` read `auBucketCounts[8]`, one past the end of the array. */
  lemma CounterRunsOffTheEnd(length: nat)
    requires length > 65521
    ensures GrowthIndexAsWritten(7, length) == Some(|SymTableHash.BucketCounts|)
  {
  }

  /** Below the last stage the code as written and `SymTableHash.NextStage`
      agree: growth goes one stage up exactly when the count exceeds the bucket
      count and the allocation succeeds. At the last stage `NextStage` stays. */
  lemma NextStageCorrected(stage: nat, length: nat, allocOk: bool)
    requires stage < |SymTableHash.BucketCounts|
    ensures stage + 1 < |SymTableHash.BucketCounts| ==>
      SymTableHash.NextStage(stage, length, allocOk) ==
        if GrowthIndexAsWritten(stage, length).Some? && allocOk then stage + 1 else stage
    ensures stage + 1 == |SymTableHash.BucketCounts| ==>
      SymTableHash.NextStage(stage, length, allocOk) == stage
  {
  }

  // ---------------------------------------------------------------------------
  // One process-wide `counter` for every table.

  /** `SymTable_contains` as written: the bucket index is computed from the
      process-wide stage `globalStage`, not from the table being asked. `None`
      stands for a read past the end of the table's array. */
  function ContainsAsWritten<V>(buckets: BucketArray<V>, globalStage: nat, key: Key): (r: Option<bool>)
    requires globalStage < |SymTableHash.BucketCounts|
    ensures r.Some? <==> Hash(key, SymTableHash.BucketCounts[globalStage]) < |buckets|
    ensures r == Some(true) ==> HasKey(Flatten(buckets), key)
  {
    var h := Hash(key, SymTableHash.BucketCounts[globalStage]);
    if h < |buckets| then
      (if Find(buckets[h], key).Some? then FlattenHasBucketKey(buckets, h, key); Some(true)
       else Some(false))
    else None
  }

  /** A key found in one bucket is found in the whole array. */
  lemma {:induction false} FlattenHasBucketKey<V>(b: BucketArray<V>, h: nat, key: Key)
    requires h < |b|
    requires HasKey(b[h], key)
    ensures HasKey(Flatten(b), key)
    decreases |b|
  {
    var front, last := b[..|b| - 1], b[|b| - 1];
    FindAppend(Flatten(front), last, key);
    if h < |b| - 1 {
      assert front[h] == b[h];
      FlattenHasBucketKey(front, h, key);
    }
  }

  /** A table still at stage 0 holding the key [1, 1] (hash word 65600, bucket
      448 of 509), asked after another table has moved the shared counter to
      stage 1: the code as written scans bucket 65600 % 1021 = 256 and
      reports the key absent, while `SymTableHash.Contains`, which uses the
      table's own stage, finds it. */
  lemma SharedCounterMissesKey(value: int)
    ensures var t := SymTableHash.Put(SymTableHash.New(true).value, [1, 1], value, true, true);
      && t.inserted
      && SymTableHash.Contains(t.table, [1, 1])
      && ContainsAsWritten(t.table.buckets, 1, [1, 1]) == Some(false)
  {
    var key: Key := [1, 1];
    var t0 := SymTableHash.New<int>(true).value;
    SharedKeyHashes();
    var t := SymTableHash.Put(t0, key, value, true, true);
    assert t.table.buckets[256] == [];
  }

  /** The hash word of [1, 1] is 65600: bucket 448 of 509 and bucket 256 of
      1021. */
  lemma SharedKeyHashes()
    ensures Hash([1, 1], 509) == 448 && Hash([1, 1], 1021) == 256
  {
    var key: Key := [1, 1];
    assert HashWord(key) == 65600 by {
      assert key[..1] == [1];
      assert key[..1][..0] == [];
    }
  }

  // ---------------------------------------------------------------------------
  // The rehash walk of symtablehash.c lines 128-141.

  /** What the walk of one old bucket leaves: the new array, or `Cycles` when
      the walk never ends. */
  datatype WalkOutcome<V> = Stopped(buckets: BucketArray<V>) | Cycles

  /** The inner loop of symtablehash.c lines 129-140 as written, for one old chain `source`
      walked into the new array `nb`. `SymTable_insert` makes the head node
      the head of its new bucket, overwriting its `psNextNode` with that
      bucket's previous head, and the loop then follows that pointer instead of
      the node's old successor. If the new bucket was empty the walk stops
      after one node; otherwise it continues at a node of that same bucket,
      whose re-insertion links the two nodes into a cycle. The
      `SymTable_delete` call searches for the key being put, which is absent,
      and so changes no binding; on a walk that cycles, though, it scans the
      old bucket from its original head, which now points into the two
      relinked nodes, and that scan is where the program spins forever. */
  function MoveChainAsWritten<V>(nb: BucketArray<V>, source: Chain<V>): (r: WalkOutcome<V>)
    requires Indexed(nb)
    ensures |source| == 0 ==> r == Stopped(nb)
    ensures |source| > 0 ==> (r.Stopped? <==> nb[Hash(source[0].key, |nb|)] == [])
    ensures r.Stopped? ==> |r.buckets| == |nb| && TotalLength(r.buckets) <= TotalLength(nb) + 1
  {
    if |source| == 0 then Stopped(nb)
    else
      var h := Hash(source[0].key, |nb|);
      if nb[h] == [] then
        TotalLengthUpdate(nb, h, [source[0]]);
        Stopped(nb[h := [source[0]]])
      else Cycles
  }

  /** When the walk stops, every binding of the old chain after its head is
      lost: it is in no bucket of the new array. */
  lemma WalkLosesTail<V>(nb: BucketArray<V>, source: Chain<V>, j: nat)
    requires Indexed(nb)
    requires 0 < j < |source|
    requires UniqueKeys(source)
    requires Lookup(nb, source[j].key) == None
    requires MoveChainAsWritten(nb, source).Stopped?
    ensures Lookup(MoveChainAsWritten(nb, source).buckets, source[j].key) == None
  {
    var h := Hash(source[0].key, |nb|);
    var r := MoveChainAsWritten(nb, source).buckets;
    assert r == nb[h := [source[0]]];
    if Hash(source[j].key, |nb|) == h {
      assert source[0].key != source[j].key;
      assert Find([source[0]], source[j].key) == None;
    }
  }

  /** Keys [1, 63] and [1] share old bucket 1 of 509 (hash words 65662 and
      1) and land in empty buckets of the 1021-bucket array. The walk as
      written moves [1, 63] only; the corrected rehash, `Buckets.InsertAll`
      as used by `SymTableHash.Rehash`, moves both. */
  lemma RehashWalkDropsBinding()
    ensures var source := [Binding([1, 63], 10), Binding([1], 20)];
      var nb: BucketArray<int> := Empty(1021);
      && Hash(source[0].key, 509) == Hash(source[1].key, 509) == 1
      && MoveChainAsWritten(nb, source).Stopped?
      && Lookup(MoveChainAsWritten(nb, source).buckets, [1]) == None
      && Lookup(InsertAll(nb, source), [1]) == Some(20)
      && Lookup(InsertAll(nb, source), [1, 63]) == Some(10)
  {
    var source := [Binding([1, 63], 10), Binding([1], 20)];
    var nb: BucketArray<int> := Empty(1021);
    ExampleKeyHashes();
    AllEmpty(nb);
    WalkLosesTail(nb, source, 1);
    InsertAllKeepsPair(nb, source);
  }

  /** The hash words of [1, 63] and [1] are 65662 and 1. */
  lemma ExampleKeyHashes()
    ensures Hash([1, 63], 509) == 1 && Hash([1], 509) == 1
    ensures Hash([1, 63], 1021) == 318 && Hash([1], 1021) == 1
  {
    var k0: Key, k1: Key := [1, 63], [1];
    assert HashWord(k0) == 65662 by {
      assert k0[..1] == [1];
      assert k0[..1][..0] == [];
    }
    assert HashWord(k1) == 1 by {
      assert k1[..0] == [];
    }
  }

  /** The corrected rehash keeps both bindings of a two-binding chain whose
      keys differ and are absent from the new array. */
  lemma InsertAllKeepsPair<V>(nb: BucketArray<V>, source: Chain<V>)
    requires Indexed(nb) && ChainsUnique(nb)
    requires |source| == 2 && source[0].key != source[1].key
    requires Lookup(nb, source[0].key) == None && Lookup(nb, source[1].key) == None
    ensures Lookup(InsertAll(nb, source), source[0].key) == Some(source[0].value)
    ensures Lookup(InsertAll(nb, source), source[1].key) == Some(source[1].value)
  {
    assert UniqueKeys(source);
    forall i | 0 <= i < |source| ensures Lookup(nb, source[i].key) == None {
    }
    InsertAllFresh(nb, source);
    assert Find(source, source[0].key) == Some(source[0].value);
    assert Find(source, source[1].key) == Some(source[1].value);
  }


  /** The outer loop of symtablehash.c line 128 as written: the indices of the old array it
      reads, bounded by the new stage's count rather than the old one's. */
  function OldBucketsReadAsWritten(oldStage: nat): (r: seq<nat>)
    requires oldStage + 1 < |SymTableHash.BucketCounts|
    ensures |r| == SymTableHash.BucketCounts[oldStage + 1]
    ensures forall i :: 0 <= i < |r| ==> r[i] == i
  {
    seq(SymTableHash.BucketCounts[oldStage + 1], i => i)
  }

  /** At every growth of a valid table the outer loop reads indices past
      the end of the table's bucket array. The corrected `SymTableHash.Rehash`
      moves exactly the bindings of the old array. */
  lemma RehashReadsPastOldArray<V>(t: SymTableHash.HashTable<V>)
    requires SymTableHash.Valid(t) && t.stage + 1 < |SymTableHash.BucketCounts|
    ensures exists i ::
              && 0 <= i < |OldBucketsReadAsWritten(t.stage)|
              && OldBucketsReadAsWritten(t.stage)[i] >= |t.buckets|
  {
    var r := OldBucketsReadAsWritten(t.stage);
    var i := |t.buckets|;
    assert 0 <= i < |r| && r[i] >= i;
  }

}
