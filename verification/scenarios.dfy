/** Call sequences on whole tables: the session
    put a 1, put b 2, put a 3, get a, replace a 3, get a, remove b, getLength
    on both backends, runs of `put` calls, and the first growth of a hash table. */
module Scenarios {
  import opened Keys
  import opened Wrappers
  import opened Chains
  import SymTable
  import SymTableList
  import SymTableHash

  /** The keys "a" and "b". */
  const KeyA: Key := [97]
  const KeyB: Key := [98]

  /** The bindings the session put a 1, put b 2, put a 3 leaves. */
  const AfterPuts: map<Key, int> := map[KeyA := 1, KeyB := 2]

  /** The session's second part, replace a 3, get a, remove b, getLength,
      on the contract itself. */
  lemma ExampleSwapsOnMap()
    ensures
      var r := SymTable.Replace(AfterPuts, KeyA, 3);
      var d := SymTable.Remove(r.bindings, KeyB);
      && r.previous == Some(1)
      && SymTable.Get(r.bindings, KeyA) == Some(3)
      && d.previous == Some(2)
      && |d.bindings| == 1
  {
    assert KeyA != KeyB;
    assert AfterPuts.Keys == {KeyA, KeyB};
    assert |AfterPuts| == 2;
    var r := SymTable.Replace(AfterPuts, KeyA, 3);
    assert SymTable.Get(r.bindings, KeyB) == Some(2);
  }

  /** The session's first part, put a 1, put b 2, put a 3, get a, on the list
      backend: put a 1 and put b 2
      are inserted, put a 3 is rejected, and get a returns 1. */
  lemma ExampleSessionListPuts()
    ensures
      var p1 := SymTableList.Put(SymTableList.New<int>(true).value, KeyA, 1, true);
      var p2 := SymTableList.Put(p1.table, KeyB, 2, true);
      var p3 := SymTableList.Put(p2.table, KeyA, 3, true);
      && p1.inserted && p2.inserted && !p3.inserted
      && SymTableList.Get(p3.table, KeyA) == Some(1)
      && SymTableList.Abs(p3.table) == AfterPuts
  {
    var p1 := SymTableList.Put(SymTableList.New<int>(true).value, KeyA, 1, true);
    var p2 := SymTableList.Put(p1.table, KeyB, 2, true);
    assert p2.table.first == [Binding(KeyB, 2), Binding(KeyA, 1)];
  }

  /** The session's second part, replace a 3, get a, remove b, getLength, on
      the list backend: from the bindings a 1, b 2, replace a by 3 returns 1,
      get a then returns 3, remove b returns 2, and one binding is left. */
  lemma ExampleSessionListSwaps(t: SymTableList.ListTable<int>)
    requires SymTableList.Valid(t) && SymTableList.Abs(t) == AfterPuts
    ensures
      var r := SymTableList.Replace(t, KeyA, 3);
      var d := SymTableList.Remove(r.table, KeyB);
      && r.previous == Some(1)
      && SymTableList.Get(r.table, KeyA) == Some(3)
      && d.previous == Some(2)
      && SymTableList.GetLength(d.table) == 1
  {
    ExampleSwapsOnMap();
  }

  /** The session's first part, put a 1, put b 2, put a 3, get a, on the hash
      backend, with the same
      answers as on the list backend. */
  lemma ExampleSessionHashPuts()
    ensures
      var p1 := SymTableHash.Put(SymTableHash.New<int>(true).value, KeyA, 1, true, true);
      var p2 := SymTableHash.Put(p1.table, KeyB, 2, true, true);
      var p3 := SymTableHash.Put(p2.table, KeyA, 3, true, true);
      && p1.inserted && p2.inserted && !p3.inserted
      && SymTableHash.Get(p3.table, KeyA) == Some(1)
      && SymTableHash.Abs(p3.table) == AfterPuts
  {
    var p1 := SymTableHash.Put(SymTableHash.New<int>(true).value, KeyA, 1, true, true);
    var p2 := SymTableHash.Put(p1.table, KeyB, 2, true, true);
    assert SymTableHash.Abs(p1.table) == map[KeyA := 1];
    assert SymTableHash.Abs(p2.table) == AfterPuts;
  }

  /** The session's second part, replace a 3, get a, remove b, getLength, on
      the hash backend. */
  lemma ExampleSessionHashSwaps(t: SymTableHash.HashTable<int>)
    requires SymTableHash.Valid(t) && SymTableHash.Abs(t) == AfterPuts
    ensures
      var r := SymTableHash.Replace(t, KeyA, 3);
      var d := SymTableHash.Remove(r.table, KeyB);
      && r.previous == Some(1)
      && SymTableHash.Get(r.table, KeyA) == Some(3)
      && d.previous == Some(2)
      && SymTableHash.GetLength(d.table) == 1
  {
    ExampleSwapsOnMap();
  }

  /** `put` of each binding of `items` in turn; `oks[i]` says whether the
      growth array and the node of the `i`th call could be allocated. The
      table afterwards and how many calls returned 1. */
  function PutAll<V>(t: SymTableHash.HashTable<V>, items: Chain<V>, oks: seq<(bool, bool)>)
    : (r: (SymTableHash.HashTable<V>, nat))
    requires SymTableHash.Valid(t)
    requires |oks| == |items|
    ensures SymTableHash.Valid(r.0)
    ensures r.0.length == t.length + r.1
    ensures r.1 <= |items|
    ensures (forall i :: 0 <= i < |oks| ==> !oks[i].1) ==>
      r.1 == 0 && SymTableHash.Abs(r.0) == SymTableHash.Abs(t)
    decreases |items|
  {
    if |items| == 0 then (t, 0)
    else
      var p := SymTableHash.Put(t, items[0].key, items[0].value, oks[0].0, oks[0].1);
      var rest := PutAll(p.table, items[1..], oks[1..]);
      (rest.0, rest.1 + if p.inserted then 1 else 0)
  }

  /** Every allocation of `n` calls succeeding. */
  function AllSucceed(n: nat): (oks: seq<(bool, bool)>)
    ensures |oks| == n
    ensures forall i :: 0 <= i < n ==> oks[i] == (true, true)
  {
    seq(n, i => (true, true))
  }

  /** One `put` of a fresh key with every allocation succeeding: the binding
      is added, and the stage stays when the count does not exceed the bucket
      count. */
  lemma PutFresh<V>(t: SymTableHash.HashTable<V>, x: Binding<V>)
    requires SymTableHash.Valid(t)
    requires x.key !in SymTableHash.Abs(t)
    ensures var p := SymTableHash.Put(t, x.key, x.value, true, true);
      && p.inserted
      && (forall key :: SymTableHash.Get(p.table, key) ==
                        if key == x.key then Some(x.value) else SymTableHash.Get(t, key))
      && (t.length <= SymTableHash.BucketCounts[t.stage] ==> p.table.stage == t.stage)
  {
    var p := SymTableHash.Put(t, x.key, x.value, true, true);
    assert forall key :: SymTable.Get(SymTableHash.Abs(p.table), key) ==
                         if key == x.key then Some(x.value) else SymTable.Get(SymTableHash.Abs(t), key);
  }

  /** Putting bindings with distinct keys, none bound before, inserts every one
      of them, keeps every earlier binding, and leaves the stage alone as long
      as the count before each call is at most the current bucket count. */
  lemma {:induction false} PutAllFresh<V>(t: SymTableHash.HashTable<V>, items: Chain<V>, oks: seq<(bool, bool)>)
    requires SymTableHash.Valid(t)
    requires UniqueKeys(items)
    requires forall i :: 0 <= i < |items| ==> items[i].key !in SymTableHash.Abs(t)
    requires |oks| == |items| && forall i :: 0 <= i < |oks| ==> oks[i] == (true, true)
    ensures PutAll(t, items, oks).1 == |items|
    ensures forall key ::
              SymTableHash.Get(PutAll(t, items, oks).0, key) ==
              if HasKey(items, key) then Find(items, key) else SymTableHash.Get(t, key)
    ensures t.length + |items| <= SymTableHash.BucketCounts[t.stage] + 1 ==>
      PutAll(t, items, oks).0.stage == t.stage
    decreases |items|
  {
    if |items| > 0 {
      var x, rest := items[0], items[1..];
      PutFresh(t, x);
      var p := SymTableHash.Put(t, x.key, x.value, true, true);
      UniqueCons(items);
      forall i | 0 <= i < |rest| ensures rest[i].key !in SymTableHash.Abs(p.table) {
        assert rest[i] == items[i + 1];
        assert SymTableHash.Get(p.table, rest[i].key) == None;
      }
      assert oks[0] == (true, true);
      PutAllFresh(p.table, rest, oks[1..]);
      forall key ensures SymTableHash.Get(PutAll(t, items, oks).0, key) ==
        if HasKey(items, key) then Find(items, key) else SymTableHash.Get(t, key)
      {
        FindCons(items, key);
      }
    }
  }

  /** A table at stage 0 holding 510 bindings grows on the next `put` of a
      fresh key: the count exceeds 509, so the table moves to 1021 buckets
      before the binding is added, and no binding is lost. */
  lemma GrowsOnNextPut(t: SymTableHash.HashTable<int>, x: Binding<int>)
    requires SymTableHash.Valid(t)
    requires t.stage == 0 && t.length == 510
    requires x.key !in SymTableHash.Abs(t)
    ensures var p := SymTableHash.Put(t, x.key, x.value, true, true);
      && p.inserted
      && p.table.stage == 1 && |p.table.buckets| == 1021
      && SymTableHash.GetLength(p.table) == 511
      && forall key :: SymTableHash.Get(p.table, key) ==
                       if key == x.key then Some(x.value) else SymTableHash.Get(t, key)
  {
    var p := SymTableHash.Put(t, x.key, x.value, true, true);
    assert SymTableHash.NextStage(0, 510, true) == 1;
    assert forall key :: SymTable.Get(SymTableHash.Abs(p.table), key) ==
                         if key == x.key then Some(x.value) else SymTable.Get(SymTableHash.Abs(t), key);
  }

  /** Distinct keys put into an empty hash table at stage 0, as `New` makes
      it: after 510 of them the table still has 509 buckets, holds all 510
      bindings, counts them, and binds no other key. */
  lemma FillFirstStage(t0: SymTableHash.HashTable<int>, items: Chain<int>)
    requires SymTableHash.Valid(t0) && t0.stage == 0 && t0.length == 0
    requires |items| == 510
    requires UniqueKeys(items)
    ensures
      var t := PutAll(t0, items, AllSucceed(510)).0;
      && t.stage == 0 && |t.buckets| == 509
      && t.length == 510 && SymTableHash.GetLength(t) == 510
      && (forall i :: 0 <= i < 510 ==> SymTableHash.Get(t, items[i].key) == Some(items[i].value))
      && forall key :: !HasKey(items, key) ==> key !in SymTableHash.Abs(t)
  {
    SymTableHash.KeysUniqueAcrossTable(t0);
    PutAllFresh(t0, items, AllSucceed(510));
    var t := PutAll(t0, items, AllSucceed(510)).0;
    forall i | 0 <= i < 510 ensures SymTableHash.Get(t, items[i].key) == Some(items[i].value) {
      assert Find(items, items[i].key) == Some(items[i].value);
    }
    forall key | !HasKey(items, key) ensures key !in SymTableHash.Abs(t) {
      assert SymTableHash.Get(t, key) == SymTableHash.Get(t0, key);
    }
  }

  /** After the first 510 of 511 distinct keys are put into an empty table at
      stage 0, the table is full at stage 0 and the last key is still absent. */
  lemma FillBeforeGrowth(t0: SymTableHash.HashTable<int>, items: Chain<int>)
    requires SymTableHash.Valid(t0) && t0.stage == 0 && t0.length == 0
    requires |items| == 511
    requires UniqueKeys(items)
    ensures
      var t := PutAll(t0, items[..510], AllSucceed(510)).0;
      && SymTableHash.Valid(t) && t.stage == 0 && t.length == 510
      && items[510].key !in SymTableHash.Abs(t)
      && forall i :: 0 <= i < 510 ==> SymTableHash.Get(t, items[i].key) == Some(items[i].value)
  {
    var front := items[..510];
    PrefixFresh(items, 510);
    FillFirstStage(t0, front);
    var t := PutAll(t0, front, AllSucceed(510)).0;
    forall i | 0 <= i < 510 ensures SymTableHash.Get(t, items[i].key) == Some(items[i].value) {
      assert front[i] == items[i];
    }
  }

  /** A prefix of a chain with unique keys has unique keys, and the binding
      after it has a key the prefix lacks. */
  lemma PrefixFresh<V>(items: Chain<V>, n: nat)
    requires UniqueKeys(items)
    requires n < |items|
    ensures UniqueKeys(items[..n])
    ensures !HasKey(items[..n], items[n].key)
  {
    assert forall i :: 0 <= i < n ==> items[..n][i] == items[i];
  }

  /** The first growth of an empty hash table at stage 0: 510 distinct keys
      fill the stage (`FillFirstStage`); the 511th `put` finds 510 > 509,
      moves the table to 1021 buckets, and every one of the 511 bindings is
      there. */
  lemma GrowthBoundary(t0: SymTableHash.HashTable<int>, items: Chain<int>)
    requires SymTableHash.Valid(t0) && t0.stage == 0 && t0.length == 0
    requires |items| == 511
    requires UniqueKeys(items)
    ensures
      var t := PutAll(t0, items[..510], AllSucceed(510)).0;
      var p := SymTableHash.Put(t, items[510].key, items[510].value, true, true);
      && p.inserted
      && p.table.stage == 1 && |p.table.buckets| == 1021
      && SymTableHash.GetLength(p.table) == 511
      && forall i :: 0 <= i < 511 ==> SymTableHash.Get(p.table, items[i].key) == Some(items[i].value)
  {
    FillBeforeGrowth(t0, items);
    GrowsOnNextPut(PutAll(t0, items[..510], AllSucceed(510)).0, items[510]);
  }
}
