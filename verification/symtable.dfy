/** The contract both backends share: a symbol table is a finite map from keys to
    values, and each operation of the interface is a function on that map. */
module SymTable {
  import opened Keys
  import opened Wrappers
  import opened Chains

  /** Result of `SymTable_put`: the new bindings, and 1 (true) or 0 (false). */
  datatype PutResult<V> = PutResult(bindings: map<Key, V>, inserted: bool)

  /** Result of `SymTable_replace` and `SymTable_remove`: the new bindings and
      the value previously bound, or `None` for the NULL sentinel. */
  datatype SwapResult<V> = SwapResult(bindings: map<Key, V>, previous: Option<V>)

  /** `SymTable_get`: the value bound to `key`, or `None` when it is unbound. */
  function Get<V>(m: map<Key, V>, key: Key): (r: Option<V>)
    ensures r.None? <==> key !in m
    ensures r.Some? ==> key in m && m[key] == r.value
  {
    if key in m then Some(m[key]) else None
  }

  /** Two tables that answer every `get` alike hold the same bindings. */
  lemma EqualByGet<V>(m1: map<Key, V>, m2: map<Key, V>)
    requires forall key :: Get(m1, key) == Get(m2, key)
    ensures m1 == m2
  {
    assert m1.Keys == m2.Keys by {
      forall key ensures key in m1 <==> key in m2 {
        assert Get(m1, key).Some? == (key in m1);
      }
    }
    forall key | key in m1 ensures m1[key] == m2[key] {
      assert Get(m1, key) == Get(m2, key);
    }
  }

  /** `SymTable_new`: a table with no bindings. */
  function New<V>(): (m: map<Key, V>)
    ensures |m| == 0
  {
    map[]
  }

  /** `SymTable_put`: an unbound key is added with its value and 1 is
      returned; a bound key, or a failed allocation (`allocOk` false), leaves
      the table unchanged and returns 0. */
  function Put<V>(m: map<Key, V>, key: Key, value: V, allocOk: bool): (r: PutResult<V>)
    ensures r.inserted <==> key !in m && allocOk
    ensures |r.bindings| == if r.inserted then |m| + 1 else |m|
    ensures forall k :: Get(r.bindings, k) == if r.inserted && k == key then Some(value) else Get(m, k)
  {
    if key in m || !allocOk then PutResult(m, false)
    else PutResult(m[key := value], true)
  }

  /** `SymTable_replace`: a bound key gets the new value and its old value is
      returned; an unbound key leaves the table unchanged and yields `None`. */
  function Replace<V>(m: map<Key, V>, key: Key, value: V): (r: SwapResult<V>)
    ensures r.previous == Get(m, key)
    ensures r.bindings.Keys == m.Keys
    ensures forall k :: Get(r.bindings, k) == if k == key && key in m then Some(value) else Get(m, k)
  {
    if key in m then SwapResult(m[key := value], Some(m[key]))
    else SwapResult(m, None)
  }

  /** `SymTable_remove`: a bound key is unbound and its value returned; an
      unbound key leaves the table unchanged and yields `None`. */
  function Remove<V>(m: map<Key, V>, key: Key): (r: SwapResult<V>)
    ensures r.previous == Get(m, key)
    ensures |r.bindings| == if key in m then |m| - 1 else |m|
    ensures forall k :: Get(r.bindings, k) == if k == key then None else Get(m, k)
  {
    if key in m then SwapResult(m - {key}, Some(m[key]))
    else SwapResult(m, None)
  }

  /** `SymTable_map`'s promise: the callback sees every binding of `m`
      exactly once. `visits` lists the (key, value) pairs in calling order. */
  ghost predicate VisitsEachOnce<V>(m: map<Key, V>, visits: Chain<V>) {
    UniqueKeys(visits) && ToMap(visits) == m
  }

  /** Visiting each binding once means as many calls as bindings, every call on
      a binding of the table, and every binding covered. */
  lemma VisitCount<V>(m: map<Key, V>, visits: Chain<V>)
    requires VisitsEachOnce(m, visits)
    ensures |visits| == |m|
    ensures forall i :: 0 <= i < |visits| ==>
      visits[i].key in m && m[visits[i].key] == visits[i].value
    ensures forall key :: key in m ==> HasKey(visits, key)
  {
    MapSize(visits);
  }

  // Laws of the contract, relating operations to one another.

  /** A key that was never put is neither contained nor found. */
  lemma AbsentKey<V>(key: Key, value: V)
    ensures Get(New<V>(), key) == None
    ensures Replace(New<V>(), key, value) == SwapResult(New(), None)
    ensures Remove(New<V>(), key) == SwapResult(New(), None)
  {
  }

  /** `get` after a successful `put` returns the value put. */
  lemma PutThenGet<V>(m: map<Key, V>, key: Key, value: V)
    requires key !in m
    ensures Put(m, key, value, true).inserted
    ensures Get(Put(m, key, value, true).bindings, key) == Some(value)
  {
  }

  /** A second `put` of the same key is rejected and keeps the first value. */
  lemma PutTwice<V>(m: map<Key, V>, key: Key, v1: V, v2: V, allocOk: bool)
    requires key !in m
    ensures var m1 := Put(m, key, v1, true).bindings;
      Put(m1, key, v2, allocOk) == PutResult(m1, false) && Get(m1, key) == Some(v1)
  {
  }

  /** `replace` after `put` returns the first value and installs the second. */
  lemma ReplaceAfterPut<V>(m: map<Key, V>, key: Key, v1: V, v2: V)
    requires key !in m
    ensures var r := Replace(Put(m, key, v1, true).bindings, key, v2);
      r.previous == Some(v1) && Get(r.bindings, key) == Some(v2) && |r.bindings| == |m| + 1
  {
  }

  /** `remove` undoes a successful `put` and hands back the value put. */
  lemma RemoveUndoesPut<V>(m: map<Key, V>, key: Key, value: V)
    requires key !in m
    ensures Remove(Put(m, key, value, true).bindings, key) == SwapResult(m, Some(value))
  {
    assert m[key := value] - {key} == m;
  }

  /** `put` of the removed value undoes a `remove` of a bound key. */
  lemma PutUndoesRemove<V>(m: map<Key, V>, key: Key)
    requires key in m
    ensures Put(Remove(m, key).bindings, key, m[key], true) == PutResult(m, true)
  {
    assert (m - {key})[key := m[key]] == m;
  }
}
