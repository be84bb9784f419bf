/** The list backend (symtablelist.c): one chain holding every binding, new
    bindings prepended, every operation a linear scan from the head. */
module SymTableList {
  import opened Keys
  import opened Wrappers
  import opened Chains
  import SymTable

  /** `struct SymTable`: the chain from `psFirstNode`, and the binding count. */
  datatype ListTable<V> = ListTable(first: Chain<V>, length: nat)

  /** Result of `put`: the table afterwards and whether a binding was added. */
  datatype PutResult<V> = PutResult(table: ListTable<V>, inserted: bool)

  /** Result of `replace` and `remove`: the table afterwards and the old value. */
  datatype SwapResult<V> = SwapResult(table: ListTable<V>, previous: Option<V>)

  /** Representation invariant: keys are unique in the chain and `length`
      counts its nodes. */
  predicate Valid<V>(t: ListTable<V>) {
    UniqueKeys(t.first) && t.length == |t.first|
  }

  /** The bindings the table stands for. */
  function Abs<V>(t: ListTable<V>): map<Key, V> {
    ToMap(t.first)
  }

  /** `SymTable_new`: an empty table, or `None` (NULL) when the allocation of
      the table record fails. */
  function New<V>(allocOk: bool): (r: Option<ListTable<V>>)
    ensures r.Some? <==> allocOk
    ensures r.Some? ==> Valid(r.value) && r.value.length == 0 && Abs(r.value) == SymTable.New()
  {
    if allocOk then Some(ListTable([], 0)) else None
  }

  /** `SymTable_getLength`: the number of bindings. */
  function GetLength<V>(t: ListTable<V>): (n: nat)
    requires Valid(t)
    ensures n == |Abs(t)|
  {
    MapSize(t.first);
    t.length
  }

  /** `SymTable_contains`: whether some node holds `key`. */
  function Contains<V>(t: ListTable<V>, key: Key): (b: bool)
    ensures b <==> key in Abs(t)
    ensures b <==> exists i :: 0 <= i < |t.first| && t.first[i].key == key
  {
    Find(t.first, key).Some?
  }

  /** `SymTable_get`: the value of the node holding `key`, or `None`. */
  function Get<V>(t: ListTable<V>, key: Key): (r: Option<V>)
    requires Valid(t)
    ensures r == SymTable.Get(Abs(t), key)
    ensures forall i :: 0 <= i < |t.first| && t.first[i].key == key ==> r == Some(t.first[i].value)
  {
    Find(t.first, key)
  }

  /** `SymTable_put`: a fresh key becomes the new head node and the count
      grows by one; a present key, or a failed node or key-copy allocation
      (`allocOk` false), leaves the table as it was. */
  function Put<V>(t: ListTable<V>, key: Key, value: V, allocOk: bool): (r: PutResult<V>)
    requires Valid(t)
    ensures Valid(r.table)
    ensures SymTable.Put(Abs(t), key, value, allocOk) == SymTable.PutResult(Abs(r.table), r.inserted)
    ensures r.inserted ==> r.table.first == [Binding(key, value)] + t.first
    ensures r.inserted ==> r.table.length == t.length + 1
    ensures !r.inserted ==> r.table == t
  {
    if Contains(t, key) || !allocOk then PutResult(t, false)
    else
      ToMapPrepend(Binding(key, value), t.first);
      PutResult(ListTable([Binding(key, value)] + t.first, t.length + 1), true)
  }

  /** `SymTable_replace`: the node holding `key` gets the new value and the old
      one is returned; the keys, their order and the count do not change. */
  function Replace<V>(t: ListTable<V>, key: Key, value: V): (r: SwapResult<V>)
    requires Valid(t)
    ensures Valid(r.table)
    ensures SymTable.Replace(Abs(t), key, value) == SymTable.SwapResult(Abs(r.table), r.previous)
    ensures r.table.length == t.length && |r.table.first| == |t.first|
    ensures forall i :: 0 <= i < |t.first| ==> r.table.first[i].key == t.first[i].key
  {
    if !Contains(t, key) then SwapResult(t, None)
    else
      ToMapSetValue(t.first, key, value);
      SwapResult(ListTable(SetValue(t.first, key, value), t.length), Find(t.first, key))
  }

  /** `SymTable_remove`: the node holding `key` is spliced out, the others
      keep their order, the count drops by one and the old value is
      returned; an absent key changes nothing. */
  function Remove<V>(t: ListTable<V>, key: Key): (r: SwapResult<V>)
    requires Valid(t)
    ensures Valid(r.table)
    ensures SymTable.Remove(Abs(t), key) == SymTable.SwapResult(Abs(r.table), r.previous)
    ensures r.previous.Some? ==> r.table.length == t.length - 1
    ensures r.previous.Some? ==>
      var i := IndexOf(t.first, key);
      r.table.first == t.first[..i] + t.first[i + 1..]
    ensures r.previous.None? ==> r.table == t
  {
    if !Contains(t, key) then SwapResult(t, None)
    else
      ToMapRemove(t.first, key);
      RemoveBindings(t.first, key);
      SwapResult(ListTable(Chains.Remove(t.first, key), t.length - 1), Find(t.first, key))
  }

  /** `SymTable_map`: the bindings in the order the callback receives them,
      each exactly once. */
  function Map<V>(t: ListTable<V>): (visits: Chain<V>)
    requires Valid(t)
    ensures SymTable.VisitsEachOnce(Abs(t), visits)
    ensures |visits| == t.length
  {
    t.first
  }

  /** The list backend visits the most recently inserted binding first. */
  lemma MapMostRecentFirst<V>(t: ListTable<V>, key: Key, value: V)
    requires Valid(t)
    requires key !in Abs(t)
    ensures Put(t, key, value, true).inserted
    ensures Map(Put(t, key, value, true).table) == [Binding(key, value)] + Map(t)
  {
  }
}
