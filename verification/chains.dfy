/** Chains of bindings: the linked lists of `struct Node` that both backends use,
    modelled head-first as sequences. */
module Chains {
  import opened Keys
  import opened Wrappers

  /** One key/value pair. The key is the table's own copy of the caller's
      string; the value is an opaque handle the table never inspects. */
  datatype Binding<V> = Binding(key: Key, value: V)

  /** A chain of bindings in `psNextNode` order, head first. */
  type Chain<V> = seq<Binding<V>>

  /** No two bindings of `c` share a key. */
  predicate UniqueKeys<V>(c: Chain<V>) {
    forall i, j :: 0 <= i < j < |c| ==> c[i].key != c[j].key
  }

  /** Some binding of `c` has key `key`. */
  predicate HasKey<V>(c: Chain<V>, key: Key) {
    exists i :: 0 <= i < |c| && c[i].key == key
  }

  /** Where a scan from the head comparing keys with `strcmp` stops: the
      position of the first binding with key `key`, or `|c|` if none has it. */
  function IndexOf<V>(c: Chain<V>, key: Key): (i: nat)
    ensures i <= |c|
    ensures i < |c| ==> c[i].key == key
    ensures forall j :: 0 <= j < i ==> c[j].key != key
  {
    if |c| == 0 then 0
    else if c[0].key == key then 0
    else 1 + IndexOf(c[1..], key)
  }

  /** The value of the first binding with key `key`, or `None` when no binding
      has that key. */
  function Find<V>(c: Chain<V>, key: Key): (r: Option<V>)
    ensures r.Some? <==> HasKey(c, key)
    ensures UniqueKeys(c) ==>
      forall i :: 0 <= i < |c| && c[i].key == key ==> r == Some(c[i].value)
  {
    var i := IndexOf(c, key);
    if i < |c| then Some(c[i].value) else None
  }

  /** The first-match position is determined by its three properties. */
  lemma IndexOfIsFirst<V>(c: Chain<V>, key: Key, i: nat)
    requires i <= |c|
    requires i < |c| ==> c[i].key == key
    requires forall j :: 0 <= j < i ==> c[j].key != key
    ensures IndexOf(c, key) == i
  {
  }

  /** A scan looks at the head first and then at the rest of the chain. */
  lemma FindCons<V>(c: Chain<V>, key: Key)
    requires |c| > 0
    ensures HasKey(c, key) <==> c[0].key == key || HasKey(c[1..], key)
    ensures Find(c, key) == if c[0].key == key then Some(c[0].value) else Find(c[1..], key)
  {
    if c[0].key != key {
      assert IndexOf(c, key) == 1 + IndexOf(c[1..], key);
      if HasKey(c[1..], key) {
        var i := IndexOf(c[1..], key);
        assert c[i + 1] == c[1..][i];
      }
    }
  }

  /** A chain has unique keys when its rest does and its head's key does not
      occur again. */
  lemma UniqueCons<V>(c: Chain<V>)
    requires |c| > 0
    ensures UniqueKeys(c) <==> UniqueKeys(c[1..]) && !HasKey(c[1..], c[0].key)
  {
    var rest := c[1..];
    assert forall i :: 0 <= i < |rest| ==> rest[i] == c[i + 1];
    if UniqueKeys(rest) && !HasKey(rest, c[0].key) {
      forall i, j | 0 <= i < j < |c| ensures c[i].key != c[j].key {
        if i > 0 {
          assert c[i].key == rest[i - 1].key;
        }
      }
    }
  }

  /** Scanning `a + b` finds a match in `a` first, and otherwise the match in `b`. */
  lemma FindAppend<V>(a: Chain<V>, b: Chain<V>, key: Key)
    ensures HasKey(a + b, key) <==> HasKey(a, key) || HasKey(b, key)
    ensures Find(a + b, key) == if HasKey(a, key) then Find(a, key) else Find(b, key)
  {
    var ia := IndexOf(a, key);
    if ia < |a| {
      IndexOfIsFirst(a + b, key, ia);
    } else {
      var ib := IndexOf(b, key);
      IndexOfIsFirst(a + b, key, |a| + ib);
      if ib < |b| {
        assert (a + b)[|a| + ib] == b[ib];
      }
    }
  }

  /** `a + b` has unique keys when each part does and no key occurs in both. */
  lemma UniqueAppend<V>(a: Chain<V>, b: Chain<V>)
    requires UniqueKeys(a) && UniqueKeys(b)
    requires forall j :: 0 <= j < |b| ==> !HasKey(a, b[j].key)
    ensures UniqueKeys(a + b)
  {
    forall i, j | 0 <= i < j < |a + b|
      ensures (a + b)[i].key != (a + b)[j].key
    {
      if i < |a| && |a| <= j {
        assert (a + b)[j] == b[j - |a|];
        assert !HasKey(a, b[j - |a|].key);
      }
    }
  }

  /** The set of keys occurring in `c`. */
  function KeySet<V>(c: Chain<V>): set<Key> {
    set i | 0 <= i < |c| :: c[i].key
  }

  /** The bindings of `c` as a map; where keys repeat the first binding wins,
      as it does for a scan from the head. */
  function ToMap<V>(c: Chain<V>): (m: map<Key, V>)
    ensures forall key :: key in m <==> HasKey(c, key)
    ensures forall key :: key in m ==> Find(c, key) == Some(m[key])
  {
    map key | key in KeySet(c) :: Find(c, key).value
  }

  /** A map that answers every key as a scan of `c` does is `ToMap(c)`. */
  lemma ToMapByFind<V>(c: Chain<V>, m: map<Key, V>)
    requires forall k :: Find(c, k) == if k in m then Some(m[k]) else None
    ensures ToMap(c) == m
  {
    assert ToMap(c).Keys == m.Keys by {
      forall k ensures k in ToMap(c) <==> k in m {
        assert Find(c, k).Some? <==> k in m;
      }
    }
    forall k | k in m ensures ToMap(c)[k] == m[k] {
      assert Find(c, k) == Some(m[k]);
    }
  }

  /** A chain with unique keys has exactly one key per binding. */
  lemma {:induction false} KeySetSize<V>(c: Chain<V>)
    requires UniqueKeys(c)
    ensures |KeySet(c)| == |c|
  {
    if |c| > 0 {
      var rest := c[1..];
      UniqueCons(c);
      KeySetSize(rest);
      assert KeySet(c) == {c[0].key} + KeySet(rest) by {
        forall key | key in KeySet(c) ensures key in {c[0].key} + KeySet(rest) {
          var i :| 0 <= i < |c| && c[i].key == key;
          if i > 0 {
            assert rest[i - 1] == c[i];
          }
        }
        forall key | key in KeySet(rest) ensures key in KeySet(c) {
          var i :| 0 <= i < |rest| && rest[i].key == key;
          assert c[i + 1] == rest[i];
        }
      }
      assert c[0].key !in KeySet(rest);
    }
  }

  /** The map of a chain with unique keys has one entry per binding. */
  lemma MapSize<V>(c: Chain<V>)
    requires UniqueKeys(c)
    ensures |ToMap(c)| == |c|
  {
    KeySetSize(c);
    assert ToMap(c).Keys == KeySet(c);
  }

  /** Prepending a binding whose key is new adds exactly that binding. */
  lemma ToMapPrepend<V>(x: Binding<V>, c: Chain<V>)
    requires UniqueKeys(c)
    requires !HasKey(c, x.key)
    ensures UniqueKeys([x] + c)
    ensures ToMap([x] + c) == ToMap(c)[x.key := x.value]
  {
    UniqueAppend([x], c);
    forall key
      ensures (key in ToMap([x] + c)) == (key in ToMap(c)[x.key := x.value])
      ensures key in ToMap([x] + c) ==> ToMap([x] + c)[key] == ToMap(c)[x.key := x.value][key]
    {
      FindAppend([x], c, key);
    }
  }

  /** Splicing out position `i` of the tail and putting the head back
      splices out position `i + 1` of the whole chain. */
  lemma SpliceAfterHead<V>(c: Chain<V>, i: nat)
    requires i + 1 < |c|
    ensures [c[0]] + (c[1..][..i] + c[1..][i + 1..]) == c[..i + 1] + c[i + 2..]
  {
    assert c[..i + 1] == [c[0]] + c[1..][..i];
    assert c[i + 2..] == c[1..][i + 1..];
  }

  /** `SymTable_remove`'s unlinking: splice out the first binding with key
      `key`, keeping the others in order; no change when there is none. */
  function Remove<V>(c: Chain<V>, key: Key): (r: Chain<V>)
    ensures IndexOf(c, key) == |c| ==> r == c
    ensures IndexOf(c, key) < |c| ==> r == c[..IndexOf(c, key)] + c[IndexOf(c, key) + 1..]
  {
    if |c| == 0 then c
    else if c[0].key == key then c[1..]
    else
      var tail := c[1..];
      var r := Remove(tail, key);
      var i := IndexOf(tail, key);
      assert IndexOf(c, key) == i + 1;
      if i < |tail| then
        SpliceAfterHead(c, i);
        [c[0]] + r
      else
        assert [c[0]] + r == c;
        [c[0]] + r
  }

  /** Removing `key` from a chain with unique keys unbinds `key` and nothing else. */
  lemma RemoveBindings<V>(c: Chain<V>, key: Key)
    requires UniqueKeys(c)
    ensures UniqueKeys(Remove(c, key))
    ensures |Remove(c, key)| == if HasKey(c, key) then |c| - 1 else |c|
    ensures forall k :: Find(Remove(c, key), k) == if k == key then None else Find(c, k)
  {
    var i := IndexOf(c, key);
    if i < |c| {
      RemoveSpliceUnique(c, i);
      forall k ensures Find(Remove(c, key), k) == if k == key then None else Find(c, k) {
        RemoveSpliceFind(c, key, k);
      }
    }
  }

  /** Dropping one binding keeps the keys unique and leaves the position's key
      out. */
  lemma RemoveSpliceUnique<V>(c: Chain<V>, i: nat)
    requires UniqueKeys(c)
    requires i < |c|
    ensures UniqueKeys(c[..i] + c[i + 1..])
    ensures !HasKey(c[i + 1..], c[i].key)
  {
    var front: Chain<V>, back: Chain<V> := c[..i], c[i + 1..];
    forall p, q | 0 <= p < q < |front + back|
      ensures (front + back)[p].key != (front + back)[q].key
    {
      var p' := if p < i then p else p + 1;
      var q' := if q < i then q else q + 1;
      assert (front + back)[p] == c[p'] && (front + back)[q] == c[q'];
    }
    forall j | 0 <= j < |back| ensures back[j].key != c[i].key {
      assert back[j] == c[i + 1 + j];
    }
  }

  /** A scan of the chain without the first binding of `key` finds what a
      scan of the whole chain finds, except for `key` itself. */
  lemma RemoveSpliceFind<V>(c: Chain<V>, key: Key, k: Key)
    requires UniqueKeys(c)
    requires IndexOf(c, key) < |c|
    ensures Find(Remove(c, key), k) == if k == key then None else Find(c, k)
  {
    var i := IndexOf(c, key);
    var front: Chain<V>, here: Chain<V> := c[..i], c[i..];
    var back: Chain<V> := here[1..];
    assert c == front + here;
    assert back == c[i + 1..];
    RemoveSpliceUnique(c, i);
    FindAppend(front, back, k);
    FindAppend(front, here, k);
    FindCons(here, k);
  }

  /** The `map` form of `RemoveBindings`. */
  lemma ToMapRemove<V>(c: Chain<V>, key: Key)
    requires UniqueKeys(c)
    ensures UniqueKeys(Remove(c, key))
    ensures ToMap(Remove(c, key)) == ToMap(c) - {key}
  {
    RemoveBindings(c, key);
    var m := ToMap(c);
    forall k ensures Find(c, k) == if k in m then Some(m[k]) else None {
      assert Find(c, k).Some? <==> k in m;
    }
    FindAfterRemove(c, key, m);
    ToMapByFind(Remove(c, key), m - {key});
  }

  /** A scan of the chain without `key` answers as the map without `key`
      does, for any map `m` that answers as a scan of the chain. */
  lemma FindAfterRemove<V>(c: Chain<V>, key: Key, m: map<Key, V>)
    requires UniqueKeys(c)
    requires forall k :: Find(c, k) == if k in m then Some(m[k]) else None
    ensures forall k :: Find(Remove(c, key), k) == if k in m - {key} then Some((m - {key})[k]) else None
  {
    RemoveBindings(c, key);
  }


  /** `SymTable_replace`'s in-place update: the first binding with key `key`
      gets value `value`; every key stays where it was. */
  function SetValue<V>(c: Chain<V>, key: Key, value: V): (r: Chain<V>)
    ensures IndexOf(c, key) == |c| ==> r == c
    ensures IndexOf(c, key) < |c| ==> r == c[IndexOf(c, key) := Binding(key, value)]
    ensures |r| == |c| && forall j :: 0 <= j < |c| ==> r[j].key == c[j].key
  {
    if |c| == 0 then c
    else if c[0].key == key then [Binding(key, value)] + c[1..]
    else [c[0]] + SetValue(c[1..], key, value)
  }

  /** Replacing the value of a bound key rebinds that key and nothing else. */
  lemma SetValueBindings<V>(c: Chain<V>, key: Key, value: V)
    requires UniqueKeys(c)
    requires HasKey(c, key)
    ensures UniqueKeys(SetValue(c, key, value))
    ensures forall k :: Find(SetValue(c, key, value), k) == if k == key then Some(value) else Find(c, k)
  {
    var i := IndexOf(c, key);
    var r := SetValue(c, key, value);
    assert r == c[i := Binding(key, value)];
    assert forall j :: 0 <= j < |c| ==> r[j].key == c[j].key;
    forall k
      ensures Find(r, k) == if k == key then Some(value) else Find(c, k)
    {
      IndexOfIsFirst(r, k, IndexOf(c, k));
    }
  }

  /** The `map` form of `SetValueBindings`. */
  lemma ToMapSetValue<V>(c: Chain<V>, key: Key, value: V)
    requires UniqueKeys(c)
    requires HasKey(c, key)
    ensures UniqueKeys(SetValue(c, key, value))
    ensures ToMap(SetValue(c, key, value)) == ToMap(c)[key := value]
  {
    SetValueBindings(c, key, value);
    FindAfterSetValue(c, key, value);
    ToMapByFind(SetValue(c, key, value), ToMap(c)[key := value]);
  }

  /** A scan of the updated chain answers as the updated map does. */
  lemma FindAfterSetValue<V>(c: Chain<V>, key: Key, value: V)
    requires UniqueKeys(c)
    requires HasKey(c, key)
    ensures var m := ToMap(c)[key := value];
      forall k :: Find(SetValue(c, key, value), k) == if k in m then Some(m[k]) else None
  {
    SetValueBindings(c, key, value);
    var m := ToMap(c);
    forall k ensures Find(SetValue(c, key, value), k) ==
                     if k in m[key := value] then Some(m[key := value][k]) else None
    {
      assert Find(c, k) == if k in m then Some(m[k]) else None;
    }
  }


}
