# Symbol table: a Dafny model

This project models a small C library, a string-keyed symbol table. It covers
the interface in `symtable.h` and its two implementations:

- **the list backend** (`symtablelist.c`): a single linked list of bindings,
  new bindings prepended, every operation a linear scan from the head;
- **the hash backend** (`symtablehash.c`): an array of bucket chains whose size
  follows the fixed stage table 509, 1021, ..., 65521. A binding lives in
  bucket `hash(key) % count`. The array is meant to grow by one stage when
  the binding count exceeds the bucket count, and a growth is meant to rehash
  every binding.

The model has three layers.

- `SymTable` states the interface as functions on a finite `map<Key, V>`.
  NULL returns become `Option.None`, and allocation failure is a boolean
  parameter.
- `SymTableList` and `SymTableHash` hold the concrete representations: one
  `Chain`, or a `seq` of chains with a growth stage and a count. Each has a
  representation invariant `Valid` and an abstraction `Abs` to the map.
  Every mutating operation (put, replace, remove) has the contract
  `SymTable.Op(Abs(t), ...) == SymTable.Result(Abs(r.table), ...)`; every
  query answers as the map would: `New` gives `SymTable.New()`, `GetLength`
  gives `|Abs(t)|`, `Contains` gives `key in Abs(t)`, `Get` gives
  `SymTable.Get(Abs(t), key)`, and `Map` visits `Abs(t)` once per binding.
  The contract also states the backend-specific shape: prepending at the
  head, splicing in place, the untouched buckets, and the growth stage.
- `Chains` holds the `strcmp` scan of a chain that both backends share;
  `Buckets` and `Hashing` hold the hash backend's bucket array and its 64-bit
  polynomial hash, with the proof against the unbounded polynomial.

`SourceDefects` models five places where the hash backend as written departs
from its own comments and the interface. Each one is modelled as written,
with an input that goes wrong, and next to the corrected definition that the
rest of the model uses. `Scenarios` follows whole call sequences through the
interface: the session put a 1, put b 2, put a 3, get a, replace a 3, get a, remove b, getLength on both backends, and the first growth of
a hash table.

Keys are `seq<Char>` with `Char` in 1..255: the bytes of a NUL-terminated C
string, read as unsigned. Values are an opaque type parameter `V`.

## Model

| member | source | states |
|---|---|---|
| SymTable.New | symtable.h:11-13 | a new table holds no bindings |
| SymTable.Get | symtable.h:36-38 | None exactly when the key is unbound; otherwise the value bound to it |
| SymTable.Put | symtable.h:21-26 | 1 exactly when the key was unbound and allocation succeeded; then the key is bound to the value and the size grows by one; otherwise no binding changes |
| SymTable.Replace | symtable.h:28-31 | returns the old value of a bound key, or None; the key set is unchanged; only that key gets the new value |
| SymTable.Remove | symtable.h:40-42 | returns the old value, or None; a bound key is unbound and the size drops by one; no other binding changes |
| SymTable.VisitCount | symtable.h:44-48 | visiting each binding once means one call per binding, every call on a binding of the table, and every binding covered |
| SymTable.AbsentKey | symtable.h:36-42 | on a new table get, replace and remove all report absence and change nothing |
| SymTable.PutThenGet | symtable.h:21-38 | get after a successful put returns the value put |
| SymTable.PutTwice | symtable.h:21-26 | a second put of the same key returns 0 and keeps the first value |
| SymTable.ReplaceAfterPut | symtable.h:21-31 | replace after put returns the first value, installs the second, and adds no binding |
| SymTable.RemoveUndoesPut | symtable.h:21-42 | remove after a successful put restores the original table and returns the value put |
| SymTable.PutUndoesRemove | symtable.h:21-42 | putting the removed value back restores the original table |
| Hashing.HashWord | symtablehash.c:374-381 | the accumulator always fits in 64 bits |
| Hashing.Hash | symtablehash.c:383 | the bucket index is below the bucket count, for every key and every positive count |
| Hashing.ComputeHash | symtablehash.c:372-384 | the byte-by-byte loop yields a valid bucket index, equal to the unbounded polynomial reduced modulo 2^64 and then modulo the count |
| Hashing.HashWordIsPolynomial | symtablehash.c:380-381 | wrapping at every step, as size_t arithmetic does, equals the unbounded polynomial with one final reduction modulo 2^64 |
| Chains.IndexOf | symtablelist.c:131-139 | the scan stops at the first node whose key matches, and at the end when none does |
| Chains.Find | symtablelist.c:153-161 | a value is found exactly when some node has the key, and on unique keys it is that node's value |
| Chains.ToMap | symtablelist.c:24-29 | the chain's bindings as a map: a key is in it exactly when some node has the key, and maps to what the scan finds |
| Chains.MapSize | symtablelist.c:24-29 | a chain with unique keys stands for a map with one entry per node |
| Chains.ToMapPrepend | symtablelist.c:92-94 | prepending a node with a new key adds exactly that binding and keeps the keys unique |
| Chains.Remove | symtablelist.c:177-203 | the first node with the key is spliced out and the others keep their order; no change when no node has the key |
| Chains.RemoveBindings | symtablelist.c:177-203 | on unique keys, the splice keeps keys unique, removes one node when the key is present, and unbinds that key and no other |
| Chains.ToMapRemove | symtablelist.c:177-203 | the splice stands for the map without the key |
| Chains.SetValue | symtablelist.c:112-121 | the first node with the key gets the new value; the length and every node's key stay as they were |
| Chains.SetValueBindings | symtablelist.c:112-121 | on unique keys, the update rebinds that key and no other |
| Chains.ToMapSetValue | symtablelist.c:112-121 | the update stands for the map with the key rebound |
| SymTableList.New | symtablelist.c:31-42 | None exactly when the allocation fails; otherwise a valid table with length 0 and no bindings |
| SymTableList.GetLength | symtablelist.c:62-65 | the stored count equals the number of bindings |
| SymTableList.Contains | symtablelist.c:125-141 | true exactly when the key is bound, and exactly when some node holds the key |
| SymTableList.Get | symtablelist.c:143-162 | the bound value or None, and it is the value of the node holding the key |
| SymTableList.Put | symtablelist.c:67-98 | refines the interface's put; a new binding becomes the head and the rest of the chain is intact; on 0 the table is unchanged |
| SymTableList.Replace | symtablelist.c:100-123 | refines the interface's replace; the count, the chain length and every node's key are unchanged |
| SymTableList.Remove | symtablelist.c:164-205 | refines the interface's remove; only the matching node is spliced out, the others keep their order, and the count drops by one |
| SymTableList.Map | symtablelist.c:207-220 | the callback sees every binding exactly once, one call per counted binding |
| SymTableList.MapMostRecentFirst | symtablelist.c:92-94 | after a put of a new key, the traversal visits that binding first and then the old traversal |
| Buckets.Empty | symtablehash.c:60 | the new array has the requested size and every bucket is empty |
| Buckets.FlattenAll | symtablehash.c:314-320 | walking all buckets in index order finds exactly what scanning the key's own bucket finds, visits keys in non-decreasing bucket order, and has unique keys when every chain does |
| Buckets.Insert | symtablehash.c:324-337 | the binding becomes the head of bucket hash(key) over that bucket's old chain; no other bucket changes; the array keeps its size and holds one binding more |
| Buckets.InsertAll | symtablehash.c:128-141 | inserting bindings one by one, as the move loop is meant to, keeps the array's size and adds one binding per item |
| Buckets.InsertAllPlaces | symtablehash.c:128-141 | every inserted binding lands in the bucket its key hashes to, every earlier binding stays in its bucket, and a bucket no key hashes to is untouched |
| Buckets.InsertFresh | symtablehash.c:324-337 | making an absent binding the head of its bucket keeps every binding in its hashed bucket and the keys unique, adds one binding, and binds exactly that key |
| Buckets.InsertAllFresh | symtablehash.c:126-145 | inserting bindings with unique, absent keys one by one adds them all and changes no other lookup |
| Buckets.SetValueInBucket | symtablehash.c:198-205 | swapping a value in its bucket keeps the array indexed and unique, keeps the count, and rebinds exactly that key |
| Buckets.RemoveInBucket | symtablehash.c:276-300 | splicing a key out of its bucket keeps the array indexed and unique, removes one binding, and unbinds exactly that key |
| SymTableHash.AbsLookup | symtablehash.c:217-229 | the binding of a key is found by scanning only the bucket the key hashes to |
| SymTableHash.KeysUniqueAcrossTable | symtablehash.c:43-49 | keys are unique across the whole table, and the count equals the number of bindings |
| SymTableHash.New | symtablehash.c:51-68 | None exactly when an allocation fails; otherwise a valid empty table at stage 0 with 509 buckets |
| SymTableHash.GetLength | symtablehash.c:91-94 | the stored count equals the number of bindings |
| SymTableHash.Contains | symtablehash.c:210-232 | true exactly when the key is bound |
| SymTableHash.Get | symtablehash.c:234-256 | the value bound to the key, or None |
| SymTableHash.NextStage | symtablehash.c:110-124 | growth advances exactly one stage, and only when the count exceeds the bucket count, a later stage exists and the allocation succeeds |
| SymTableHash.Rehash | symtablehash.c:126-145 | the new array is valid for the new stage's count, with the same bindings and the same count |
| SymTableHash.RehashMovesAll | symtablehash.c:126-145 | moving every binding by its own key into an empty array establishes the bucket-index invariant, keeps keys unique and keeps every binding |
| SymTableHash.MaybeGrow | symtablehash.c:109-146 | the stage moves as NextStage decides; the bindings and the count never change; no growth leaves the table as it was |
| SymTableHash.InsertKeepsValid | symtablehash.c:170-179 | prepending a fresh binding to its bucket keeps the table valid and binds exactly that key anew |
| SymTableHash.Put | symtablehash.c:96-181 | refines the interface's put; a present key leaves the table unchanged; the stage follows NextStage; a new binding heads bucket hash(key) of the grown array, no other bucket changes, and the count grows by one; a call that returns 0 leaves the count as it was |
| SymTableHash.SetValueKeepsValid | symtablehash.c:196-205 | swapping a present key's value in its bucket keeps the table valid, rebinds only that key, and moves no key |
| SymTableHash.Replace | symtablehash.c:183-208 | refines the interface's replace; the count, the stage, the other buckets and the keys of the key's own bucket are unchanged |
| SymTableHash.RemoveKeepsValid | symtablehash.c:272-300 | splicing a present key out of its bucket keeps the table valid with one binding fewer and unbinds only that key |
| SymTableHash.Remove | symtablehash.c:258-303 | refines the interface's remove; only the matching node is unlinked, its bucket keeps its order, the other buckets are untouched, and the count drops by one |
| SymTableHash.Map | symtablehash.c:305-321 | the callback sees every binding exactly once, one call per counted binding, in non-decreasing bucket order |
| Scenarios.ExampleSwapsOnMap | symtable.h:28-42 | from the bindings a 1, b 2, replace a 3 returns 1, get a returns 3, remove b returns 2, and one binding is left |
| Scenarios.ExampleSessionListPuts | symtablelist.c:67-98 | put a 1 and put b 2 return 1, put a 3 returns 0, and get a returns 1 |
| Scenarios.ExampleSessionListSwaps | symtablelist.c:100-205 | from a 1, b 2: replace a 3 returns 1, get a returns 3, remove b returns 2, and getLength is 1 on the list backend |
| Scenarios.ExampleSessionHashPuts | symtablehash.c:96-181 | from a new table, put a 1 and put b 2 return 1, put a 3 returns 0, and get a returns 1 on the hash backend |
| Scenarios.ExampleSessionHashSwaps | symtablehash.c:183-303 | from a 1, b 2: replace a 3 returns 1, get a returns 3, remove b returns 2, and getLength is 1 on the hash backend |
| Scenarios.PutAll | symtablehash.c:96-181 | a run of puts, each with its own growth and node allocation outcome, keeps the table valid; the count grows by the number of calls that returned 1; when every node allocation fails, no call returns 1 and the bindings are unchanged |
| Scenarios.PutFresh | symtablehash.c:164-180 | a put of a fresh key returns 1 and binds exactly that key; the stage stays while the count does not exceed the bucket count |
| Scenarios.PutAllFresh | symtablehash.c:96-181 | putting distinct fresh keys inserts every one, keeps every earlier binding, and leaves the stage alone while the count stays within the bucket count |
| Scenarios.GrowsOnNextPut | symtablehash.c:110 | a stage-0 table with 510 bindings moves to 1021 buckets on the next put of a fresh key and keeps every binding |
| Scenarios.FillFirstStage | symtablehash.c:110 | 510 distinct keys put into an empty table leave it at 509 buckets, holding and counting all of them and binding no other key |
| Scenarios.FillBeforeGrowth | symtablehash.c:110 | after the first 510 of 511 distinct keys the table is valid and full at stage 0, holds each of them, and the last key is still absent |
| Scenarios.GrowthBoundary | symtablehash.c:109-146 | the 511th put into an empty table finds 510 > 509, moves to 1021 buckets, and all 511 bindings are there |
| SourceDefects.DeleteAsWritten | symtablehash.c:339-369 | a head match is unlinked; any match decrements the count and returns 1; a non-head match leaves the chain as it was |
| SourceDefects.DeleteAsWrittenKeepsNode | symtablehash.c:358-362 | deleting the second of two bindings drops the count to 1 while both nodes remain and the key is still found |
| SourceDefects.DeleteAsWrittenBreaksCount | symtablehash.c:358-362 | whenever the match is not the head, the count falls out of step with the chain and the key stays bound |
| SourceDefects.DeleteCorrected | symtablehash.c:339-369 | the intended delete keeps the count in step with the chain, unbinds the key, keeps keys unique, and changes no other lookup |
| SourceDefects.GrowthIndexAsWritten | symtablehash.c:110-119 | the growth branch is taken exactly when the count exceeds the bucket count, and it always reads the next stage's entry |
| SourceDefects.CounterRunsOffTheEnd | symtablehash.c:116-119 | at the last stage with more than 65521 bindings, the count read is entry 8 of an 8-entry array |
| SourceDefects.NextStageCorrected | symtablehash.c:110-124 | below the last stage the corrected growth agrees with the code; at the last stage it stays |
| SourceDefects.ContainsAsWritten | symtablehash.c:210-232 | with the process-wide stage the bucket index can fall outside the table's array; a key it reports is really there |
| SourceDefects.SharedCounterMissesKey | symtablehash.c:16 | a stage-0 table holding key [1, 1] reports it absent once another table has moved the shared counter to stage 1, while the per-table Contains finds it |
| SourceDefects.MoveChainAsWritten | symtablehash.c:129-140 | for a new array whose bindings sit in their hashed buckets, the walk of an old chain stops after its head when the head's new bucket was empty, and never ends otherwise |
| SourceDefects.WalkLosesTail | symtablehash.c:129-140 | when the walk stops, every binding of the old chain after its head is in no bucket of the new array |
| SourceDefects.RehashWalkDropsBinding | symtablehash.c:129-140 | keys [1, 63] and [1] share old bucket 1; the walk as written loses [1], while the corrected rehash keeps both |
| SourceDefects.InsertAllKeepsPair | symtablehash.c:126-145 | the corrected rehash keeps both bindings of a two-binding chain with distinct absent keys |
| SourceDefects.OldBucketsReadAsWritten | symtablehash.c:128 | the outer loop reads indices 0 up to the new stage's count |
| SourceDefects.RehashReadsPastOldArray | symtablehash.c:128-129 | at every growth of a valid table the loop reads an index at or past the length of the table's bucket array |

## Left out

- `SymTable_free` (symtablelist.c:44-60, symtablehash.c:70-89): teardown only releases memory and has no observable result in a model with value semantics.
- `malloc`, `calloc`, `free`, and the defensive key copy with `strcpy`: Dafny values are already owned copies. A failed allocation is a boolean parameter (`allocOk`, `growOk`, `nodeOk`).
- SymTableHash.New: one `allocOk` stands for both allocations of `SymTable_new`, the record and the bucket array. Either failure makes the caller see NULL.
- The `assert(... != NULL)` checks on the table, the key and the callback: a Dafny value cannot be NULL, so these checks have no counterpart.
- The callback and `pvExtra` of `SymTable_map`: `Map` returns the sequence of (key, value) pairs in calling order instead of calling a function.
- Reentrancy from inside a `map` callback, and concurrency: out of scope.
- The `ppsSymNode == NULL` check of `SymTable_put` (symtablehash.c:166-168): a valid table always has its array, so the branch cannot be reached.
- The `SymTable_delete` call inside the rehash loop (symtablehash.c:139): it searches for the key being put, which `put` has just found absent, so it changes no binding. On a walk that cycles (the `Cycles` outcome of `SourceDefects.MoveChainAsWritten`) this call is where the program never returns: it scans the old bucket from its original head, whose `psNextNode` now points into the two relinked nodes of the new array, and goes round them forever. `SourceDefects.MoveChainAsWritten` models the loop without the call and reports that outcome as `Cycles`.
- A signed `char`: `(size_t)pcKey[u]` sign-extends bytes above 127 where `char` is signed. The model reads every byte as unsigned, which is the behaviour where `char` is unsigned.
- The process-wide `counter` (symtablehash.c:16): the corrected model keeps the stage per table. Only `SourceDefects.ContainsAsWritten` models the shared stage.
- SymTableHash.Map: states the bucket order of the visits but not the chain order within a bucket. Even the corrected `SymTableHash.Rehash` reverses the order within a bucket: `Buckets.InsertAll` inserts the flattened bindings first to last and `Buckets.Insert` prepends, so the newest-first order of a chain does not survive a growth, and there is no fixed order to promise.

## Findings

| source | as written | input that shows it | evidently intended | confidence | as-written member | corrected member |
|---|---|---|---|---|---|---|
| symtablehash.c:358-362 | on a match below the head, `psPreviousNode` is set to the matched node itself, so the relink unlinks nothing while the count still drops | chain a 1, b 2 with count 2; delete b | splice the matched node out, as `SymTable_remove` does | not executed; the only caller passes an absent key, so the branch is latent | SourceDefects.DeleteAsWrittenKeepsNode | SourceDefects.DeleteCorrected |
| symtablehash.c:116-119 | `counter++` has no upper bound, and the next `calloc` reads `auBucketCounts[counter]` | a table at the last stage (65521 buckets) holding 65522 bindings, then one more put | stay at the last stage | not executed | SourceDefects.CounterRunsOffTheEnd | SourceDefects.NextStageCorrected |
| symtablehash.c:16 | one static `counter` is shared by every table, while each table's array has the size of its own last growth | table A at stage 0 holding key [1, 1] (bucket 448 of 509); another table grows the counter to stage 1; `contains` on A scans bucket 256 | each table keeps its own stage | not executed | SourceDefects.SharedCounterMissesKey | SymTableHash.Contains |
| symtablehash.c:129-140 | after `SymTable_insert` relinks a node into the new array, the loop follows the node's new `psNextNode`, not its old successor | old bucket 1 of 509 holding [1, 63] then [1]; growth to 1021 buckets moves [1, 63] to empty bucket 318 and stops, losing [1] | save the successor before relinking, so every node is moved | not executed | SourceDefects.RehashWalkDropsBinding | SymTableHash.RehashMovesAll |
| symtablehash.c:128 | the loop over the old array runs to the new stage's bucket count | any growth, for example from 509 to 1021 buckets, reads indices 509 to 1020 of a 509-entry array | loop over the old bucket count | not executed | SourceDefects.RehashReadsPastOldArray | SymTableHash.Rehash |
