# c_hashmap — a verified model of the table engine

`src/chashmap.c` is a thread-safe generic hash map for byte-blob keys and values.
Each key and value is a length-tagged buffer (`chmap_pair`). Collisions are resolved by
chaining: a bucket array of singly-linked chains. A second, doubly-linked list
(`head_of_all_elems`) threads through every node, and the whole-table visits walk it.
The capacity is a power of two of at least 2048.
The table grows four-fold once an insert brings the count to the scale-up threshold,
which is one and a half times the capacity. It shrinks four-fold once a delete brings
the count below the scale-down threshold, capacity / 8, as long as the capacity is
at least 8192.

The model has six modules, one per concern of the source file, and a seventh for the tests:

- `Hashing` (`hashing.dfy`): key comparison (`compare_key_pairs`), the key-to-number
  conversion of short keys (`assign_key_to_hash_id`), the add/xor fold of longer keys,
  and the bucket index (`calculate_bucket_index`).
- `Chains` (`chains.dfy`): a bucket's chain as a sequence of entries, head first, with
  its lookup (`find_in_llist`) and unlink (`delete_from_llist`).
- `GlobalList` (`global_list.dfy`): the global list as the sequence of its nodes' keys,
  with attach (`attach_node_to_dllist`) and detach (`detach_node_from_dllist`).
- `Sizing` (`sizing.dfy`): the capacity constants, the power-of-two rounding of
  `chmap_create` and `chmap_reset`, `set_chmap_scaling_limits`, and the grow/shrink
  decisions as a small state machine over capacity and thresholds.
- `TableInvariant` (`table_inv.dfy`): the invariant linking the bucket chains to the
  map the table stands for. Around it are the lemmas that each structural change
  (insert, replace, remove, rehash) keeps it.
- `ChashMap` (`chashmap.dfy`): the `struct chashmap` as the class `Table`.
  - Its fields are the bucket array, the capacity, the count, both thresholds and the
    global list.
  - A ghost map `contents` is the map the table stands for.
  - Its methods are the public operations, each proved against `contents` and the
    invariant `Valid()`.
- `Scenarios` (`scenarios.dfy`): the tests `basic_insertions_and_lookups`,
  `basic_deletions` and `reset` of `test/tests.c`, restated as client methods of `Table` whose
  contracts state the results the tests require, for any keys and for the tests' own.

Modelling conventions:

- A byte is an `int` in 0..255.
- The empty byte sequence stands for both a NULL pointer and a zero size, which the
  source rejects alike.
- Every allocation outcome (`malloc`, `calloc`, `realloc`) is a boolean parameter.
- A callback is a pure function from key and value to the new value.
- The machine is the little-endian LP64 one: `unsigned long` is 8 bytes, and the hash
  wraps modulo 2^64.

Behaviour of the code that the model follows, and that a reader might not expect:

- Hashing. Every key of at most 8 bytes, of any length, hashes to its little-endian
  value (src/chashmap.c:376-378). Longer keys use an add/xor fold of `2*b+1` terms
  (src/chashmap.c:380-388).
- Capacity floor. The least capacity is 2048 (src/chashmap.c:33).
- Thresholds. `chmap_reset` never calls `set_chmap_scaling_limits`
  (src/chashmap.c:692-731). After a capacity change the thresholds stay those of the
  previous capacity.
- Interface. include/chashmap.h:40-123 declares an allocator parameter
  (`chashmap_memmgmt_procs_t`, `chmap_create_mp`) and `chashmap_retval_t` results. The
  definitions in src/chashmap.c have neither: `chmap_create` takes only the requested
  size (src/chashmap.c:296), and results are 0/-1, modelled as `bool`.
  `chmap_delete_elem` returns nothing (src/chashmap.c:613), so a missing key is not an
  error.
- Read-only visit. `chmap_for_each_elem_rd` takes the write lock (src/chashmap.c:680).
  Locking is outside the model either way.

## Model

Most lemmas below are steps of the proofs of the `Table` methods. Six are standalone
theorems about the model that no other member uses: `TableInvariant.OneNodePerKey`,
`GlobalList.DetachAttach`, `GlobalList.DetachAt`, `Hashing.ShortKeysDoNotCollide`,
`Hashing.LongKeyIndexParity` and `Sizing.ScalingRoundTrip`.

| member | source | states |
|---|---|---|
| Hashing.LeValueBound | src/chashmap.c:343-366 | a key of n bytes read as a little-endian integer is below 256^n, so a key of at most 8 bytes fits an `unsigned long` |
| Hashing.LeValueInjective | src/chashmap.c:201-224 | two keys of equal size with equal integer values are equal byte strings, so integer comparison is byte comparison |
| Hashing.KeysEqual | src/chashmap.c:201-224 | `compare_key_pairs` is true exactly when the two keys are the same byte string, on the size-mismatch, integer and memcmp paths alike |
| Hashing.AssignKeyToHashId | src/chashmap.c:343-366 | the integer-width reads and the byte-by-byte copy into a zeroed word both yield the key's little-endian value, which is below 2^64 |
| Hashing.XorBound | src/chashmap.c:386 | xor of two 64-bit numbers stays within 64 bits |
| Hashing.XorParity | src/chashmap.c:386 | the low bit of a xor is the sum of the low bits modulo 2 |
| Hashing.Fold | src/chashmap.c:380-388 | the add/xor fold over a long key stays a 64-bit word |
| Hashing.Hash | src/chashmap.c:376-393 | the stored `hash_val` of every key is a 64-bit word |
| Hashing.CalculateBucketIndex | src/chashmap.c:368-398 | the loop computes the hash of the key, and the returned index is that hash modulo the capacity, a valid bucket |
| Hashing.ShortKeysDoNotCollide | src/chashmap.c:376-378 | two keys of the same length of at most 8 bytes with equal hashes are the same key |
| Hashing.AddOddFlips | src/chashmap.c:384 | adding an odd term modulo 2^64 flips the low bit |
| Hashing.XorOddFlips | src/chashmap.c:386 | xoring an odd term flips the low bit |
| Hashing.FoldStep | src/chashmap.c:382-388 | each step of the fold flips the parity of the running hash |
| Hashing.FoldParity | src/chashmap.c:380-388 | after n bytes the fold has the parity of n |
| Hashing.LongKeyIndexParity | src/chashmap.c:380-395 | a key longer than 8 bytes has a hash, and with an even capacity a bucket index, whose parity is that of its length: long keys of one length reach only half the buckets |
| Chains.IndexOfKey | src/chashmap.c:226-236 | the position found holds the key, and no earlier node does |
| Chains.IndexOfKeyDistinct | src/chashmap.c:226-236 | in a chain without repeated keys, the lookup of a node's key finds that node |
| Chains.DropAt | src/chashmap.c:263-267 | relinking past position p keeps every earlier node and shifts every later one down by one |
| Chains.DropAtDistinct | src/chashmap.c:263-267 | relinking past a node keeps the chain free of repeated keys |
| Chains.DropAtMembers | src/chashmap.c:263-267 | after relinking past a node, the chain holds exactly the other nodes |
| Chains.RemoveFirst | src/chashmap.c:258-278 | the relink of the first node holding the key: the chain is unchanged exactly when no node holds the key, and otherwise loses one node and gains none |
| Chains.RemoveFirstFacts | src/chashmap.c:251-279 | unlinking the node of k removes exactly the node holding k, keeps every other node, and shortens the chain by one exactly when k was present |
| Chains.FindInChain | src/chashmap.c:226-236 | returns the first node whose key equals k, or NULL (-1) exactly when no node holds k |
| Chains.DeleteFromChain | src/chashmap.c:251-279 | `found` is true exactly when some node holds k, and the new chain is the old one without its first node holding k |
| GlobalList.Attach | src/chashmap.c:54-66 | the new node becomes the head, the list gains exactly its key, and a list without repeats stays without repeats |
| GlobalList.Detach | src/chashmap.c:68-80 | detaching a listed node shortens the list by exactly one; detaching an unlisted one keeps its length |
| GlobalList.DetachFacts | src/chashmap.c:68-80 | on a list without repeats, detaching removes exactly that key and keeps the list without repeats |
| GlobalList.DetachAt | src/chashmap.c:68-80 | detaching the node at position p links its predecessor to its successor; the other nodes keep their order |
| GlobalList.DetachAttach | src/chashmap.c:54-80 | attaching a new node and detaching it again restores the list: attach and detach are inverse |
| GlobalList.ListedNoDup | src/chashmap.c:281-289 | a global list with one node per key of the table has no repeated key and lists exactly the table's keys |
| GlobalList.ListedAttach | src/chashmap.c:132 | attaching the node of a new key keeps the list in step with the table's keys |
| GlobalList.ListedDetach | src/chashmap.c:94-96 | detaching the node of a present key keeps the list in step with the table's keys |
| Sizing.Pow2Scale | src/chashmap.c:446-452 | multiplying or dividing a power of two by the scale factor 4 gives a power of two |
| Sizing.NextPow2 | src/chashmap.c:305 | `powl(2, ceill(log2l(n)))` is the least power of two at least n, and 0 for n = 0 |
| Sizing.CreateCapacity | src/chashmap.c:301-306 | the capacity `chmap_create` picks is the least power of two that is at least both the request and 2048 |
| Sizing.ResetCapacity | src/chashmap.c:699-704 | `chmap_reset` rounds a nonzero request exactly as `chmap_create` does, and leaves 0 as 0 (keep the capacity) |
| Sizing.ScaleUpLimitAsWritten | src/chashmap.c:292 | the 32-bit `bucket_arr_size * 6 / 4` is always below 2^30, and equals one and a half times the capacity while `cap * 6` fits in 32 bits |
| Sizing.ScaleUpLimitOverflows | src/chashmap.c:292 | at capacity 2^30 the 32-bit `cap * 6 / 4` yields 2^29 instead of 3 * 2^29 |
| Sizing.ScaleUpLimitExact | src/chashmap.c:291-294 | for every capacity of the model the 32-bit scale-up threshold is exact and is 1.5 times the capacity, and the scale-down threshold is exactly capacity / 8 |
| Sizing.InsertRunStable | src/chashmap.c:506-509 | inserts that keep the count below the scale-up threshold never change capacity or thresholds |
| Sizing.DeleteRunStable | src/chashmap.c:629-633 | deletes that keep the count at or above the scale-down threshold, or that happen below capacity 8192, never shrink |
| Sizing.InsertRunSplit | src/chashmap.c:506-509 | a run of a+b inserts is a run of a inserts followed by a run of b |
| Sizing.DeleteRunSplit | src/chashmap.c:629-633 | a run of a+b deletes is a run of a deletes followed by a run of b |
| Sizing.GrowAfterInsert | src/chashmap.c:505-509 | after an insert of a new key, the capacity grows four-fold exactly when the count reached the scale-up threshold, with the thresholds of the new capacity; otherwise nothing changes |
| Sizing.ShrinkAfterDelete | src/chashmap.c:628-633 | after a delete of a present key, the capacity shrinks four-fold exactly when the count fell below the scale-down threshold and the capacity is at least 8192, to a capacity of at least 2048 with its thresholds; otherwise nothing changes |
| Sizing.ScalingRoundTrip | test/tests.c:438-470 | from a table created at 2048, inserting threshold+1 keys raises capacity and both thresholds, and deleting them all restores exactly the initial capacity and thresholds |
| TableInvariant.InvEmpty | src/chashmap.c:324-329 | a zeroed bucket array is a valid table for the empty map |
| TableInvariant.LookupFacts | src/chashmap.c:495-498 | a key is present exactly when its bucket's chain holds it, and the node found holds its hash and value |
| TableInvariant.OneNodePerKey | src/chashmap.c:480-516 | no key has two nodes anywhere in the table |
| TableInvariant.InsertAgree | src/chashmap.c:171-186 | after a new node is prepended to its bucket, every node sits in its bucket and holds the new map's value |
| TableInvariant.InsertDistinct | src/chashmap.c:171-186 | prepending the node of a new key keeps every chain free of repeated keys |
| TableInvariant.InsertStored | src/chashmap.c:171-186 | after prepending, every key of the new map has its node in its bucket |
| TableInvariant.InvInsertNew | src/chashmap.c:503-504 | inserting the node of a new key keeps the invariant for the map extended with that key |
| TableInvariant.ReplaceAgree | src/chashmap.c:145-169 | after a value is rewritten in place, every node holds the updated map's value |
| TableInvariant.ReplaceDistinct | src/chashmap.c:145-169 | rewriting a node's value keeps every chain free of repeated keys |
| TableInvariant.ReplaceStored | src/chashmap.c:145-169 | after a value is rewritten in place, every key still has its node in its bucket |
| TableInvariant.InvReplace | src/chashmap.c:499-501 | rewriting the value of a present key keeps the invariant for the updated map |
| TableInvariant.RemoveAgree | src/chashmap.c:625-626 | after a node is unlinked, every remaining node holds the reduced map's value |
| TableInvariant.RemoveStored | src/chashmap.c:625-626 | after a node is unlinked, every other key still has its node in its bucket |
| TableInvariant.InvRemove | src/chashmap.c:625-626 | unlinking the node of a present key keeps the invariant for the map without it |
| TableInvariant.DoneStep | src/chashmap.c:462-470 | walking one more node of a chain visits exactly one more key of the map |
| TableInvariant.DoneNextBucket | src/chashmap.c:462-472 | finishing a chain and moving to the next bucket visits no further key |
| TableInvariant.RehashInit | src/chashmap.c:454-459 | before the move, the zeroed new array holds no node and every old node is still to be moved |
| TableInvariant.MovedAgreeStep | src/chashmap.c:466-468 | after a node migrates to bucket `hash % newCap`, every moved node is placed for the new capacity and holds its map value |
| TableInvariant.MovedDistinctStep | src/chashmap.c:466-468 | a migrated node's key is new to its destination chain, so chains stay free of repeated keys |
| TableInvariant.MovedStoredStep | src/chashmap.c:466-468 | after a node migrates, every key already visited has its node in its new bucket |
| TableInvariant.RehashStep | src/chashmap.c:463-469 | migrating one node keeps the rehash invariant one node further on |
| TableInvariant.RehashNextBucket | src/chashmap.c:462-472 | finishing one old bucket keeps the rehash invariant at the start of the next |
| TableInvariant.RehashFinal | src/chashmap.c:474-476 | once every old bucket is walked, the new array is a valid table for the same map |
| ChashMap.MoveAllNodes | src/chashmap.c:461-472 | moving every node of every old chain to bucket `hash % newCap` of the zeroed new array gives a valid table for the same map |
| ChashMap.AppliedStep | src/chashmap.c:661-666 | visiting the next node of the global list applies the callback to a value not yet touched |
| ChashMap.AppliedAll | src/chashmap.c:661-666 | after the walk over a list of every key, every value has been mapped exactly once |
| ChashMap.ZeroBuckets | src/chashmap.c:725 | the memset empties every bucket |
| ChashMap.DetachAllNodes | src/chashmap.c:708-710 | destroying every chain detaches every node, so the global list ends up empty |
| ChashMap.SetBucket | src/chashmap.c:503-504 | storing a chain head changes that bucket and no other |
| ChashMap.CopyValue | src/chashmap.c:518-530 | the first `min(value size, buffer size)` bytes of the buffer become the value's, and the rest of the buffer is untouched |
| ChashMap.Table.Init | src/chashmap.c:324-329 | a new table is empty, has the given capacity and thresholds set for it, and is valid |
| ChashMap.Table.Create | src/chashmap.c:296-341 | NULL exactly for a request of 0 or a failed allocation; otherwise an empty valid table at the rounded capacity with its thresholds |
| ChashMap.Table.SetScalingLimits | src/chashmap.c:291-294 | for a capacity of the model, the thresholds computed in 32 bits as the source does are exactly those of the current capacity, and nothing else changes |
| ChashMap.Table.Scale | src/chashmap.c:446-478 | a successful grow or shrink moves to 4x or 1/4 the capacity, with new thresholds and the same map, list and count; a failed allocation changes nothing |
| ChashMap.Table.Store | src/chashmap.c:503-504 | the array gets the new chain at that one bucket, every other bucket unchanged, and the table stands for the given map, count and list, keeping the invariant |
| ChashMap.Table.SetValueAt | src/chashmap.c:145-169 | overwriting the value of a present key's node changes only that node of that chain and updates the map at that key only; it keeps the invariant, the list, the count and the sizes |
| ChashMap.Table.AddNode | src/chashmap.c:171-186 | a new key's node is prepended to its chain, every other bucket unchanged, and goes to the head of the global list; the map gains the key, and the count rises by one |
| ChashMap.Table.Unlink | src/chashmap.c:251-279 | unlinking a present key's node replaces its chain by the chain without it, every other bucket unchanged; it removes the key from the map and the global list, and lowers the count by one |
| ChashMap.Table.Insert | src/chashmap.c:480-516 | succeeds exactly when key and value are nonempty and the needed node or realloc succeeds; the map then maps key to value; a new key is attached at the list's head and may trigger the grow; a failure changes nothing; the bucket array is the same one unless the capacity changed, and a fresh one otherwise |
| ChashMap.Table.GetCopy | src/chashmap.c:532-559 | succeeds exactly for a nonempty key present in the map and a nonempty buffer, and copies the first `min(sizes)` bytes of its value; otherwise the buffer is untouched |
| ChashMap.Table.GetRef | src/chashmap.c:561-584 | succeeds exactly for a nonempty present key, and then yields that key's stored value |
| ChashMap.Table.ExecFuncOnElem | src/chashmap.c:586-611 | succeeds exactly for a nonempty present key, whose value becomes the callback's result; no other key changes |
| ChashMap.Table.Delete | src/chashmap.c:613-637 | a present key leaves the map and the global list and may trigger the shrink; an empty or absent key changes nothing; the bucket array is the same one unless the capacity changed, and a fresh one otherwise |
| ChashMap.Table.Count | src/chashmap.c:639-649 | the count is the number of keys in the map |
| ChashMap.Table.ForEachWr | src/chashmap.c:651-669 | every key keeps its place, and every value becomes the callback's result on its original value |
| ChashMap.Table.VisitNode | src/chashmap.c:663-665 | one step of the walk applies the callback to the next listed key only |
| ChashMap.Table.ForEachRd | src/chashmap.c:671-690 | the callback sees every key once, in global-list order, each with its stored value |
| ChashMap.Table.ReallocAndClear | src/chashmap.c:712-726 | the array takes the new capacity unless the realloc fails, which is reported; it is then zeroed, the table is empty and valid, and the thresholds are unchanged; the array is the same one unless the capacity changed, and a fresh one otherwise |
| ChashMap.Table.Reset | src/chashmap.c:692-731 | the table ends up empty and valid at the rounded requested capacity, or at the old one for a request of 0 or a failed realloc, which is reported; the thresholds are not recomputed; the array is the same one unless the capacity changed, and a fresh one otherwise |
| Scenarios.Put | test/tests.c:25-29 | `insert_string_to_int` below the scale-up threshold succeeds, maps the key to the value, keeps the bucket array and sizes, and raises the count exactly for a new key |
| Scenarios.Remove | test/tests.c:48-51 | `delete_int_from_string` below the shrink floor removes the key, keeps the bucket array and sizes, and lowers the count exactly when the key was present |
| Scenarios.GetInt | test/tests.c:31-35 | `get_int_from_string` succeeds exactly for a nonempty present key and then reads its 4-byte value |
| Scenarios.PutTwo | test/tests.c:221-224 | two distinct keys inserted into an empty table are both mapped, and the count reads 2 |
| Scenarios.GetTwo | test/tests.c:226-229 | two present keys read back their 4-byte values |
| Scenarios.RemoveFromEmpty | test/tests.c:216-219 | deleting from an empty table leaves it empty, with count 0 |
| Scenarios.CreateWithTwo | test/tests.c:285-294 | a new table at the least capacity, with its thresholds, holds the two inserted keys, and the count reads 2 |
| Scenarios.ResetAndRefill | test/tests.c:296-309 | a reset succeeds, empties the table at the rounded capacity and keeps the thresholds; two inserts then read back their values, with counts 0 and 2 |
| Scenarios.BasicInsertionsAndLookups | test/tests.c:54-78 | for any two distinct keys and 4-byte values: lookups in the new table fail, the counts read 0, 1, 1, 2, every insert succeeds, and the lookups return the second value of the first key and the value of the second |
| Scenarios.BasicInsertionsAndLookupsAsTested | test/tests.c:54-78 | with the test's keys and values the lookups read 3 and 5 and the counts 0, 1, 1, 2 |
| Scenarios.BasicDeletions | test/tests.c:210-245 | for any two distinct keys: the counts read 0, 0, 2, 1, 0, 0, the lookups before the deletes return the inserted values, and those after them fail |
| Scenarios.BasicDeletionsAsTested | test/tests.c:210-245 | with the test's keys and values the counts read 0, 0, 2, 1, 0, 0 and the lookups 3 and 5 |
| Scenarios.DeleteBoth | test/tests.c:231-242 | deleting both keys one by one makes each lookup fail, with counts 1, 0 and, after deleting again, 0 |
| Scenarios.ResetScenario | test/tests.c:284-327 | for any two distinct keys: both resets succeed, the counts read 2, 0, 2, 0, 2, the lookups after each refill return the new values, and after the reset to 8192 the thresholds are still those of capacity 2048 |
| Scenarios.ResetAsTested | test/tests.c:284-327 | with the test's keys and values the counts read 2, 0, 2, 0, 2 and the lookups 4, 6, 4, 6 |

## Left out

- Locking: the `pthread_rwlock_t` of every operation, its initialisation in `chmap_create` and
  its destruction. Every operation is modelled as running alone.
- `NULL` table handles, `NULL` pairs and `NULL` callbacks. The model has no null handles.
  A `NULL` key or value pointer is covered by the empty byte sequence.
- `_chmap_destroy` and the `chmap_destroy` macro: freeing memory is not modelled.
  The walk they share with `chmap_reset` is `ChashMap.DetachAllNodes`.
- `fprintf` diagnostics on allocation failure.
- The test-only getters `chmap_get_bucket_arr_size`, `chmap_get_elem_count_to_scale_up` and
  `chmap_get_elem_count_to_scale_down` are the function `ChashMap.Table.Sizes`, which reads
  the three fields.
- The big-endian branch of `assign_key_to_hash_id` (src/chashmap.c:359-363). The model is
  the little-endian machine.
- Sizing.NextPow2: computes the least power of two exactly. The source's `long double` path
  through `powl`, `ceill` and `log2l` is not modelled, and neither is its conversion back to
  `uint32_t`.
- `create_llist_node`: its allocations after the node's own `calloc` form one outcome,
  `nodeOk`, and `nodeOk == false` is a clean NULL return. The source's cleanup through
  `destroy_llist_node` (src/chashmap.c:88-99) differs by failure point; the model captures
  only the last one:
  - the `key_pair` malloc fails (src/chashmap.c:108): `key_pair` is still NULL, and
    line 90 dereferences it;
  - the `val_pair` malloc fails (src/chashmap.c:114): line 90 frees the uninitialised
    `key_pair->ptr`, then line 92 dereferences the NULL `val_pair`;
  - the key buffer malloc fails (src/chashmap.c:120): line 92 frees the uninitialised
    `val_pair->ptr`; no NULL is dereferenced;
  - the value buffer malloc fails (src/chashmap.c:126): everything allocated is freed and
    NULL is returned.
- ChashMap.Table.Insert: requires that a grow it may trigger stays within `MAX_CAPACITY`
  (2^29), and so does not model the 32-bit wrap-around of the capacity beyond it.
- ChashMap.Table.Create: requires a request of at most 2^29, the model's capacity bound.
- ChashMap.Table.Reset: requires a request of at most 2^29, the model's capacity bound.
- Counts are unbounded naturals. The `uint32_t` wrap of `elem_count` after 2^32 keys is
  not modelled.
- ChashMap.Table.ExecFuncOnElem: the callback is a pure function that keeps the value's size.
  The model does not capture these callback behaviours:
  - changing the size or the key;
  - side effects through `args`;
  - re-entering the table.
- ChashMap.Table.ForEachWr: the callback is restricted in the same way. The walk reaches each
  node by its key, not through the `host` pointer.
- ChashMap.Table.ForEachRd: returns the sequence of (key, value) pairs the callback
  receives, instead of calling a callback.
- ChashMap.Table.GetRef: returns the value, not a pointer into the node. Aliasing, that is
  later writes through that pointer, is not modelled.
- ChashMap.CopyValue: the integer-width assignments of `mem_assign` are modelled as the
  byte copy they amount to.
- Scenarios.Put: requires the count to stay below the scale-up threshold, and
  Scenarios.Remove requires a capacity below the shrink floor. The tests they serve hold
  two keys, so they never grow or shrink the table; `ChashMap.Table.Insert` and
  `ChashMap.Table.Delete` state the general case.
- The other tests of `test/tests.c` (values of different sizes, references, visits,
  scaling) are not restated as client methods. The operations they exercise are stated by the
  contracts of `Table` and, for scaling, by `Sizing.InsertRun`, `Sizing.DeleteRun` and
  `Sizing.ScalingRoundTrip`.
- `scale_chmap` sets every old bucket to NULL before freeing the old array. The model
  drops the old array without clearing it.

## Findings

| source | as written | input that shows it | evidently intended | confidence | as-written member | corrected member |
|---|---|---|---|---|---|---|
| src/chashmap.c:292 | `bucket_arr_size * 6 / 4` is computed in `uint32_t` (`Sizing.ScaleUpLimitAsWritten`), so `cap * 6` wraps for capacities of 2^30 and more | `chmap_create(1 << 30)`: capacity 2^30, scale-up threshold 2^29 instead of 3 * 2^29, so the table grows at half its capacity | a threshold of one and a half times the capacity (`Sizing.ScaleUpLimit`, which `ChashMap.Table.SetScalingLimits` computes) | not executed | Sizing.ScaleUpLimitOverflows | Sizing.ScaleUpLimitExact |
