# C Abstract Data Type Library: a Dafny model

This project models the abstract data types of `library.c` and `library.h`.

The main part is the hash table (`HashADT`, `struct hashtab_s`). It uses open addressing with linear probing:

- It starts with 16 buckets.
- A put first checks the load factor. At 0.75 or above the table doubles its bucket array and re-inserts every pair.
- The probe then either replaces the value of a present key or fills the first empty bucket of the key's probe.
- Keys, values, the collision count of a dump and the delete calls of a destroy are all read from the buckets in bucket order.

The model is a class `HashTable.Table` with the fields of the C struct:

- `capacity`, `size`, `rehashes`;
- the bucket array `table`, an `array<Bucket<K, V>>`;
- the caller's `hash` function.

Its abstract value is a ghost map `contents` from keys to values. A ghost map `slotOf` records the bucket of each key.

The class invariant `Valid()` (via `HashTable.TableInvariant`) states:

- `capacity == 16 * 2^rehashes`;
- `4 * size <= 3 * capacity`, so an empty bucket always exists and every probe loop terminates;
- `size` is the number of occupied buckets and the number of keys;
- no key occupies two buckets;
- every chain is closed: each occupied bucket is reachable from its key's home bucket `hash(key) % capacity` without crossing an empty bucket (`Buckets.ProbeInvariant`).

Every operation keeps this invariant and states its effect on `contents`.

The same file has three more data types. Each is modelled as a class whose methods update its fields:

- The dynamic array (`struct Array`) keeps its buffer as an `array<T>`.
- The singly linked list (`struct LinkedList`) is modelled by the sequence of its nodes' data, head first.
- The bounded queue (`struct Queue`) is modelled the same way.

Modules:

- `Wrappers`: `Option`, standing for a pointer result that may be NULL.
- `Buckets`: the bucket sequence, the probe invariant and the lemmas about them.
- `HashTable`: the table class and the resize loop.
- `DynamicArray`, `LinkedList`, `Queue`.

Where the code and its description disagree, the model follows the code:

- **Load after a put.** A put checks the load before inserting. After the 12th insert into 16 buckets the load is exactly 0.75, and the table grows only on the next put. The invariant is therefore `4*size <= 3*capacity`, not a strict bound.
- **`rehashes` at creation.** `ht_create` does not set `rehashes` (library.c:157-167). The model starts it at 0, as described for the table.
- **Dynamic-array insertion.** `insertArrayElement` does not place the element at `index`, whatever its comment says (see Findings).

## Model

| member | source | states |
|---|---|---|
| Buckets.Home | library.c:236 | the home bucket `hash(key) % capacity` is a bucket index |
| Buckets.StepForward | library.c:241 | stepping `(index + 1) % capacity` moves one bucket further along the probe, wrapping at the end |
| Buckets.EmptyBucketExists | library.c:117-119 | fewer pairs than buckets leaves an empty bucket, so the probe loops stop |
| Buckets.EntriesOfEmptyTable | library.c:159 | a table of empty buckets holds no pairs |
| Buckets.EntriesCountUpdate | library.c:281-283 | overwriting one bucket changes the number of pairs by exactly that bucket's change, so `size++` on filling an empty bucket keeps the count |
| Buckets.EntriesMember | library.c:303-308 | a pair is listed in bucket order exactly when some bucket holds it |
| Buckets.EntriesAreContents | library.c:303-308 | the pairs read from the buckets are exactly the pairs of the table's map |
| Buckets.EntriesKeysDistinct | library.c:297 | the number of occupied buckets equals the number of keys, so `size` slots suffice for the keys |
| Buckets.EntriesKeysUnique | library.c:303-308 | no key is read from two buckets |
| Buckets.AbsentWhenProbeHitsEmpty | library.c:237-243 | a probe that passed only other keys and reached an empty bucket proves the key absent |
| Buckets.InsertKeepsProbeInvariant | library.c:116-121 | writing a new key into the first empty bucket of its probe keeps every chain closed |
| Buckets.ReplaceKeepsProbeInvariant | library.c:267-271 | replacing a value in place keeps every chain closed |
| Buckets.RepresentsInsert | library.c:281-282 | filling an empty bucket with an absent key adds that key to the map and to no other bucket |
| Buckets.RepresentsReplace | library.c:267-271 | replacing the value of a present key changes only that key's value and keeps the key |
| Buckets.PlaceFresh | library.c:274-283 | filling the empty bucket that ended the probe keeps the probe invariant, adds the pair to the map and adds one to the count |
| Buckets.ReplaceKeepsLayout | library.c:267-271 | giving an occupied bucket a new value leaves the keys listed in bucket order and the collision count unchanged |
| Buckets.CollisionsAtMostEntries | library.c:203-214 | the collision count never exceeds the number of pairs |
| Buckets.NoCollisionsIffAllHome | library.c:203-214 | the collision count is 0 exactly when every pair sits in its home bucket |
| Buckets.KeysAndValuesOfContents | library.c:292-338 | the keys and values read in bucket order: there are as many as the map has pairs, each key of the map appears once, and position i of the values is the value of key i |
| HashTable.Table.constructor | library.c:148-169 | a new table has 16 buckets, all empty, size 0, no rehash and an empty map |
| HashTable.Table.Resize | library.c:104-128 | capacity doubles and `rehashes` grows by one; size and the map are unchanged and the invariant holds for the new buckets |
| HashTable.Rehash | library.c:113-123 | re-inserting every pair of the old buckets, in bucket order, gives new buckets holding the same map, with closed chains and the same count |
| HashTable.Relocate | library.c:116-121 | a pair whose key is absent lands in the first empty bucket of its probe, which was empty, and only that bucket changes |
| HashTable.Table.Install | library.c:125-127 | the table then uses the new bucket array and capacity, with size and map unchanged |
| HashTable.Table.Probe | library.c:237-242 | the probe of ht_get and ht_put stops at the key's bucket when the key is present; otherwise it stops at an empty bucket with every earlier bucket of the probe occupied |
| HashTable.Table.Get | library.c:235-244 | the value stored for the key, or None (NULL) when the key is absent; nothing changes |
| HashTable.Table.Has | library.c:249-251 | true exactly when the key is in the table |
| HashTable.Table.Put | library.c:256-287 | if the load before the call is at or above 0.75 the table first resizes (capacity doubles, `rehashes` grows by one); the result is the key's old value or None for a new key; the map becomes the old map with the key set to the value; size grows by one exactly for a new key; the invariant is kept; the key ends in the returned bucket, and without a resize that bucket is the only one that changes: for a present key it is the key's old bucket and the keys in bucket order and the collision count are unchanged, for a new key it was empty |
| HashTable.Table.ReplaceValue | library.c:267-272 | the bucket keeps its key and gets the new value; only that bucket changes, size stays, and the keys in bucket order and the collision count are unchanged |
| HashTable.Table.InsertPair | library.c:274-286 | the pair fills the empty bucket, size grows by one, only that bucket changes, and the load stays at or below 0.75 |
| HashTable.Table.Keys | library.c:292-312 | a new array of `size` keys in bucket order in which every key of the table appears exactly once and no other key appears |
| HashTable.Table.Values | library.c:318-338 | a new array of `size` values in bucket order; position i holds the value of the i-th key |
| HashTable.Table.Destroy | library.c:174-190 | one `delete(key, value)` call per pair, in bucket order, when the callback is supplied, and none otherwise |
| HashTable.Table.Dump | library.c:195-215 | size and capacity; with contents, also the collision count (at most size) and the rehash count |
| HashTable.FillPastThreshold | library.c:261-263 | 13 new keys put into a new table: capacity 32, one rehash, size 13, and exactly those 13 keys present (the helper lemma `FullKeyRange` turns "13 keys, all below 13" into "every key below 13") |
| HashTable.PutThenGet | library.c:265-272 | after a put, ht_get returns the new value, ht_has is true, and another key's value is unchanged |
| DynamicArray.Array.constructor | library.c:25-29 | an empty array with the requested capacity |
| DynamicArray.Array.InsertArrayElement | library.c:34-58 | the code as written: an index past the size is refused and nothing changes; a full buffer first doubles its capacity; size grows by one and the elements become `InsertAsWritten(old, element, index)` |
| DynamicArray.Array.InsertArrayElementAt | library.c:34-58 | the corrected insertion: the same checks and growth, and the elements become `InsertAt(old, element, index)` |
| DynamicArray.Array.Reallocate | library.c:41-49 | the buffer grows to the new capacity and keeps the elements (realloc) |
| DynamicArray.Array.ShiftRight | library.c:52-54 | slots index+1..size take the elements of the slots before them; the other slots are unchanged |
| DynamicArray.Array.GetArrayElement | library.c:63-67 | the element at an index below the size |
| DynamicArray.Array.FreeArray | library.c:72-76 | size and capacity become 0 and no elements remain |
| DynamicArray.InsertAsWrittenEffect | library.c:52-57 | below the end, slots 0..index keep their elements, later slots take their left neighbour's element, the element lands last, and the old last element is lost while `old[index]` appears twice |
| DynamicArray.InsertAsWrittenPointwise | library.c:52-56 | the slots left by the shift loop and the store at the old size form exactly the sequence `InsertAsWritten(old, element, index)` |
| DynamicArray.InsertAsWrittenCounterexample | library.c:52-56 | inserting 9 at index 0 of [1, 2] yields [1, 1, 9] instead of [9, 1, 2] |
| DynamicArray.InsertAsWrittenAtEnd | library.c:52-56 | at index == size the code as written and the intended insertion both append |
| DynamicArray.InsertAtProperties | library.c:31-34 | the intended insertion puts the element at index and shifts the rest right, adds exactly that element to the multiset, and removing index gives back the old elements |
| LinkedList.List.constructor | library.c:347-350 | an empty list of size 0 |
| LinkedList.List.Insert | library.c:355-365 | the new data becomes the head and size grows by one |
| LinkedList.List.IsEmpty | library.c:370-372 | true exactly when the list has no nodes |
| LinkedList.List.GetSize | library.c:420-422 | the number of nodes |
| LinkedList.List.RemoveFirst | library.c:377-386 | the head is dropped; an empty list is left unchanged |
| LinkedList.List.Remove | library.c:391-415 | the first node holding the data is removed and size drops by one; without such a node the list is unchanged |
| LinkedList.List.Free | library.c:427-432 | the list ends empty with size 0 |
| LinkedList.RemoveAbsent | library.c:412-414 | removing data that no node holds changes nothing |
| LinkedList.RemoveAtFirstOccurrence | library.c:398-410 | removal keeps the nodes before and after the first match, in order |
| LinkedList.RemovePresent | library.c:404-411 | removing present data takes out exactly one occurrence and shortens the list by one |
| Queue.Queue.constructor | library.c:441-449 | the empty queue with the given capacity that initQueue is meant to build |
| Queue.Queue.IsEmpty | library.c:454-456 | true exactly when the queue has no nodes |
| Queue.Queue.IsQueueFull | library.c:461-463 | the corrected test: true exactly when the queue holds `capacity` nodes, that is, when enqueue would refuse |
| Queue.Queue.GetSize | library.c:506-508 | the number of nodes |
| Queue.Queue.Enqueue | library.c:488-504 | refused when size has reached capacity; otherwise the data becomes the new tail |
| Queue.Queue.Dequeue | library.c:468-486 | on a non-empty queue, the head's data is returned and the head is removed |
| Queue.FirstInFirstOut | library.c:468-504 | two values enqueued into an empty queue come out in the order they went in |
| Queue.FullAsWrittenMissesFullQueue | library.c:461-463 | for any queue holding at most its capacity, isQueueFull as written is false, including a queue at capacity that enqueue refuses |
| Queue.FullAsWrittenCounterexample | library.c:461-463 | a queue of capacity 1 holding one node is reported not full |

## Findings

| source | as written | input that shows it | evidently intended | confidence | as-written member | corrected member |
|---|---|---|---|---|---|---|
| library.c:52-56 | after the shift loop the element is stored at `arr->array[arr->size]`, the old end, instead of at `index` | inserting 9 at index 0 of [1, 2] gives [1, 1, 9] | store the element at `index`, giving [9, 1, 2]. The comment at library.c:32 says the function adds an element "at any index". The comment at library.c:56 ("add element to end of array") agrees with the code, but the shift loop at library.c:52-54 only makes room at `index` if the element is then stored there; as written it duplicates `old[index]` and drops the old last element | high, not executed | DynamicArray.InsertAsWrittenCounterexample | DynamicArray.Array.InsertArrayElementAt |
| library.c:461-463 | isQueueFull tests `size > capacity`, which never holds since enqueue refuses at `size >= capacity` | a queue of capacity 1 holding one node: isQueueFull is false, yet enqueue refuses | `size >= capacity`, the test enqueue applies at library.c:490. The comment at library.c:459 describes `>`, as coded, but on any queue enqueue builds `size <= capacity` holds, so the test as written can never be true and the function would be useless; its name asks whether the queue is full | medium, not executed | Queue.FullAsWrittenCounterexample | Queue.Queue.IsQueueFull |

## Left out

- **Floating point.** `loadFactor` (library.c:97-99) divides two `size_t` values as `double` and compares with 0.75. The model uses `4*size >= 3*capacity`, which is exact because the capacity is always 16·2^k.
- **Output.** Printing and error messages are not modelled: every `printf`/`fprintf`, the bucket listing of ht_dump (library.c:216-228) and the caller's `print` callback. `HashTable.Table.Dump` returns the numbers that ht_dump prints first.
- **Allocation and exits.** The source calls `exit` when malloc, calloc or realloc fails; the model assumes allocation succeeds. Freeing memory (`free`) has no counterpart. `createPair` (library.c:133-142) is folded into `HashTable.Table.InsertPair`.
- **Fatal argument checks.** ht_put's NULL table or key checks, the NULL table checks of ht_destroy, ht_dump and ht_values, and enqueue's capacity check all exit the process. In the model, a non-null table and key are given. Enqueue and insertArrayElement report the refusal as a `false` result instead of exiting.
- **Callbacks.**
  - `equals` is Dafny equality on keys.
  - `hash` is a total function given to the constructor.
  - The `delete` callback is represented by the sequence of pairs it would receive (`HashTable.Table.Destroy`); whether one was supplied is a constructor flag.
- **NULL values.** A value stored as NULL cannot be told apart from a missing key in the C results of ht_get, ht_has and ht_put. Values here are never NULL, and `Option` marks absence.
- **ht_keys on a NULL table.** ht_keys (library.c:293-295) prints an error for a NULL table but goes on. This is not modelled.
- **ht_dump's NULL checks.** ht_dump skips occupied buckets with a NULL pair when counting collisions (library.c:208), and with a NULL pair, key or value when printing (library.c:220). Pairs are never NULL here.
- **HashTable.Table.Probe.** One probe loop serves both `HashTable.Table.Get` and `HashTable.Table.Put`. In the source, ht_get (library.c:237-243) and ht_put (library.c:266-273) each carry their own copy of this loop. ht_get returns from inside its loop; here the loop stops at the matching bucket and the value is read after it.
- **The second loop of ht_put.** The while loop at library.c:277-279 never runs, because the probe already stopped at an empty bucket. It is not modelled.
- **Unbounded integers.** `size_t` overflow of `capacity * 2` and of the counters is not modelled.
- **HashTable.Table.Keys and HashTable.Table.Values.** They return fresh Dafny arrays; the caller's duty to free the buffer is not modelled.
- **newNode.** newNode (library.c:12-16) has no `return` statement, so enqueue (library.c:495) uses an undefined pointer. The model's Enqueue appends the data as intended.
- **getArrayElement past the size.** getArrayElement (library.c:63-67) returns nothing for `index >= size`, so `DynamicArray.Array.GetArrayElement` requires `index < size`.
- **initArray with capacity 0.** With capacity 0 the array never grows, because `0 * 2 == 0`, and the write at library.c:56 is out of bounds. `DynamicArray.Array.InsertArrayElement` therefore requires a positive capacity.
- **DynamicArray.Array.Reallocate.** The copy done by `realloc` is written as a loop. Whether the buffer moves in memory is not modelled.
- **Linked-list pointers.**
  - The list and queue are sequences of node data, so node identity, aliasing and the `next` links are not modelled.
  - removeLinkedListNode compares data pointers; the model compares data values.
- **Broken queue lifecycle.**
  - initQueue (library.c:441-449) assigns its allocation to its own parameter, so the caller's queue is never set up and `size` is never set. `Queue.Queue.constructor` builds the state initQueue is meant to build.
  - dequeue on an empty queue prints a message and then dereferences NULL (library.c:470-475), so `Queue.Queue.Dequeue` requires a non-empty queue.
  - freeQueue (library.c:510-517) loops on a `size` it never decreases and frees the caller's data. It is not modelled.
