# CS50 hashtable and set, modelled in Dafny

This project models two small in-memory containers from a CS50 lab. Both map
string keys to opaque item pointers.

- **hashtable** (`hashtable.dfy`, module `Hashtable`): `hashtable_t` holds
  `numSlots` and an array of slots. Each slot (`hashtableNode_t`) holds a key
  and an item, either of which may be NULL. The model is the class `Table`.
  Its slots are an `array<Slot<Item>>` that `Insert` writes in place. Its
  invariant `WellFormed` says two things: a slot's key and item are NULL
  together, and an occupied slot `i` holds a key whose hash is `i`.
- **set** (`set.dfy`, module `Set`): `set_t` is a `head` pointer into a singly
  linked chain of `setNode_t` nodes. The model is the classes `Set` and `Node`.
  A node's fields are written only when the node is created, so they are
  `const`. Each node carries the ghost sequence of entries from itself to the
  tail. The set's ghost `Contents` is that sequence read from `head`, and its
  invariant says the keys in it are pairwise distinct.

The C functions take pointers that may be NULL. Each one is a module-level
method here. A table or set handle that may be NULL is `Table?` or `Set?`, and
a NULL key or item is `None` (module `Options`). A callback that may be NULL
(`itemfunc`, `itemdelete`) is a `bool` saying whether one was given. The
method returns the arguments the callback would receive, in call order.

The hash function `hash_jenkins` is not part of this model. It is the type
`HashFn`: any function of a key and a modulus `n > 0` whose result lies in
`[0, n)`. A table keeps the hash it was created with, and the proofs use
nothing else about it.

## Behaviour as written

The hashtable is modelled as the code behaves, not as its doc comments or a
chained design describe it:

- There is no chaining. `hashtable_insert` refuses any key whose slot is
  already taken, even by a different key (hashtable/hashtable.c:83).
  `CollisionBehaviour` states this.
- `hashtable_find` never compares keys. For an absent key that collides with
  a stored one, it returns the stored key's item, although the comment at
  hashtable/hashtable.c:98 promises NULL (hashtable/hashtable.c:106).
  `CollisionBehaviour` states this as well.
- `hashtable_iterate` visits slots in increasing index order, although the
  comment says the order is undefined. `EntriesInSlotOrder` proves that order.
- `hashtable_delete` calls the disposer once per slot, empty ones included,
  passing NULL for an empty slot (hashtable/hashtable.c:184-188).
  `Hashtable.Delete` and `DisposedItemsAreStoredItems` state this.
- `set_delete` does nothing at all, and releases nothing, when `itemdelete`
  is NULL (set/set.c:182). `hashtable_delete` still releases the table in
  that case. The `released` result of the two `Delete` methods shows this.

## Model

| member | source | states |
|---|---|---|
| `Hashtable.Table.constructor` | hashtable/hashtable.c:53-62 | the table has the requested slot count and hash, and every slot is (NULL, NULL); the loop that clears the slots is what establishes this |
| `Hashtable.New` | hashtable/hashtable.c:49-63 | the result is NULL exactly when `num_slots <= 0`; otherwise it is a fresh, well-formed table with `num_slots` slots, all empty |
| `Hashtable.Insert` | hashtable/hashtable.c:80-89 | succeeds iff the table, key and item are non-NULL and the hashed slot is empty; on success only that slot changes and it holds (key, item); on failure nothing changes; the table invariant is kept |
| `Hashtable.Find` | hashtable/hashtable.c:102-107 | NULL for a NULL table or key; otherwise the item in slot `hash(key, numSlots)`, whatever key is stored there; the table is only read |
| `Hashtable.Iterate` | hashtable/hashtable.c:159-166 | no calls for a NULL table or NULL `itemfunc`; otherwise one call per occupied slot, in slot order, with that slot's key and item |
| `Hashtable.Delete` | hashtable/hashtable.c:182-191 | a NULL table is left alone; otherwise the table is released, and with a disposer it is called once per slot, in slot order, with the slot's item (NULL for an empty slot) |
| `Hashtable.EmptyTableFindsNothing` | hashtable/hashtable.c:59-62 | an all-empty table is well formed, finds nothing for any key, and accepts any first key |
| `Hashtable.InsertKeepsWellFormed` | hashtable/hashtable.c:82-88 | an insert keeps the slot count and the invariant (each stored key sits in its hashed slot), and leaves every slot but the hashed one unchanged |
| `Hashtable.InsertThenFind` | hashtable/hashtable.c:82-106 | after an accepted insert of (key, item), find returns item; a second insert of the same key with any item is refused and changes nothing |
| `Hashtable.DuplicateRejected` | hashtable/hashtable.c:82-83 | a key already stored is refused, the table is unchanged, and find still returns the first item |
| `Hashtable.CollisionBehaviour` | hashtable/hashtable.c:82-106 | a different key hashing to an occupied slot is refused, and find on it returns the stored key's non-NULL item |
| `Hashtable.LookupNoneIffSlotEmpty` | hashtable/hashtable.c:104-106 | find returns NULL exactly when the key's hashed slot is empty, i.e. exactly when an insert of that key would be accepted |
| `Hashtable.FoundStaysFound` | hashtable/hashtable.c:83-87 | nothing overwrites an occupied slot: an item that find returns is still returned after any later sequence of inserts, and the invariant holds throughout |
| `Hashtable.EntriesComplete` | hashtable/hashtable.c:162-165 | a (key, item) pair is among the iterated pairs iff some slot holds exactly that key and item |
| `Hashtable.EntriesInSlotOrder` | hashtable/hashtable.c:162-165 | when each stored key sits in its hashed slot, the iterated keys' hashes strictly increase, so no key is visited twice |
| `Hashtable.IterateVisitsEachStoredPairOnce` | hashtable/hashtable.c:161-165 | for a well-formed table, iteration visits exactly the stored pairs, each once, in increasing slot order |
| `Hashtable.DisposedItemsAreStoredItems` | hashtable/hashtable.c:184-188 | dropping the NULL disposer calls made for empty slots leaves exactly the stored items, in the order iteration visits them |
| `Set.Set.constructor` | set/set.c:47-52 | a new set has `head == NULL` and no entries |
| `Set.Node.constructor` | set/set.c:80-85 | a new node holds (key, item) and links to the old head, so its chain is the pair followed by the old chain |
| `Set.FindNode` | set/set.c:54-58 | NULL iff the node or key is NULL or no node from here on has the key; otherwise the first node from here whose key matches, a suffix of the chain with no match before it |
| `Set.Lookup` | set/set.c:54-58 | the search over the chain's entries: absent iff the key is NULL or in no entry; when present, (key, item) is an entry of the chain |
| `Set.Insert` | set/set.c:76-88 | succeeds iff the set, key and item are non-NULL and the key is absent; on success a fresh node holding (key, item) becomes the head and the old chain follows unchanged; on failure nothing changes; keys stay pairwise distinct |
| `Set.Find` | set/set.c:102-107 | NULL for a NULL set or key or an absent key; otherwise the item found by searching from `head`; the set is only read |
| `Set.Iterate` | set/set.c:159-165 | no calls for a NULL set or NULL `itemfunc`; otherwise one call per node, head to tail, with that node's key and item |
| `Set.Delete` | set/set.c:181-192 | nothing happens and nothing is released for a NULL set or NULL `itemdelete`; otherwise `itemdelete` gets each node's item once, head to tail, and the set is released |
| `Set.ItemsOf` | set/set.c:184-190 | the items handed to the disposer: one per node, the i-th being the i-th node's item |
| `Set.LookupFirstMatch` | set/set.c:55-57 | the search stops at the first entry with the key: if none before position d has it and d does, the search returns d's item |
| `Set.LookupIffMember` | set/set.c:102-107 | with distinct keys, find returns item for key exactly when (key, item) is in the set |
| `Set.InsertKeepsDistinct` | set/set.c:78-86 | an insert keeps the keys distinct, and an accepted one prepends (key, item) |
| `Set.InsertThenFind` | set/set.c:76-107 | after an accepted insert of (key, item), find returns item; a second insert of the key with any item is refused and changes nothing |
| `Set.FoundStaysFound` | set/set.c:78-86 | an item that find returns is still returned after any later sequence of inserts, and keys stay distinct |
| `Set.ChainIsReverseInsertionOrder` | set/set.c:85-86 | inserting pairs with fresh distinct keys leaves the chain, read from head (the order iteration and deletion use), as those pairs in reverse insertion order, followed by the earlier chain |

## Left out

- `hashtable_print` and `set_print`: they only write text to a `FILE*` through a caller callback. Their layout quirks are not modelled: the set's closing `)` where `}` is meant, and the trailing comma.
- `hash_jenkins` is not part of this model. It is a parameter of the table with only a range guarantee, so no property depends on how keys actually spread.
- Allocation through `mem_malloc`, `mem_calloc` and `mem_free`: the allocator never fails in the model. So the NULL returns of `hashtable_new` and `set_new` on allocation failure, and the failed-allocation return of `hashtable_insert`, are not modelled.
- Releasing memory is reduced to the `released` result of the two `Delete` methods. Freeing of key strings and nodes, the leaked buffers in `set_insert` (set/set.c:81-84), and use after release are not modelled.
- Key copying: keys are whole string values. `hashtable_insert` copies only `sizeof(key)` (pointer-sized) bytes, which truncates long keys or leaves them unterminated (hashtable/hashtable.c:84-86). `set_insert` stores the caller's pointer instead of a copy, so later changes to the caller's string would show in the set. Neither defect is modelled.
- The callbacks' own effects and the pass-through `arg` pointer: only the arguments each callback receives are modelled.
- Set.Find: models the evident intent, a search from `set->head`. The source passes `set` itself to `findNode` (set/set.c:104), a pointer of the wrong type whose behaviour is undefined.
- C `int` widths: slot counts and indices are unbounded integers. No overflow can arise in these operations for any table that can be allocated.
- The self-referencing `setNode_t` typedef (set/set.c:24-28) is a compile-level problem with no behaviour to model.
