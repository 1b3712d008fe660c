# LRU cache, modelled and verified in Dafny

`com.itmo.LRUCache<T, R>` is a fixed-capacity least-recently-used cache. It
keeps a hash index from keys to list nodes and an intrusive doubly-linked
recency list that hangs off a permanent sentinel node `head`. The most
recently used entry comes first and the least recently used one is `tail`.

- `get` and `put` of a stored key move its node to the front.
- `put` of a new key links a fresh node at the front. If the list is then
  longer than the capacity, the tail entry is evicted.
- `remove` unlinks a stored key.
- `clear` empties both the index and the list.

The project has three modules:

- `LruSpec` (`lru_spec.dfy`) is the reference model. Its state is the recency
  order of the stored keys (front = most recently used) together with the
  stored values. It defines `get`, `put`, `remove` and eviction as functions
  on that state, plus the invariant `Inv`: every key listed once, the listed
  keys are exactly the stored ones, and there are at most `capacity` of them.
  The lemmas state what each operation promises: touch-to-front,
  relative order kept, at most one eviction and only of the least recently
  used key, NotFound changing nothing, and so on.
- `Cache` (`lru_cache.dfy`) is the cache itself. `LRUCache` is a class with
  the source's fields:
  - `index` for the source's `map` (`map` is a Dafny keyword);
  - `head`, `capacity`, `tail` and `listSize`;
  - heap `Node` objects with `next`, `prev`, `key` and `value`.

  Ghost fields track:
  - the linked nodes in list order (`nodes`);
  - their keys (`order`);
  - the stored values (`contents`);
  - the objects the cache owns (`Repr`).

  `ListValid` states that the list is well formed: linked forward through
  `next` and backward through `prev`, `tail` last, and `listSize` its
  length. `Consistent` adds that the index and the list agree (index size ==
  `listSize`, the check the source repeats after each mutation). `Valid` adds
  the capacity bound. Every public method keeps `Valid` and is proved to act
  on `(order, contents)` exactly as the matching `LruSpec` function says.
- `Scenarios` (`scenarios.dfy`) replays the unit tests. The short tests drive
  the class; the test with 150 insertions is a lemma on the reference model.

Exceptions become results:
- `NoSuchElementException` becomes `Err(NotFound)`.
- `IllegalArgumentException` from the constructor becomes
  `Err(InvalidArgument)` from `Create`.
- The `null` that `put` returns for a new key becomes `None`.

The source's in-line JUnit assertions (`assertEquals(map.size(), listSize)`
and the link checks in `addFirst` and `Node.remove`) become postconditions
and class invariants. They are proved, not executed.

## Model

| member | source | states |
|---|---|---|
| LruSpec.Touch | src/com/itmo/LRUCache.java:156-157 | getNode's remove-then-addFirst on the key order: the result starts with the key and lists it nowhere else |
| LruSpec.Get | src/com/itmo/LRUCache.java:28-34 | get on the reference state: Ok with the stored value iff the key is stored, the contents unchanged; otherwise NotFound with the state unchanged |
| LruSpec.Put | src/com/itmo/LRUCache.java:36-50 | put on the reference state, recording a new key before the capacity check: Some(old value) iff the key was stored, with the contents then updated at that key; no key other than the put one is ever added |
| LruSpec.Evict | src/com/itmo/LRUCache.java:163-169 | removeIfNeeded on the reference state: nothing changes within capacity; one over capacity comes back within it; the order stays a prefix of the old one and no key is added |
| LruSpec.Remove | src/com/itmo/LRUCache.java:52-61 | remove on the reference state: Ok with the stored value iff the key is stored; the contents are then the old ones minus that key, every other entry keeping its value; otherwise NotFound with the state unchanged |
| LruSpec.PutNewAsWritten | src/com/itmo/LRUCache.java:43-47 | put of a new key in the source's step order (link, evict, then index), giving the index's keys and the list: the new key is always indexed, the list gains it below capacity and keeps its length at or over capacity |
| Cache.Node.Sentinel | src/com/itmo/LRUCache.java:75 | the sentinel node starts with no neighbours |
| Cache.Node.constructor | src/com/itmo/LRUCache.java:77-80 | a node holds the given key and value and starts with no neighbours |
| LruSpec.GetSpec | src/com/itmo/LRUCache.java:28-34 | get keeps the invariant; it succeeds iff the key is stored, and then returns the stored value and moves the key from its position p to the front with the other keys in their old relative order; a missing key gives NotFound and the same state |
| LruSpec.TouchSpec | src/com/itmo/LRUCache.java:153-161 | moving a stored key to the front keeps the invariant and the length, and removes the key only from its old position |
| LruSpec.GetTwice | src/com/itmo/LRUCache.java:28-34 | two gets of the same key in a row give the same result and state as one |
| LruSpec.PutExisting | src/com/itmo/LRUCache.java:36-41 | put of a stored key returns the old value, stores the new one, moves the key to the front keeping the others' order, and evicts nothing (same length) |
| LruSpec.PutNew | src/com/itmo/LRUCache.java:42-49 | put of a new key returns None and keeps the invariant; below capacity the key is added at the front and nothing else changes; at capacity exactly the last (least recently used) key is evicted and the rest shift back by one; with capacity 0 the state is unchanged |
| LruSpec.EvictAtCapacity | src/com/itmo/LRUCache.java:163-169 | at capacity, inserting a new key evicts exactly the old tail key, which is not the new key, and keeps the invariant |
| LruSpec.GetProtectsFromEviction | src/com/itmo/LRUCache.java:28-49 | with capacity at least 2, a key just read survives the next insertion of a new key with its value |
| LruSpec.PutProtectsFromEviction | src/com/itmo/LRUCache.java:36-49 | with capacity at least 2, a key just overwritten survives the next insertion of a new key with its new value |
| LruSpec.TouchedSurvives | src/com/itmo/LRUCache.java:163-169 | the front key is never the one an insertion evicts when capacity is at least 2 |
| LruSpec.PutTwice | src/com/itmo/LRUCache.java:36-41 | putting the same pair twice (capacity at least 1): the second put returns the value just stored and changes nothing |
| LruSpec.PutFront | src/com/itmo/LRUCache.java:36-49 | after any put (capacity at least 1) the key is at the front holding the new value, and the invariant holds |
| LruSpec.RemoveSpec | src/com/itmo/LRUCache.java:52-61 | remove keeps the invariant; it succeeds iff the key is stored, returns its value, leaves the contents as the old ones minus that key (every other entry keeps its value), drops it from the order and keeps the other keys' relative order; a missing key gives NotFound and the same state |
| LruSpec.SizeAgrees | src/com/itmo/LRUCache.java:135-138 | under the invariant the number of stored values equals the list length |
| LruSpec.PutAllDistinct | src/com/itmo/LRUCache.java:36-50 | inserting distinct keys into an empty cache leaves exactly the last `capacity` of them, newest first, with their values; every older key is gone |
| LruSpec.WithoutAt | src/com/itmo/LRUCache.java:111-132 | taking a listed key out of a list of distinct keys removes exactly its one position |
| LruSpec.DistinctSplice | src/com/itmo/LRUCache.java:111-132 | cutting one position out of a list of distinct elements keeps it distinct and adds nothing |
| LruSpec.PutNewAsWrittenCapacityZero | src/com/itmo/LRUCache.java:43-47 | with the source's step order and capacity 0, the index ends up holding the new key while the list is empty |
| LruSpec.PutNewAsWrittenAgrees | src/com/itmo/LRUCache.java:43-47 | for capacity at least 1 the source's step order and the corrected put give the same index keys and list |
| LruSpec.PutCapacityZero | src/com/itmo/LRUCache.java:43-47 | with the index recorded before eviction, capacity 0 retains nothing: put returns None and the empty cache stays empty |
| Cache.LRUCache.ValidInv | src/com/itmo/LRUCache.java:135-138 | the class invariant implies the reference invariant on (order, contents) |
| Cache.PositionOf | src/com/itmo/LRUCache.java:153-156 | when the index is as large as the list and agrees with it, every indexed key has a position in the list |
| Cache.LRUCache.constructor | src/com/itmo/LRUCache.java:21-26 | a cache of the given capacity starts valid and empty, with an empty list and no tail |
| Cache.LRUCache.Default | src/com/itmo/LRUCache.java:16-19 | the no-argument cache is empty with capacity 16 |
| Cache.LRUCache.Create | src/com/itmo/LRUCache.java:21-26 | a negative capacity gives InvalidArgument; any other gives a valid empty cache of that capacity |
| Cache.LRUCache.AddFirst | src/com/itmo/LRUCache.java:82-96 | the node becomes the first of the well-formed list, right after the sentinel, with listSize one larger; nothing else changes |
| Cache.LRUCache.RemoveNode | src/com/itmo/LRUCache.java:111-132 | the node at position p leaves the well-formed list and listSize drops by one; for a non-tail node its old neighbours end up linked to each other |
| Cache.LRUCache.UnlinkTail | src/com/itmo/LRUCache.java:112-120 | the tail is unlinked; its predecessor, or nothing when it was the only node, becomes the tail |
| Cache.LRUCache.UnlinkInner | src/com/itmo/LRUCache.java:122-131 | an inner node is unlinked; its neighbours point at each other and no longer at it |
| Cache.LRUCache.GetNode | src/com/itmo/LRUCache.java:153-161 | a stored key's node is returned and its key touched to the front; a missing key gives null and changes nothing |
| Cache.LRUCache.Unlink | src/com/itmo/LRUCache.java:165-166 | an entry leaves both the index and the list; the two stay consistent |
| Cache.LRUCache.RemoveIfNeeded | src/com/itmo/LRUCache.java:163-169 | the state becomes Evict of the old state, and afterwards listSize <= capacity |
| Cache.LRUCache.ClearNodeList | src/com/itmo/LRUCache.java:171-175 | the sentinel points nowhere, there is no tail, listSize is 0 |
| Cache.LRUCache.SetValue | src/com/itmo/LRUCache.java:39-40 | overwriting a stored node's value changes only that key's stored value |
| Cache.LRUCache.LinkNew | src/com/itmo/LRUCache.java:43-46 | a fresh node for a new key is linked at the front and indexed |
| Cache.LRUCache.Get | src/com/itmo/LRUCache.java:28-34 | result and new state are those of LruSpec.Get, and the object invariant is kept |
| Cache.LRUCache.Put | src/com/itmo/LRUCache.java:36-50 | result and new state are those of LruSpec.Put; the object invariant, including index size == listSize, is kept |
| Cache.LRUCache.Remove | src/com/itmo/LRUCache.java:52-61 | result and new state are those of LruSpec.Remove; the object invariant, including index size == listSize, is kept |
| Cache.LRUCache.Clear | src/com/itmo/LRUCache.java:63-67 | the cache becomes empty and valid, with index size == listSize == 0 |
| Cache.LRUCache.Size | src/com/itmo/LRUCache.java:135-138 | the result is the number of stored entries, which is also the list length and listSize |
| Cache.LRUCache.IsEmpty | src/com/itmo/LRUCache.java:140-143 | true iff nothing is stored, which is iff the list is empty |
| Cache.LRUCache.ContainsKey | src/com/itmo/LRUCache.java:145-147 | true iff the key is stored, which is iff it is listed |
| Scenarios.EmptyGet | test/LRUTest.java:9-18 | get on a fresh cache fails with NotFound |
| Scenarios.OneAdd | test/LRUTest.java:20-25 | a stored value reads back |
| Scenarios.OneToForget | test/LRUTest.java:27-38 | with capacity 1 the second key evicts the first |
| Scenarios.ManyAddGet | test/LRUTest.java:40-50 | after reading key 1, inserting key 3 evicts key 2 and not key 1 |
| Scenarios.NegativeCapacity | test/LRUTest.java:52-59 | capacity -2 is refused |
| Scenarios.RemoveMissing | test/LRUTest.java:61-70 | remove on a fresh cache fails with NotFound |
| Scenarios.ClearThenGet | test/LRUTest.java:72-83 | after clear a stored key can no longer be read |
| Scenarios.UpdateNode | test/LRUTest.java:85-96 | an overwritten key is protected from the next eviction and reads back its new value |
| Scenarios.RemovedValue | test/LRUTest.java:98-103 | remove returns the removed value |
| Scenarios.PreviousValue | test/LRUTest.java:105-110 | put of a stored key returns the value it replaces |
| Scenarios.ManyInserts | test/LRUTest.java:113-136 | after putting keys 0..149 into a cache of capacity 100, keys 50..149 read back their values and keys 0..49 can be neither read nor removed |

## Left out

- `containsValue` (LRUCache.java:149-151) is not modelled. It passes its
  argument to `HashMap.containsValue`, whose values are internal `Node`
  objects. So it compares a caller's value with a node, which a caller can
  never hold.
- `Node.addLast` (LRUCache.java:98-109) is not modelled. Nothing calls it.
  On a non-empty list it links the node after the tail but never makes it
  the new `tail`.
- Java's `null` is not modelled: keys and values are never null.
  - `put` reports a new key as `None`, so a stored null value and "key was
    new" cannot be confused as they can in the source.
  - A null key, which `HashMap` accepts, has no counterpart.
- The sentinel node's key and value are the types' default values (`K(0)`,
  `V(0)`), where Java leaves them null.
- `HashMap` internals (hashing, resizing, `Object.equals`) are not modelled.
  The index is a Dafny `map`, and keys are compared with Dafny equality.
- The JUnit assertions are proved as postconditions and invariants, not
  executed. So the `AssertionError` the source raises on a failed check
  has no counterpart, except in the capacity-0 case under "Findings".
- Thread safety, and the `Object`-typed parameters of `get`, `remove` and
  `containsKey`, are not modelled (the model takes a key of type `K`).
- Removed and evicted nodes stay in `Repr`, the ghost set of objects the
  cache owns, because nothing else holds them; `clear` resets `Repr` to
  `{this, head}`. The source relies on garbage collection instead.
- Integer width is not modelled. The source's `capacity` and `listSize` are
  Java `int`s; the model uses unbounded `nat`. With capacity
  `Integer.MAX_VALUE`, `listSize++` in `addFirst` could wrap around in the
  source, which the model does not capture.
- Removing an entry takes its key out of the index before unlinking its
  node, for both `remove` and `removeIfNeeded`. The source's `remove`
  unlinks first. The two steps touch disjoint state, so the order does not
  change the result.
- The two branches of `Node.remove` are separate methods (`UnlinkTail`,
  `UnlinkInner`), and `RemoveNode` dispatches on `node == tail` as the
  source does. The two halves of `put` are the helpers `SetValue` (existing
  key) and `LinkNew` (new key).
- Key and value types must have a default value, for the sentinel node.

## Findings

| source | as written | input that shows it | evidently intended | confidence | as-written member | corrected member |
|---|---|---|---|---|---|---|
| src/com/itmo/LRUCache.java:43-47 | `put` of a new key links the node, runs `removeIfNeeded` and only then records the key in the index. With capacity 0 the new node is itself the evicted tail (`map.remove` of a key not yet present), and the key is then indexed to an unlinked node. The index has 1 entry, the list has 0, and `assertEquals(map.size(), listSize)` fails. | `new LRUCache<>(0).put(1, 1)` | a capacity-0 cache retains nothing: `put` returns null and the cache stays empty and consistent | not executed | LruSpec.PutNewAsWrittenCapacityZero | LruSpec.PutCapacityZero |

The corrected order records the index entry before the capacity check. The
model uses it in `LruSpec.Put` and `Cache.LRUCache.Put`, where
`RemoveIfNeeded` then evicts the new key together with its index entry.
`LruSpec.PutNewAsWrittenAgrees` proves that from capacity 1 upwards the
source's order and the corrected order give the same index and list. So the
correction changes nothing but the capacity-0 case.
