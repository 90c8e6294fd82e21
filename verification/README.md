# SimpleLRU cache model

A Dafny model of the size-bounded least-recently-used cache of afina's
storage backend (`SimpleLRU`). The cache stores string pairs. It charges
each pair `|key| + |value|` bytes against a fixed capacity (`_max_size`) and
keeps an incrementally updated free-byte counter (`_cur_free`). The entries
sit in a doubly linked recency list from the head (most recently used) to the
tail (least recently used), and an index maps each key to its node.

The model is an immutable value:

- `LruEntries` (`lru_entries.dfy`): entries, their byte sizes, the key set
  the index holds, position lookup and unlinking of one key.
- `SimpleLru` (`simple_lru.dfy`):
  - the cache (`entries`, `free`, `capacity`);
  - the eviction loop (`free_queue_space`), `Put` with its update and
    insert paths, `PutIfAbsent`, `Set`, `Delete` and `Get`;
  - the state invariant `Valid` they all preserve.
- `LruLaws` (`lru_laws.dfy`): properties that relate several calls or spell
  out one path in full. These cover the exact effect of `Put` on the list
  and on the counter, when exact accounting survives, the put/get and
  delete/get round trips, and the recency order.
- `LruScenarios` (`lru_scenarios.dfy`): an eviction run with capacity 10.
  It also holds the witnesses of the accounting and pointer defects of the
  source.

Every operation returns its boolean answer together with the cache after
the call. `Get` also returns what it wrote to its output parameter
(`Option`, in `wrappers.dfy`).

The counter is an unbounded `nat`. `size_t` is taken to be 64 bits, so the
overflow check of `Put` compares against `SIZE_MAX = 2^64 - 1`.

`Valid` is what every call keeps:

- one node per key;
- a capacity representable in `size_t`;
- `free + Bytes(entries) <= capacity`.

It is an inequality because the source never credits the counter when a
value shrinks or an entry is deleted. Exact accounting (`Exact`, the
equality) holds after construction. It survives every insert and every
non-shrinking update (`LruLaws.PutKeepsExact`), but not the two cases above.
The lemmas `LruScenarios.ShrinkingUpdateUndercounts` and
`LruScenarios.DeleteUndercounts` measure the loss exactly.

The model adds a precondition that keeps each call clear of four source
defects. In three of them the source follows pointers into a state no list
can describe. In the fourth the list stays intact but the counter wraps
around. The four states are:

- the evicted head kept after the loop empties the list;
- `_lru_last` left dangling after the tail is deleted;
- a null head dereferenced when the sole entry is deleted;
- a `size_t` underflow of the counter.

The preconditions are `SimpleLru.PutSafe` and `SimpleLru.Deletable`.
Witness lemmas show how close each state is to a fresh cache:

- One `Put` reaches a cache in which a pair as large as the capacity empties
  the list and the sole entry cannot be deleted
  (`LruScenarios.FullEvictionReachable`).
- Two `Put`s reach a cache whose tail entry cannot be deleted without
  leaving `_lru_last` dangling (`LruScenarios.TailDeleteReachable`).
- The underflow can only follow a loop that emptied the list
  (`LruScenarios.UnderflowNeedsEmptiedList`).

Under exact accounting, `PutSafe` holds for every update that passes the
size checks (`LruLaws.ExactUpdateSafe`). For an insert into a non-empty
cache, it holds exactly when the head's size plus the pair's size is within
the capacity (`LruLaws.ExactInsertSafeIff`).

## Model

| member | source | states |
|---|---|---|
| SimpleLru.Evict | src/storage/SimpleLRU.cpp:23-40 | the loop keeps a prefix of the list (drops from the tail only); the counter grows by exactly the bytes of the dropped suffix; it stops with enough room or with the list empty; and no shorter cut would have had room (it evicts no more than needed) |
| LruLaws.EvictDropsTailKeys | src/storage/SimpleLRU.cpp:28-35 | the keys removed from the index are exactly the keys of the unlinked tail entries; the surviving keys are the rest |
| SimpleLru.Promote | src/storage/SimpleLRU.cpp:53-68 | relinking the node moves exactly that entry to the front and keeps the others in order (`[e] + Remove(s, key)`); it is a permutation that keeps keys distinct and bytes unchanged |
| SimpleLru.GrowthNeed | src/storage/SimpleLRU.cpp:69-70 | the space asked of the loop is zero when the value does not grow, and otherwise exactly the growth |
| SimpleLru.Put | src/storage/SimpleLRU.cpp:11-91 | `Put` succeeds iff the pair passes both size checks; a rejected call changes nothing; a successful one leaves the pair at the head with the other entries a prefix of the old list minus the key; the cache stays valid with the same capacity |
| SimpleLru.Update | src/storage/SimpleLRU.cpp:50-73 | the update path keeps the cache valid and puts the new pair at the head; when the value does not grow, nothing is evicted and the counter is unchanged |
| SimpleLru.Insert | src/storage/SimpleLRU.cpp:74-89 | the insert path keeps the cache valid; the new pair is the head and the rest is a prefix of the old list |
| LruLaws.PutNewKey | src/storage/SimpleLRU.cpp:76-88 | inserting a new key gives `[pair] + old[..n]` for a tail cut `n`; the counter ends at the old one plus the evicted bytes minus the pair's size; the index loses exactly the evicted keys and gains the key; the loop stopped at the first cut with room |
| LruLaws.PutExistingKey | src/storage/SimpleLRU.cpp:50-73 | overwriting a key gives `[pair] + rest[..n]`, where `rest` is the old list without the key; the counter ends at the old one plus the evicted bytes minus the value's growth |
| LruLaws.InsertWithRoom | src/storage/SimpleLRU.cpp:74-89 | when the counter already covers the pair, nothing is evicted: the pair is linked in front of the unchanged list and charged |
| LruLaws.PutNoGrowth | src/storage/SimpleLRU.cpp:69-73 | a non-growing value evicts nothing and is always safe; the entry moves to the head with the new value and the counter is left as it was |
| LruLaws.PutKeepsExact | src/storage/SimpleLRU.cpp:22-89 | exact accounting survives every insert and every non-shrinking update, and the stored bytes then stay within the capacity |
| SimpleLru.PutIfAbsent | src/storage/SimpleLRU.cpp:94-100 | a present key is refused with the cache unchanged; otherwise the call is exactly `Put`; it succeeds iff the key is absent and the pair fits, with the pair at the head |
| SimpleLru.Set | src/storage/SimpleLRU.cpp:103-109 | an absent key is refused with the cache unchanged; otherwise the call is exactly `Put`; it succeeds iff the key is present and the pair fits, and then adds no key to the index |
| SimpleLru.Delete | src/storage/SimpleLRU.cpp:112-131 | a missing key is refused with the cache unchanged; a present key's node is unlinked (the list becomes `Remove(entries, key)`) with the counter not credited; the index loses exactly that key |
| SimpleLru.Get | src/storage/SimpleLRU.cpp:134-143 | a miss leaves the output and the cache untouched; a hit returns the stored value and moves the entry to the head without changing the counter; the entries are a permutation of the old ones |
| LruLaws.PutThenGet | src/storage/SimpleLRU.cpp:134-143 | after a successful `Put(key, value)`, `Get(key)` returns `value` and leaves the cache as it is |
| LruLaws.DeleteThenGet | src/storage/SimpleLRU.cpp:112-143 | after deleting a key, `Get` of it misses and changes nothing, while every other key is still found |
| LruLaws.PutMakesMostRecent | src/storage/SimpleLRU.cpp:50-89 | after a successful `Put`, every other live key is less recently used than the key put |
| LruLaws.PutKeepsOrder | src/storage/SimpleLRU.cpp:11-91 | `Put` of another key keeps the relative recency of any two keys that survive its eviction |
| LruLaws.GetKeepsOrder | src/storage/SimpleLRU.cpp:134-143 | `Get` of another key keeps the relative recency of any two keys |
| LruLaws.DeleteKeepsOrder | src/storage/SimpleLRU.cpp:112-131 | `Delete` of another key keeps the relative recency of any two keys |
| LruEntries.IndexOf | src/storage/SimpleLRU.cpp:48 | the index lookup finds a node holding the key, and no node nearer the head holds it |
| LruEntries.Remove | src/storage/SimpleLRU.cpp:120-129 | unlinking a key keeps no more entries than before and leaves exactly the old key set minus that key |
| LruEntries.RemoveAt | src/storage/SimpleLRU.cpp:125-128 | on a list with distinct keys, unlinking splices the neighbours of the key's one node together |
| LruEntries.RemoveBytes | src/storage/SimpleLRU.cpp:112-131 | unlinking a key's node takes exactly that entry's bytes off the list |
| LruScenarios.FillOne | src/storage/SimpleLRU.cpp:76-88 | in a cache of capacity 10, a 2-byte pair goes in without eviction and leaves 8 bytes free |
| LruScenarios.FillTwo | src/storage/SimpleLRU.cpp:76-88 | a 3-byte pair goes in front of it and leaves 5 bytes free |
| LruScenarios.FillThree | src/storage/SimpleLRU.cpp:76-88 | a 4-byte pair goes in front of them and leaves 1 byte free |
| LruScenarios.EvictionScenario | src/storage/SimpleLRU.cpp:23-40 | a 5-byte pair then evicts the two oldest entries, tail first, and leaves `[new, newest old]` with 1 byte free |
| LruScenarios.EvictTwoFromTail | src/storage/SimpleLRU.cpp:24-38 | the loop credits the tail (2 bytes, 3 free), is still short, credits the next (3 bytes, 6 free) and stops |
| LruScenarios.PutIfAbsentTwice | src/storage/SimpleLRU.cpp:94-100 | a second `PutIfAbsent` of a key is refused and the first value is kept |
| LruScenarios.SetOnEmpty | src/storage/SimpleLRU.cpp:103-107 | `Set` on an empty cache is refused and leaves it empty |
| LruScenarios.ShrinkingUpdateUndercounts | src/storage/SimpleLRU.cpp:69-73 | an update to a shorter value loses exactly the shrinkage from the counter, so exact accounting is broken |
| LruScenarios.DeleteUndercounts | src/storage/SimpleLRU.cpp:112-131 | `Delete` loses exactly the entry's size from the counter, so exact accounting is broken by any non-empty entry |
| LruLaws.ExactUpdateSafe | src/storage/SimpleLRU.cpp:50-73 | under exact accounting, every update that passes the size checks stops evicting before it reaches the moved head and leaves room for the growth, so it is clear of the stale head and the underflow |
| LruLaws.ExactInsertSafeIff | src/storage/SimpleLRU.cpp:74-89 | under exact accounting, an insert into a non-empty cache that passes the size checks is clear of the stale head and the underflow exactly when the head's size plus the pair's size is within the capacity |
| LruScenarios.TailDeleteReachable | src/storage/SimpleLRU.cpp:124-128 | two `Put`s from a fresh cache reach an exact two-entry state whose tail key is present but cannot be deleted safely, since the unlink would leave `_lru_last` on the removed node |
| LruScenarios.UnderflowNeedsEmptiedList | src/storage/SimpleLRU.cpp:24-40 | the eviction loop leaves the counter below the need only when it has emptied the list, so the subtraction at lines 73 and 88 wraps only after that |
| LruScenarios.FullEvictionReachable | src/storage/SimpleLRU.cpp:24-38 | one `Put` from a fresh cache reaches an exact state in which a pair as large as the capacity fits but empties the list (so it is not `PutSafe`), and the sole entry cannot be deleted safely |

## Left out

- Memory ownership: the `unique_ptr` chain, the raw `prev` pointers and the `reference_wrapper` index entries are modelled as one sequence plus its derived key set. Node identity is not modelled.
- String sizes: `Key` and `Value` are `string`, so sizes count characters. One character stands for one byte of the source's `std::string`, whose `size()` the source charges (lines 13, 18, 28, 70, 76).
- Hashing: the index is modelled only by the set of keys it holds. Its hash and comparator types are not part of this model.
- The header `SimpleLRU.h` is not part of this model. The constructor is assumed to set `_cur_free` to `_max_size` (`SimpleLru.Empty`).
- Locking and concurrency: the cache is single-threaded in the source, and so is the model.
- `size_t` width: a 64-bit `size_t` is assumed. The only `size_t` arithmetic the model keeps is the overflow check of `Put` and the counter subtraction, whose underflow is excluded by `PutSafe`.
- Put: requires `PutSafe`, which excludes two things. One is the stale head the source keeps when the eviction loop empties a non-empty list (lines 35-38, 79-82). There the source's list is no longer a list. The other is the `size_t` underflow of the counter at lines 73 and 88. There the list is intact but the counter wraps to a huge value. No contract is given on those inputs. Which calls `PutSafe` admits is stated in terms of the cache by `LruLaws.ExactUpdateSafe` and `LruLaws.ExactInsertSafeIff`. The underflow follows only an emptied list (`LruScenarios.UnderflowNeedsEmptiedList`).
- PutIfAbsent: requires `PutSafe` for an absent key, for the same reason as `Put`.
- Set: requires `PutSafe` for a present key, for the same reason as `Put`.
- Get: a hit calls `Put` with a value of the same size, which is always `PutSafe` (`SimpleLru.GetIsSafe`), so `Get` needs only `Valid`.
- Delete: requires `Deletable`, which means the key is not at the tail. Deleting the sole entry dereferences a null head (lines 122-123). Deleting any other tail leaves `_lru_last` dangling (lines 125-128).
- Exact accounting (free counter plus stored bytes equal to the capacity) is not claimed across `Delete` or a shrinking update, because the source does not maintain it there. The state invariant is the inequality `Valid`.
