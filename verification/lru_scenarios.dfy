/** Scenarios of the cache model: an eviction run with capacity 10, the
    guard runs, and the states that exhibit the source's accounting and pointer
    defects. Each is stated for every choice of keys and values of the
    sizes involved. */
module LruScenarios {
  import opened LruEntries
  import opened Wrappers
  import opened SimpleLru
  import opened LruLaws

  /** The run with capacity 10 and entries of 2, 3, 4 and 5 bytes, one
      call per lemma, each lemma starting from the state the previous one
      ends in: `a`, `b`, `c` go in without eviction and leave 1 byte free;
      `d` needs 5, so `a` and then `b` are evicted from the tail (free 3,
      then 6) and `d` is linked in front of `c`, leaving 1 byte free.
      The run starts from `Empty(10)`, the cache `Cache([], 10, 10)`. */
  lemma FillOne(a: Entry)
    requires Size(a) == 2
    ensures PutSafe(Cache([], 10, 10), a.key, a.value)
    ensures Put(Cache([], 10, 10), a.key, a.value) == Reply(true, Cache([a], 8, 10))
  {
    InsertWithRoom(Cache([], 10, 10), a.key, a.value);
    assert [Entry(a.key, a.value)] + [] == [a];
  }

  lemma FillTwo(a: Entry, b: Entry)
    requires Size(a) == 2 && Size(b) == 3 && a.key != b.key
    ensures var c1 := Cache([a], 8, 10);
            Valid(c1) && PutSafe(c1, b.key, b.value) && Put(c1, b.key, b.value) == Reply(true, Cache([b, a], 5, 10))
  {
    KeysCons([a]);
    InsertWithRoom(Cache([a], 8, 10), b.key, b.value);
    assert [Entry(b.key, b.value)] + [a] == [b, a];
  }

  lemma FillThree(a: Entry, b: Entry, c: Entry)
    requires Size(a) == 2 && Size(b) == 3 && Size(c) == 4
    requires a.key != b.key && a.key != c.key && b.key != c.key
    ensures var c2 := Cache([b, a], 5, 10);
            Valid(c2) && PutSafe(c2, c.key, c.value) && Put(c2, c.key, c.value) == Reply(true, Cache([c, b, a], 1, 10))
  {
    KeysCons([b, a]);
    KeysCons([a]);
    assert [b, a][1..] == [a] && [a][1..] == [];
    assert Bytes([a]) == 2;
    assert Bytes([b, a]) == 5;
    DistinctCons(b, [a]);
    InsertWithRoom(Cache([b, a], 5, 10), c.key, c.value);
    assert [Entry(c.key, c.value)] + [b, a] == [c, b, a];
  }

  lemma EvictionScenario(a: Entry, b: Entry, c: Entry, d: Entry)
    requires Size(a) == 2 && Size(b) == 3 && Size(c) == 4 && Size(d) == 5
    requires a.key != b.key && a.key != c.key && a.key != d.key
    requires b.key != c.key && b.key != d.key && c.key != d.key
    ensures var c3 := Cache([c, b, a], 1, 10);
            && Valid(c3)
            && PutSafe(c3, d.key, d.value)
            && Put(c3, d.key, d.value) == Reply(true, Cache([d, c], 1, 10))
  {
    FillThree(a, b, c);
    KeysCons([c, b, a]);
    KeysCons([b, a]);
    KeysCons([a]);
    assert [c, b, a][1..] == [b, a] && [b, a][1..] == [a];
    EvictTwoFromTail(Cache([c, b, a], 1, 10), d);
  }

  /** The last step of the scenario: evicting `a` frees 2 bytes (3 free),
      still short of 5, so `b` goes too (6 free) and `d` is linked in. */
  lemma EvictTwoFromTail(c3: Cache, d: Entry)
    requires Valid(c3) && |c3.entries| == 3 && c3.free == 1 && c3.capacity == 10
    requires Size(c3.entries[0]) == 4 && Size(c3.entries[1]) == 3 && Size(c3.entries[2]) == 2
    requires Size(d) == 5 && d.key !in Keys(c3.entries)
    ensures PutSafe(c3, d.key, d.value)
    ensures Put(c3, d.key, d.value) == Reply(true, Cache([d, c3.entries[0]], 1, 10))
  {
    var s := c3.entries;
    assert s[..2] == [s[0], s[1]] && s[..2][..1] == [s[0]];
    assert Evict([s[0]], 6, 5) == Eviction([s[0]], 6);
    assert Evict([s[0], s[1]], 3, 5) == Eviction([s[0]], 6);
    assert Evict(s, 1, 5) == Eviction([s[0]], 6);
  }

  /** Two `Put`s from a freshly built cache reach a state with two entries,
      the older one at the tail, which cannot be deleted safely: the source
      would unlink it without moving `_lru_last` off it. */
  lemma TailDeleteReachable(a: Entry, b: Entry, capacity: nat)
    requires capacity <= SIZE_MAX && Size(a) + Size(b) <= capacity && a.key != b.key
    ensures PutSafe(Empty(capacity), a.key, a.value)
    ensures var c1 := Put(Empty(capacity), a.key, a.value).cache;
            && c1 == Cache([a], capacity - Size(a), capacity)
            && PutSafe(c1, b.key, b.value)
            && var c2 := Put(c1, b.key, b.value).cache;
            && c2 == Cache([b, a], capacity - Size(a) - Size(b), capacity)
            && Exact(c2)
            && a.key in Keys(c2.entries)
            && !Deletable(c2, a.key)
  {
    InsertWithRoom(Cache([], capacity, capacity), a.key, a.value);
    assert [Entry(a.key, a.value)] + [] == [a];
    KeysCons([a]);
    InsertWithRoom(Cache([a], capacity - Size(a), capacity), b.key, b.value);
    assert [Entry(b.key, b.value)] + [a] == [b, a];
    KeysCons([b, a]);
    assert [b, a][1..] == [a];
  }

  /** The counter can wrap below zero only after the eviction loop emptied
      the list it ran on: on any list it stops short of empty, it stops with
      enough room. So the underflow at the end of `Put` always follows the
      stale-head state when the list was non-empty. */
  lemma UnderflowNeedsEmptiedList(c: Cache, key: Key, value: Value)
    requires Valid(c)
    ensures var ev := Evict(Staged(c, key), c.free, Need(c, key, value));
            ev.free < Need(c, key, value) ==> ev.kept == []
  {
  }

  /** A second `PutIfAbsent` of a key is refused and keeps the first value. */
  lemma PutIfAbsentTwice(capacity: nat, key: Key, first: Value, second: Value)
    requires capacity <= SIZE_MAX && Fits(capacity, key, first)
    ensures var c1 := PutIfAbsent(Empty(capacity), key, first);
            && c1.ok
            && PutIfAbsent(c1.cache, key, second) == Reply(false, c1.cache)
            && Get(c1.cache, key).value == Some(first)
  {
    assert Evict([], capacity, |key| + |first|) == Eviction([], capacity);
    var c1 := PutIfAbsent(Empty(capacity), key, first);
    assert c1.cache.entries == [Entry(key, first)];
    KeysCons(c1.cache.entries);
  }

  /** `Set` on an empty cache is refused and leaves it empty. */
  lemma SetOnEmpty(capacity: nat, key: Key, value: Value)
    requires capacity <= SIZE_MAX
    ensures Set(Empty(capacity), key, value) == Reply(false, Empty(capacity))
  {
  }

  /** A value that shrinks is never credited back: the gap between the
      counter and the real free space grows by exactly the shrinkage, so a
      cache with exact accounting loses it. */
  lemma ShrinkingUpdateUndercounts(c: Cache, key: Key, value: Value)
    requires Valid(c) && key in Keys(c.entries)
    requires |value| < |c.entries[IndexOf(c.entries, key)].value|
    ensures var r := Put(c, key, value).cache;
            r.free + Bytes(r.entries) + (|c.entries[IndexOf(c.entries, key)].value| - |value|)
            == c.free + Bytes(c.entries)
    ensures !Exact(Put(c, key, value).cache)
  {
    var e := c.entries[IndexOf(c.entries, key)];
    PutNoGrowth(c, key, value);
    PromoteBytes(c.entries, key);
    var rest := Remove(c.entries, key);
    assert ([e] + rest)[1..] == rest;
    assert ([Entry(key, value)] + rest)[1..] == rest;
  }

  /** `Delete` never credits the counter: the gap grows by exactly the
      deleted entry's size, so a non-empty entry breaks exact accounting. */
  lemma DeleteUndercounts(c: Cache, key: Key)
    requires Valid(c) && Deletable(c, key) && key in Keys(c.entries)
    ensures var r := Delete(c, key).cache;
            r.free + Bytes(r.entries) + Size(c.entries[IndexOf(c.entries, key)])
            == c.free + Bytes(c.entries)
    ensures Size(c.entries[IndexOf(c.entries, key)]) > 0 ==> !Exact(Delete(c, key).cache)
  {
    RemoveBytes(c.entries, key);
  }

  /** Starting from a freshly built cache, one `Put` reaches a state in
      which the next `Put` of a pair as large as the capacity makes the
      eviction loop empty the list (the source then keeps the evicted node
      as the head), and in which the sole entry cannot be deleted safely. */
  lemma FullEvictionReachable(a: Entry, b: Entry, capacity: nat)
    requires capacity <= SIZE_MAX && Size(b) == capacity
    requires 0 < Size(a) <= capacity && a.key != b.key
    ensures var c := Put(Empty(capacity), a.key, a.value).cache;
            && c == Cache([a], capacity - Size(a), capacity)
            && Exact(c)
            && Fits(c.capacity, b.key, b.value)
            && !PutSafe(c, b.key, b.value)
            && !Deletable(c, a.key)
  {
    assert Evict([], capacity, Size(a)) == Eviction([], capacity);
    var c := Put(Empty(capacity), a.key, a.value).cache;
    assert c == Cache([a], capacity - Size(a), capacity);
    assert Keys([a]) == {a.key};
    assert [a][..0] == [];
    assert Evict([a], capacity - Size(a), Size(b)) == Eviction([], capacity);
  }
}
