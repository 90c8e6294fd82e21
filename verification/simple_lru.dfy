/** The size-bounded LRU cache of src/storage/SimpleLRU.cpp, modelled as an
    immutable value: the recency list as a sequence of entries from head
    (most recent) to tail (least recent), the index as the key set of that
    sequence, the incrementally tracked free-byte counter and the fixed
    capacity. Every operation is a pure function returning its boolean
    answer together with the cache after the call.

    The source has pointer-level defects that leave the list in a state no
    sequence can describe (a stale head after the eviction loop empties the
    list, a dangling tail after deleting the tail, a null dereference when
    deleting the sole entry, a `size_t` underflow of the free counter).
    They are excluded by the preconditions `PutSafe` and `Deletable`; the
    accounting defects that a sequence CAN describe (a shrinking update and
    `Delete` never give bytes back) are modelled as written. */
module SimpleLru {
  import opened LruEntries
  import opened Wrappers

  /** Largest value of the 64-bit `size_t` the cache counts bytes in. */
  const SIZE_MAX: nat := 0xFFFF_FFFF_FFFF_FFFF

  /** `free` is `_cur_free`, `capacity` is `_max_size`. */
  datatype Cache = Cache(entries: seq<Entry>, free: nat, capacity: nat)

  /** Boolean answer of a mutating call and the cache after it. */
  datatype Reply = Reply(ok: bool, cache: Cache)

  /** Answer of `Get`: the boolean it returns, what it wrote to its output
      parameter (`None` when it left it untouched) and the cache after it. */
  datatype Lookup = Lookup(found: bool, value: Option<Value>, cache: Cache)

  /** What the eviction loop leaves: the surviving list and the free counter. */
  datatype Eviction = Eviction(kept: seq<Entry>, free: nat)

  /** What every call keeps: one node per key, a capacity representable in
      `size_t`, and never more bytes stored than the counter leaves room for.
      The counter may under-report free space (shrinking updates and
      deletions do not credit it), so this is an inequality. */
  ghost predicate Valid(c: Cache) {
    && Distinct(c.entries)
    && c.capacity <= SIZE_MAX
    && c.free + Bytes(c.entries) <= c.capacity
  }

  /** Exact accounting: the counter is the capacity minus the stored bytes. */
  ghost predicate Exact(c: Cache) {
    c.free + Bytes(c.entries) == c.capacity
  }

  /** A fresh cache; the constructor sets the free counter to the capacity. */
  function Empty(capacity: nat): (c: Cache)
    requires capacity <= SIZE_MAX
    ensures Valid(c) && Exact(c)
    ensures Keys(c.entries) == {} && c.capacity == capacity
  {
    Cache([], capacity, capacity)
  }

  /** Both size checks at the top of `Put` pass: the pair's size neither
      overflows `size_t` nor exceeds the capacity. */
  predicate Fits(capacity: nat, key: Key, value: Value) {
    |key| + |value| <= SIZE_MAX && |key| + |value| <= capacity
  }

  /** The eviction loop: while the counter is below `need` and the list is
      not empty, credit the tail's bytes, drop its key and unlink it. */
  function Evict(s: seq<Entry>, free: nat, need: nat): (r: Eviction)
    ensures r.kept <= s
    ensures r.free == free + Bytes(s[|r.kept|..])
    ensures r.free + Bytes(r.kept) == free + Bytes(s)
    ensures r.free >= need || r.kept == []
    ensures forall j :: |r.kept| < j <= |s| ==> free + Bytes(s[j..]) < need
    decreases |s|
  {
    if free >= need || s == [] then
      BytesAppend(s, []);
      assert s[|s|..] == [];
      Eviction(s, free)
    else
      var r := Evict(s[..|s| - 1], free + Size(s[|s| - 1]), need);
      EvictStep(s, free, need, r);
      r
  }

  /** Relinks the node of `key` in front of the head; a no-op when it is
      already the head. */
  function Promote(s: seq<Entry>, key: Key): (r: seq<Entry>)
    requires Distinct(s) && key in Keys(s)
    ensures r == [s[IndexOf(s, key)]] + Remove(s, key)
    ensures multiset(r) == multiset(s)
    ensures Distinct(r) && Bytes(r) == Bytes(s)
  {
    var i := IndexOf(s, key);
    PromoteFacts(s, key);
    if s[0].key == key then s
    else [s[i]] + s[..i] + s[i + 1..]
  }

  /** Bytes the eviction loop must free when an existing value is replaced:
      the growth of the value, and nothing when it does not grow. */
  function GrowthNeed(current: Value, value: Value): (n: nat)
    ensures |value| <= |current| ==> n == 0
    ensures |value| > |current| ==> |current| + n == |value|
  {
    if |value| < |current| then 0 else |value| - |current|
  }

  /** The list the eviction loop of `Put(c, key, _)` runs on. */
  function Staged(c: Cache, key: Key): seq<Entry>
    requires Distinct(c.entries)
  {
    if key in Keys(c.entries) then Promote(c.entries, key) else c.entries
  }

  /** The bytes `Put(c, key, value)` asks the eviction loop to free. */
  function Need(c: Cache, key: Key, value: Value): nat
    requires Distinct(c.entries)
  {
    if key in Keys(c.entries) then GrowthNeed(c.entries[IndexOf(c.entries, key)].value, value)
    else |key| + |value|
  }

  /** `Put(c, key, value)` stays clear of the source's pointer defects:
      either it is rejected by the size checks, or the eviction loop leaves
      a non-empty list non-empty (otherwise the head keeps the evicted node)
      and leaves the counter at least at the need (otherwise the final
      subtraction underflows). */
  ghost predicate PutSafe(c: Cache, key: Key, value: Value)
    requires Distinct(c.entries)
  {
    || !Fits(c.capacity, key, value)
    || var ev := Evict(Staged(c, key), c.free, Need(c, key, value));
       && (Staged(c, key) != [] ==> ev.kept != [])
       && ev.free >= Need(c, key, value)
  }

  /** Inserts or overwrites `key`, making it the most recently used entry.
      The two size checks reject the pair before anything changes. */
  function Put(c: Cache, key: Key, value: Value): (r: Reply)
    requires Valid(c) && PutSafe(c, key, value)
    ensures r.ok <==> Fits(c.capacity, key, value)
    ensures !r.ok ==> r.cache == c
    ensures Valid(r.cache) && r.cache.capacity == c.capacity
    ensures r.ok ==> r.cache.entries != [] && r.cache.entries[0] == Entry(key, value)
    ensures r.ok ==> r.cache.entries[1..] <= Remove(c.entries, key)
  {
    if SIZE_MAX - |key| < |value| then Reply(false, c)
    else if c.capacity < |value| + |key| then Reply(false, c)
    else if key in Keys(c.entries) then Reply(true, Update(c, key, value))
    else
      RemoveAbsent(c.entries, key);
      Reply(true, Insert(c, key, value))
  }

  /** The path of `Put` for a key the index holds: relink its node to the
      head, evict until the value's growth fits, then store the value. */
  function Update(c: Cache, key: Key, value: Value): (r: Cache)
    requires Valid(c) && key in Keys(c.entries)
    requires Fits(c.capacity, key, value) && PutSafe(c, key, value)
    ensures Valid(r) && r.capacity == c.capacity
    ensures r.entries != [] && r.entries[0] == Entry(key, value)
    ensures r.entries[1..] <= Remove(c.entries, key)
    ensures |value| <= |c.entries[IndexOf(c.entries, key)].value| ==>
              r.entries == [Entry(key, value)] + Remove(c.entries, key) && r.free == c.free
  {
    var moved := Promote(c.entries, key);
    var need := GrowthNeed(moved[0].value, value);
    var ev := Evict(moved, c.free, need);
    var e := Entry(key, value);
    UpdateKeepsValid(c, moved, ev, e);
    Cache([e] + ev.kept[1..], ev.free - need, c.capacity)
  }

  /** The path of `Put` for a new key: evict until the pair fits, then link
      a new node in front of the head. */
  function Insert(c: Cache, key: Key, value: Value): (r: Cache)
    requires Valid(c) && key !in Keys(c.entries)
    requires Fits(c.capacity, key, value) && PutSafe(c, key, value)
    ensures Valid(r) && r.capacity == c.capacity
    ensures r.entries != [] && r.entries[0] == Entry(key, value)
    ensures r.entries[1..] <= c.entries
  {
    var e := Entry(key, value);
    var need := Size(e);
    var ev := Evict(c.entries, c.free, need);
    InsertKeepsValid(c, ev, e);
    Cache([e] + ev.kept, ev.free - need, c.capacity)
  }

  /** `Put` only for a key the index does not hold. */
  function PutIfAbsent(c: Cache, key: Key, value: Value): (r: Reply)
    requires Valid(c)
    requires key !in Keys(c.entries) ==> PutSafe(c, key, value)
    ensures key in Keys(c.entries) ==> !r.ok && r.cache == c
    ensures key !in Keys(c.entries) ==> r == Put(c, key, value)
    ensures r.ok <==> key !in Keys(c.entries) && Fits(c.capacity, key, value)
    ensures r.ok ==> r.cache.entries[0] == Entry(key, value) && r.cache.entries[1..] <= c.entries
    ensures Valid(r.cache)
  {
    if key in Keys(c.entries) then Reply(false, c)
    else
      RemoveAbsent(c.entries, key);
      Put(c, key, value)
  }

  /** `Put` only for a key the index already holds. */
  function Set(c: Cache, key: Key, value: Value): (r: Reply)
    requires Valid(c)
    requires key in Keys(c.entries) ==> PutSafe(c, key, value)
    ensures key !in Keys(c.entries) ==> !r.ok && r.cache == c
    ensures key in Keys(c.entries) ==> r == Put(c, key, value)
    ensures r.ok <==> key in Keys(c.entries) && Fits(c.capacity, key, value)
    ensures r.ok ==> Keys(r.cache.entries) <= Keys(c.entries)
    ensures Valid(r.cache)
  {
    if key !in Keys(c.entries) then Reply(false, c)
    else
      UpdateAddsNoKey(c, key, value);
      Put(c, key, value)
  }

  /** `Delete(c, key)` stays clear of the source's pointer defects: the key,
      when present, is not at the tail (deleting the sole entry dereferences
      a null head, deleting any other tail leaves `_lru_last` dangling). */
  predicate Deletable(c: Cache, key: Key) {
    key in Keys(c.entries) ==> c.entries[|c.entries| - 1].key != key
  }

  /** Unlinks the node of `key`; the free counter is left as it is. */
  function Delete(c: Cache, key: Key): (r: Reply)
    requires Valid(c) && Deletable(c, key)
    ensures key !in Keys(c.entries) ==> r == Reply(false, c)
    ensures key in Keys(c.entries) ==> r.ok && r.cache == Cache(Remove(c.entries, key), c.free, c.capacity)
    ensures Keys(r.cache.entries) == Keys(c.entries) - {key}
    ensures Valid(r.cache)
  {
    if key !in Keys(c.entries) then
      assert Keys(c.entries) - {key} == Keys(c.entries);
      Reply(false, c)
    else
      var i := IndexOf(c.entries, key);
      UnlinkKeepsValid(c, key);
      if c.entries[0].key == key then
        Reply(true, Cache(c.entries[1..], c.free, c.capacity))
      else
        Reply(true, Cache(c.entries[..i] + c.entries[i + 1..], c.free, c.capacity))
  }

  /** Reads the value of `key` and promotes it by calling `Put` with the
      value just read. */
  function Get(c: Cache, key: Key): (r: Lookup)
    requires Valid(c)
    ensures key !in Keys(c.entries) ==> r == Lookup(false, None, c)
    ensures key in Keys(c.entries) ==>
              var e := c.entries[IndexOf(c.entries, key)];
              && r.found
              && r.value == Some(e.value)
              && r.cache == Cache([e] + Remove(c.entries, key), c.free, c.capacity)
    ensures multiset(r.cache.entries) == multiset(c.entries)
    ensures Valid(r.cache)
  {
    if key !in Keys(c.entries) then Lookup(false, None, c)
    else
      var value := c.entries[IndexOf(c.entries, key)].value;
      GetIsSafe(c, key);
      PromotePermutes(c.entries, key);
      var hit := Put(c, key, value);
      Lookup(hit.ok, Some(value), hit.cache)
  }

  // Proof helpers for the operations above.

  lemma UpdateAddsNoKey(c: Cache, key: Key, value: Value)
    requires Valid(c) && key in Keys(c.entries) && PutSafe(c, key, value)
    ensures var r := Put(c, key, value);
            r.ok ==> Keys(r.cache.entries) <= Keys(c.entries)
  {
    var r := Put(c, key, value);
    if r.ok {
      KeysPrefix(r.cache.entries[1..], Remove(c.entries, key));
      KeysCons(r.cache.entries);
    }
  }

  /** Unlinking the node of a present key, on either branch of `Delete`,
      leaves the list `Remove` describes and a valid cache. */
  lemma UnlinkKeepsValid(c: Cache, key: Key)
    requires Valid(c) && key in Keys(c.entries)
    ensures var i := IndexOf(c.entries, key);
            && (c.entries[0].key == key ==> c.entries[1..] == Remove(c.entries, key))
            && c.entries[..i] + c.entries[i + 1..] == Remove(c.entries, key)
    ensures Valid(Cache(Remove(c.entries, key), c.free, c.capacity))
  {
    var i := IndexOf(c.entries, key);
    RemoveAt(c.entries, key);
    if c.entries[0].key == key {
      assert c.entries[..i] == [];
    }
    RemoveDistinct(c.entries, key);
    RemoveBytes(c.entries, key);
  }

  /** One turn of the eviction loop: what the loop over the list without its
      tail establishes carries over to the whole list once the tail is
      credited. */
  lemma EvictStep(s: seq<Entry>, free: nat, need: nat, r: Eviction)
    requires s != [] && free < need
    requires var t, f := s[..|s| - 1], free + Size(s[|s| - 1]);
             && r.kept <= t
             && r.free == f + Bytes(t[|r.kept|..])
             && (forall j :: |r.kept| < j <= |t| ==> f + Bytes(t[j..]) < need)
    ensures r.kept <= s
    ensures r.free == free + Bytes(s[|r.kept|..])
    ensures r.free + Bytes(r.kept) == free + Bytes(s)
    ensures forall j :: |r.kept| < j <= |s| ==> free + Bytes(s[j..]) < need
  {
    var t, n := s[..|s| - 1], |r.kept|;
    BytesDropLast(s, n);
    assert r.kept == s[..n];
    assert s == r.kept + s[n..];
    BytesAppend(r.kept, s[n..]);
    forall j | n < j <= |s|
      ensures free + Bytes(s[j..]) < need
    {
      if j < |s| {
        BytesDropLast(s, j);
      }
    }
  }

  /** The bytes of a suffix are those of the same suffix without the tail,
      plus the tail's size. */
  lemma BytesDropLast(s: seq<Entry>, j: nat)
    requires j < |s|
    ensures Bytes(s[j..]) == Bytes(s[..|s| - 1][j..]) + Size(s[|s| - 1])
  {
    assert s[j..] == s[..|s| - 1][j..] + [s[|s| - 1]];
    BytesAppend(s[..|s| - 1][j..], [s[|s| - 1]]);
  }

  lemma PromoteFacts(s: seq<Entry>, key: Key)
    requires Distinct(s) && key in Keys(s)
    ensures var i := IndexOf(s, key);
            && (s[0].key == key ==> s == [s[i]] + Remove(s, key))
            && [s[i]] + s[..i] + s[i + 1..] == [s[i]] + Remove(s, key)
            && multiset([s[i]] + Remove(s, key)) == multiset(s)
            && Distinct([s[i]] + Remove(s, key))
            && Bytes([s[i]] + Remove(s, key)) == Bytes(s)
  {
    PromoteAtHead(s, key);
    PromoteSplice(s, key);
    PromotePermutes(s, key);
    PromoteDistinct(s, key);
    PromoteBytes(s, key);
  }

  lemma PromoteAtHead(s: seq<Entry>, key: Key)
    requires Distinct(s) && key in Keys(s)
    ensures s[0].key == key ==> s == [s[IndexOf(s, key)]] + Remove(s, key)
  {
    RemoveAt(s, key);
    if s[0].key == key {
      assert s == [s[0]] + s[1..];
    }
  }

  lemma PromoteSplice(s: seq<Entry>, key: Key)
    requires Distinct(s) && key in Keys(s)
    ensures var i := IndexOf(s, key);
            [s[i]] + s[..i] + s[i + 1..] == [s[i]] + Remove(s, key)
  {
    RemoveAt(s, key);
  }

  lemma PromotePermutes(s: seq<Entry>, key: Key)
    requires Distinct(s) && key in Keys(s)
    ensures multiset([s[IndexOf(s, key)]] + Remove(s, key)) == multiset(s)
  {
    var i := IndexOf(s, key);
    RemoveAt(s, key);
    SpliceToFront(s, i, Remove(s, key));
  }

  /** Moving the entry at `i` to the front keeps the same entries. */
  lemma SpliceToFront(s: seq<Entry>, i: nat, rest: seq<Entry>)
    requires i < |s| && rest == s[..i] + s[i + 1..]
    ensures multiset([s[i]] + rest) == multiset(s)
  {
    assert s == s[..i] + ([s[i]] + s[i + 1..]);
  }

  lemma PromoteDistinct(s: seq<Entry>, key: Key)
    requires Distinct(s) && key in Keys(s)
    ensures Distinct([s[IndexOf(s, key)]] + Remove(s, key))
  {
    RemoveDistinct(s, key);
    DistinctCons(s[IndexOf(s, key)], Remove(s, key));
  }

  lemma PromoteBytes(s: seq<Entry>, key: Key)
    requires Distinct(s) && key in Keys(s)
    ensures Bytes([s[IndexOf(s, key)]] + Remove(s, key)) == Bytes(s)
  {
    var rest := Remove(s, key);
    RemoveBytes(s, key);
    assert ([s[IndexOf(s, key)]] + rest)[1..] == rest;
  }

  lemma KeysPrefix(a: seq<Entry>, b: seq<Entry>)
    requires a <= b
    ensures Keys(a) <= Keys(b)
  {
    assert b == a + b[|a|..];
    KeysAppend(a, b[|a|..]);
  }

  lemma InsertKeepsValid(c: Cache, ev: Eviction, e: Entry)
    requires Valid(c) && e.key !in Keys(c.entries)
    requires ev == Evict(c.entries, c.free, Size(e))
    requires PutSafe(c, e.key, e.value) && Fits(c.capacity, e.key, e.value)
    ensures ev.free >= Size(e)
    ensures Valid(Cache([e] + ev.kept, ev.free - Size(e), c.capacity))
    ensures ([e] + ev.kept)[1..] <= c.entries
  {
    assert Staged(c, e.key) == c.entries;
    assert Need(c, e.key, e.value) == Size(e);
    KeysPrefix(ev.kept, c.entries);
    DistinctPrefix(c.entries, |ev.kept|);
    assert ev.kept == c.entries[..|ev.kept|];
    DistinctCons(e, ev.kept);
    assert ([e] + ev.kept)[1..] == ev.kept;
  }

  lemma UpdateKeepsValid(c: Cache, moved: seq<Entry>, ev: Eviction, e: Entry)
    requires Valid(c) && e.key in Keys(c.entries)
    requires moved == Promote(c.entries, e.key)
    requires ev == Evict(moved, c.free, GrowthNeed(moved[0].value, e.value))
    requires PutSafe(c, e.key, e.value) && Fits(c.capacity, e.key, e.value)
    ensures ev.kept != [] && ev.free >= GrowthNeed(moved[0].value, e.value)
    ensures ev.kept[0] == moved[0]
    ensures Valid(Cache([e] + ev.kept[1..], ev.free - GrowthNeed(moved[0].value, e.value), c.capacity))
    ensures ([e] + ev.kept[1..])[1..] <= Remove(c.entries, e.key)
  {
    assert Staged(c, e.key) == moved;
    assert ([e] + ev.kept[1..])[1..] == ev.kept[1..];
    assert Need(c, e.key, e.value) == GrowthNeed(moved[0].value, e.value);
    UpdateDistinct(c.entries, moved, ev.kept, e);
    UpdateBytes(moved, ev.kept, e);
  }

  lemma UpdateDistinct(s: seq<Entry>, moved: seq<Entry>, kept: seq<Entry>, e: Entry)
    requires Distinct(s) && e.key in Keys(s)
    requires moved == [s[IndexOf(s, e.key)]] + Remove(s, e.key)
    requires kept <= moved && kept != []
    ensures Distinct([e] + kept[1..])
  {
    var rest := Remove(s, e.key);
    RemoveDistinct(s, e.key);
    assert kept[1..] == rest[..|kept| - 1];
    KeysPrefix(kept[1..], rest);
    DistinctPrefix(rest, |kept| - 1);
    DistinctCons(e, kept[1..]);
  }

  lemma UpdateBytes(moved: seq<Entry>, kept: seq<Entry>, e: Entry)
    requires kept <= moved && kept != [] && moved[0].key == e.key
    ensures Bytes([e] + kept[1..]) + |moved[0].value| == Bytes(kept) + |e.value|
  {
    assert ([e] + kept[1..])[1..] == kept[1..];
    assert kept == [kept[0]] + kept[1..];
    BytesAppend([kept[0]], kept[1..]);
  }

  /** `Put` of a present key, spelled out over the other entries `rest`. */
  lemma UpdateUnfold(c: Cache, key: Key, value: Value)
    requires Valid(c) && key in Keys(c.entries)
    requires Fits(c.capacity, key, value) && PutSafe(c, key, value)
    ensures var e := c.entries[IndexOf(c.entries, key)];
            var need := GrowthNeed(e.value, value);
            var ev := Evict([e] + Remove(c.entries, key), c.free, need);
            && ev.kept != [] && ev.free >= need
            && Put(c, key, value) == Reply(true, Cache([Entry(key, value)] + ev.kept[1..], ev.free - need, c.capacity))
  {
    var moved := Promote(c.entries, key);
    var ev := Evict(moved, c.free, GrowthNeed(moved[0].value, value));
    UpdateKeepsValid(c, moved, ev, Entry(key, value));
  }

  /** `Put` of an absent key, spelled out. */
  lemma InsertUnfold(c: Cache, key: Key, value: Value)
    requires Valid(c) && key !in Keys(c.entries)
    requires Fits(c.capacity, key, value) && PutSafe(c, key, value)
    ensures var e := Entry(key, value);
            var ev := Evict(c.entries, c.free, Size(e));
            && ev.free >= Size(e)
            && Put(c, key, value) == Reply(true, Cache([e] + ev.kept, ev.free - Size(e), c.capacity))
  {
    var e := Entry(key, value);
    InsertKeepsValid(c, Evict(c.entries, c.free, Size(e)), e);
  }

  lemma GetIsSafe(c: Cache, key: Key)
    requires Valid(c) && key in Keys(c.entries)
    ensures var e := c.entries[IndexOf(c.entries, key)];
            && Fits(c.capacity, key, e.value)
            && PutSafe(c, key, e.value)
            && Need(c, key, e.value) == 0
            && Evict(Staged(c, key), c.free, 0) == Eviction(Staged(c, key), c.free)
  {
    SizeAtMostBytes(c.entries, IndexOf(c.entries, key));
  }
}
