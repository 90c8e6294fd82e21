/** Properties of the cache model that relate several calls or spell out
    one path of `Put` in full: what eviction drops, exactly how the free
    counter moves, when exact accounting survives, the put/get round trip,
    and the recency order the operations keep. */
module LruLaws {
  import opened LruEntries
  import opened Wrappers
  import opened SimpleLru

  /** The eviction loop drops from the index exactly the keys of the
      entries it unlinked from the tail. */
  lemma EvictDropsTailKeys(s: seq<Entry>, free: nat, need: nat)
    requires Distinct(s)
    ensures var ev := Evict(s, free, need);
            && Keys(ev.kept) == Keys(s) - Keys(s[|ev.kept|..])
            && Keys(s) == Keys(ev.kept) + Keys(s[|ev.kept|..])
  {
    var ev := Evict(s, free, need);
    assert ev.kept == s[..|ev.kept|];
    CutKeys(s, |ev.kept|);
  }

  /** Cutting a distinct list in two splits its key set in two. */
  lemma CutKeys(s: seq<Entry>, n: nat)
    requires Distinct(s) && n <= |s|
    ensures Keys(s[..n]) == Keys(s) - Keys(s[n..])
    ensures Keys(s) == Keys(s[..n]) + Keys(s[n..])
  {
    assert s == s[..n] + s[n..];
    KeysAppend(s[..n], s[n..]);
    SplitKeysDisjoint(s, n);
  }

  /** On a distinct list, no key lies on both sides of a cut. */
  lemma SplitKeysDisjoint(s: seq<Entry>, n: nat)
    requires Distinct(s) && n <= |s|
    ensures Keys(s[..n]) !! Keys(s[n..])
  {
    forall e1, e2 | e1 in s[..n] && e2 in s[n..]
      ensures e1.key != e2.key
    {
      var i :| 0 <= i < n && s[..n][i] == e1;
      var j :| 0 <= j < |s| - n && s[n..][j] == e2;
      assert s[i] == e1 && s[n + j] == e2;
    }
  }

  /** `Put` of a key the index does not hold, once the size checks pass:
      the pair becomes the head, the survivors are the old list cut short at
      the tail in their old order, the counter is credited with the bytes of
      every evicted entry and charged the pair's size, the evicted keys leave
      the index, and the loop stopped at the first point with enough room. */
  lemma PutNewKey(c: Cache, key: Key, value: Value)
    requires Valid(c) && key !in Keys(c.entries)
    requires Fits(c.capacity, key, value) && PutSafe(c, key, value)
    ensures var r := Put(c, key, value);
            var n := |r.cache.entries| - 1;
            && r.ok
            && n <= |c.entries|
            && r.cache.entries == [Entry(key, value)] + c.entries[..n]
            && r.cache.free + |key| + |value| == c.free + Bytes(c.entries[n..])
            && Keys(r.cache.entries) == {key} + (Keys(c.entries) - Keys(c.entries[n..]))
            && (forall j :: n < j <= |c.entries| ==> c.free + Bytes(c.entries[j..]) < |key| + |value|)
  {
    var e := Entry(key, value);
    InsertUnfold(c, key, value);
    EvictedFront(c.entries, c.free, e);
  }

  /** The list `Put` builds for a fresh entry: the entry in front of what
      the eviction loop kept, which is the old list cut short at the tail. */
  lemma EvictedFront(s: seq<Entry>, free: nat, e: Entry)
    requires Distinct(s)
    ensures var ev := Evict(s, free, Size(e));
            var n := |ev.kept|;
            && ev.kept == s[..n]
            && ev.free == free + Bytes(s[n..])
            && Keys([e] + ev.kept) == {e.key} + (Keys(s) - Keys(s[n..]))
  {
    var ev := Evict(s, free, Size(e));
    FrontKeys(s, ev.kept, e);
  }

  /** The index after linking `e` in front of a prefix of a distinct list. */
  lemma FrontKeys(s: seq<Entry>, kept: seq<Entry>, e: Entry)
    requires Distinct(s) && kept <= s
    ensures kept == s[..|kept|]
    ensures Keys([e] + kept) == {e.key} + (Keys(s) - Keys(s[|kept|..]))
  {
    assert kept == s[..|kept|];
    CutKeys(s, |kept|);
    KeysAppend([e], kept);
    assert Keys([e]) == {e.key};
  }

  /** `Put` of a key the index holds, once the size checks pass: the entry
      moves to the head with the new value, the other survivors are the
      other entries in their old order cut short at the tail, and the counter
      is credited with the evicted bytes and charged only the value's growth. */
  lemma PutExistingKey(c: Cache, key: Key, value: Value)
    requires Valid(c) && key in Keys(c.entries)
    requires Fits(c.capacity, key, value) && PutSafe(c, key, value)
    ensures var r := Put(c, key, value);
            var current := c.entries[IndexOf(c.entries, key)].value;
            var rest := Remove(c.entries, key);
            var n := |r.cache.entries| - 1;
            && r.ok
            && n <= |rest|
            && r.cache.entries == [Entry(key, value)] + rest[..n]
            && r.cache.free + GrowthNeed(current, value) == c.free + Bytes(rest[n..])
  {
    var e := c.entries[IndexOf(c.entries, key)];
    var rest := Remove(c.entries, key);
    UpdateUnfold(c, key, value);
    var ev := Evict([e] + rest, c.free, GrowthNeed(e.value, value));
    PrefixOfCons(e, rest, ev.kept);
  }

  /** When the counter already covers a new pair, nothing is evicted: the
      pair is linked in front of the unchanged list and charged. */
  lemma InsertWithRoom(c: Cache, key: Key, value: Value)
    requires Valid(c) && key !in Keys(c.entries) && Fits(c.capacity, key, value)
    requires |key| + |value| <= c.free
    ensures PutSafe(c, key, value)
    ensures Put(c, key, value) == Reply(true, Cache([Entry(key, value)] + c.entries, c.free - (|key| + |value|), c.capacity))
  {
    var e := Entry(key, value);
    assert Evict(c.entries, c.free, Size(e)) == Eviction(c.entries, c.free);
  }

  /** A value that does not grow needs no room: nothing is evicted, the
      entry moves to the head with its new value, and the counter is left
      as it was (so a shrinking value is never credited back). Such a `Put`
      is always clear of the pointer defects. */
  lemma PutNoGrowth(c: Cache, key: Key, value: Value)
    requires Valid(c) && key in Keys(c.entries)
    requires |value| <= |c.entries[IndexOf(c.entries, key)].value|
    ensures PutSafe(c, key, value)
    ensures var r := Put(c, key, value);
            && r.ok
            && r.cache.entries == [Entry(key, value)] + Remove(c.entries, key)
            && r.cache.free == c.free
  {
    var i := IndexOf(c.entries, key);
    SizeAtMostBytes(c.entries, i);
    assert Need(c, key, value) == 0;
    assert Evict(Staged(c, key), c.free, 0) == Eviction(Staged(c, key), c.free);
  }

  /** Exact accounting survives every `Put` that inserts a key or does not
      shrink an existing value, and then the stored bytes stay within the
      capacity. */
  lemma PutKeepsExact(c: Cache, key: Key, value: Value)
    requires Valid(c) && Exact(c) && PutSafe(c, key, value)
    requires key in Keys(c.entries) ==> |c.entries[IndexOf(c.entries, key)].value| <= |value|
    ensures Exact(Put(c, key, value).cache)
    ensures Bytes(Put(c, key, value).cache.entries) <= c.capacity
  {
    if Fits(c.capacity, key, value) {
      if key in Keys(c.entries) {
        var e := c.entries[IndexOf(c.entries, key)];
        var rest := Remove(c.entries, key);
        var ev := Evict([e] + rest, c.free, GrowthNeed(e.value, value));
        UpdateUnfold(c, key, value);
        PromoteBytes(c.entries, key);
        UpdateBytes([e] + rest, ev.kept, Entry(key, value));
      } else {
        var ev := Evict(c.entries, c.free, Size(Entry(key, value)));
        InsertUnfold(c, key, value);
        assert ([Entry(key, value)] + ev.kept)[1..] == ev.kept;
      }
    }
  }

  /** Under exact accounting every update that passes the size checks is
      safe: the counter plus everything but the moved head is the capacity
      minus the head's size, which already covers the value's growth, so
      the loop stops before it reaches the head. */
  lemma ExactUpdateSafe(c: Cache, key: Key, value: Value)
    requires Valid(c) && Exact(c) && key in Keys(c.entries)
    requires Fits(c.capacity, key, value)
    ensures PutSafe(c, key, value)
  {
    var s := Staged(c, key);
    var need := Need(c, key, value);
    var ev := Evict(s, c.free, need);
    assert s == Promote(c.entries, key);
    assert need == GrowthNeed(s[0].value, value);
    assert s[0].key == key;
    assert Bytes(s) == Size(s[0]) + Bytes(s[1..]);
    assert c.free + Bytes(s[1..]) >= need;
  }

  /** Under exact accounting an insert into a non-empty cache that passes
      the size checks is safe exactly when the head survives, that is when
      the head's size plus the pair's size is within the capacity. */
  lemma ExactInsertSafeIff(c: Cache, key: Key, value: Value)
    requires Valid(c) && Exact(c) && key !in Keys(c.entries) && c.entries != []
    requires Fits(c.capacity, key, value)
    ensures PutSafe(c, key, value) <==> Size(c.entries[0]) + |key| + |value| <= c.capacity
  {
    var s := c.entries;
    var need := |key| + |value|;
    var ev := Evict(s, c.free, need);
    assert Staged(c, key) == s && Need(c, key, value) == need;
    assert Bytes(s) == Size(s[0]) + Bytes(s[1..]);
    if ev.kept != [] {
      assert ev.kept[0] == s[0];
      SizeAtMostBytes(ev.kept, 0);
    } else {
      assert c.free + Bytes(s[1..]) < need;
    }
  }

  /** Round trip: after a successful `Put(key, value)`, `Get(key)` answers
      `value`, and since the entry is already the head it changes nothing. */
  lemma PutThenGet(c: Cache, key: Key, value: Value)
    requires Valid(c) && Fits(c.capacity, key, value) && PutSafe(c, key, value)
    ensures var c' := Put(c, key, value).cache;
            Get(c', key) == Lookup(true, Some(value), c')
  {
    var c' := Put(c, key, value).cache;
    KeysCons(c'.entries);
    assert IndexOf(c'.entries, key) == 0;
    RemoveAt(c'.entries, key);
    assert [c'.entries[0]] + c'.entries[1..] == c'.entries;
  }

  /** After a `Delete(key)` that succeeded, `Get(key)` misses and changes
      nothing, and every other key the cache held is still found. */
  lemma DeleteThenGet(c: Cache, key: Key, other: Key)
    requires Valid(c) && Deletable(c, key) && key in Keys(c.entries)
    requires other != key && other in Keys(c.entries)
    ensures var c' := Delete(c, key).cache;
            && Get(c', key) == Lookup(false, None, c')
            && Get(c', other).found
  {
    var c' := Delete(c, key).cache;
    assert key !in Keys(c'.entries) && other in Keys(c'.entries);
  }

  /** `a` is closer to the head than `b`: `a` was used more recently. */
  predicate Before(s: seq<Entry>, a: Key, b: Key) {
    a in Keys(s) && b in Keys(s) && IndexOf(s, a) < IndexOf(s, b)
  }

  /** After a successful `Put(key, _)` every other live key is older. */
  lemma PutMakesMostRecent(c: Cache, key: Key, value: Value)
    requires Valid(c) && Fits(c.capacity, key, value) && PutSafe(c, key, value)
    ensures var s := Put(c, key, value).cache.entries;
            forall b :: b in Keys(s) && b != key ==> Before(s, key, b)
  {
    var s := Put(c, key, value).cache.entries;
    KeysCons(s);
    assert IndexOf(s, key) == 0;
  }

  /** `Put` of a third key keeps the recency order of two keys that
      survive its eviction. */
  lemma PutKeepsOrder(c: Cache, x: Key, value: Value, a: Key, b: Key)
    requires Valid(c) && PutSafe(c, x, value)
    requires x != a && x != b && Before(c.entries, a, b)
    ensures var s := Put(c, x, value).cache.entries;
            a in Keys(s) && b in Keys(s) ==> Before(s, a, b)
  {
    var r := Put(c, x, value);
    if r.ok && a in Keys(r.cache.entries) && b in Keys(r.cache.entries) {
      var rest := Remove(c.entries, x);
      var p := r.cache.entries[1..];
      KeysCons(r.cache.entries);
      RemoveKeepsBefore(c.entries, x, a, b);
      PrefixKeepsBefore(p, rest, a, b);
      assert r.cache.entries == [Entry(x, value)] + p;
      ConsKeepsBefore(Entry(x, value), p, a, b);
    }
  }

  /** `Get` of a third key keeps the recency order of the other two. */
  lemma GetKeepsOrder(c: Cache, x: Key, a: Key, b: Key)
    requires Valid(c) && x != a && x != b && Before(c.entries, a, b)
    ensures Before(Get(c, x).cache.entries, a, b)
  {
    if x in Keys(c.entries) {
      var e := c.entries[IndexOf(c.entries, x)];
      RemoveKeepsBefore(c.entries, x, a, b);
      ConsKeepsBefore(e, Remove(c.entries, x), a, b);
    }
  }

  /** `Delete` of a third key keeps the recency order of the other two. */
  lemma DeleteKeepsOrder(c: Cache, x: Key, a: Key, b: Key)
    requires Valid(c) && Deletable(c, x)
    requires x != a && x != b && Before(c.entries, a, b)
    ensures Before(Delete(c, x).cache.entries, a, b)
  {
    RemoveKeepsBefore(c.entries, x, a, b);
  }

  // Order facts about the list operations used above.

  lemma {:induction false} RemoveKeepsBefore(s: seq<Entry>, x: Key, a: Key, b: Key)
    requires x != a && x != b && Before(s, a, b)
    ensures Before(Remove(s, x), a, b)
  {
    if s[0].key == a {
      RemoveAtHeadBefore(s, x, b);
    } else {
      var t := s[1..];
      IndexOfTail(s, a);
      IndexOfTail(s, b);
      RemoveKeepsBefore(t, x, a, b);
      RemoveCons(s, x);
      if s[0].key != x {
        ConsKeepsBefore(s[0], Remove(t, x), a, b);
      }
    }
  }

  lemma RemoveAtHeadBefore(s: seq<Entry>, x: Key, b: Key)
    requires s != [] && s[0].key != x && s[0].key != b && x != b && b in Keys(s)
    ensures Before(Remove(s, x), s[0].key, b)
  {
    RemoveCons(s, x);
    HeadBefore(Remove(s, x), b);
  }

  lemma HeadBefore(s: seq<Entry>, b: Key)
    requires s != [] && s[0].key != b && b in Keys(s)
    ensures Before(s, s[0].key, b)
  {
    KeysCons(s);
  }

  lemma ConsKeepsBefore(e: Entry, s: seq<Entry>, a: Key, b: Key)
    requires e.key != a && e.key != b && Before(s, a, b)
    ensures Before([e] + s, a, b)
  {
    var t := [e] + s;
    assert t[1..] == s;
    KeysCons(t);
    IndexOfTail(t, a);
    IndexOfTail(t, b);
  }

  lemma {:induction false} IndexOfPrefix(p: seq<Entry>, s: seq<Entry>, k: Key)
    requires p <= s && k in Keys(p)
    ensures k in Keys(s) && IndexOf(p, k) == IndexOf(s, k)
  {
    KeysPrefix(p, s);
    KeysCons(p);
    if p[0].key != k {
      KeysCons(s);
      IndexOfPrefix(p[1..], s[1..], k);
    }
  }

  lemma PrefixKeepsBefore(p: seq<Entry>, s: seq<Entry>, a: Key, b: Key)
    requires p <= s && a in Keys(p) && b in Keys(p) && Before(s, a, b)
    ensures Before(p, a, b)
  {
    IndexOfPrefix(p, s, a);
    IndexOfPrefix(p, s, b);
  }
}
