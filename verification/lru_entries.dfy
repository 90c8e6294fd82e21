/** Entries of the recency list and the facts about sequences of them that
    the cache model relies on: byte sizes, the derived key index, removal of
    one key, and the position of a key. A recency list is a `seq<Entry>`
    ordered from the most recently used entry (index 0, the head) to the
    least recently used one (the last index, the tail). */
module LruEntries {

  type Key = string
  type Value = string

  datatype Entry = Entry(key: Key, value: Value)

  /** Bytes an entry is charged against the capacity: key size plus value size. */
  function Size(e: Entry): nat {
    |e.key| + |e.value|
  }

  /** Total bytes charged for a list of entries. */
  function Bytes(s: seq<Entry>): nat {
    if s == [] then 0 else Size(s[0]) + Bytes(s[1..])
  }

  /** The key set of the index, derived from the list. */
  function Keys(s: seq<Entry>): set<Key> {
    set e | e in s :: e.key
  }

  /** The index maps every key to exactly one node: no key occurs twice. */
  ghost predicate Distinct(s: seq<Entry>) {
    forall i, j :: 0 <= i < j < |s| ==> s[i].key != s[j].key
  }

  /** Position of `k` counted from the head. */
  function IndexOf(s: seq<Entry>, k: Key): (i: nat)
    requires k in Keys(s)
    ensures i < |s| && s[i].key == k
    ensures forall j :: 0 <= j < i ==> s[j].key != k
  {
    if s[0].key == k then 0
    else
      assert exists e :: e in s[1..] && e.key == k by {
        var e :| e in s && e.key == k;
        assert e != s[0];
      }
      1 + IndexOf(s[1..], k)
  }

  /** The list with every entry for `k` unlinked, the others kept in order. */
  function Remove(s: seq<Entry>, k: Key): (r: seq<Entry>)
    ensures |r| <= |s|
    ensures Keys(r) == Keys(s) - {k}
  {
    if s == [] then []
    else
      var front := if s[0].key == k then [] else [s[0]];
      KeysCons(s);
      KeysAppend(front, Remove(s[1..], k));
      front + Remove(s[1..], k)
  }

  lemma KeysAppend(a: seq<Entry>, b: seq<Entry>)
    ensures Keys(a + b) == Keys(a) + Keys(b)
  {
  }

  lemma {:induction false} BytesAppend(a: seq<Entry>, b: seq<Entry>)
    ensures Bytes(a + b) == Bytes(a) + Bytes(b)
  {
    if a == [] {
      assert a + b == b;
    } else {
      assert (a + b)[1..] == a[1..] + b;
      BytesAppend(a[1..], b);
    }
  }

  /** Every entry on the list is charged no more than the whole list. */
  lemma {:induction false} SizeAtMostBytes(s: seq<Entry>, i: nat)
    requires i < |s|
    ensures Size(s[i]) <= Bytes(s)
  {
    if i > 0 {
      SizeAtMostBytes(s[1..], i - 1);
    }
  }

  lemma DistinctPrefix(s: seq<Entry>, n: nat)
    requires Distinct(s) && n <= |s|
    ensures Distinct(s[..n])
  {
  }

  /** The index of a non-empty list is its head's key plus the index of the rest. */
  lemma KeysCons(s: seq<Entry>)
    requires s != []
    ensures Keys(s) == {s[0].key} + Keys(s[1..])
  {
    assert s == [s[0]] + s[1..];
  }

  lemma DistinctTailExcludesHead(s: seq<Entry>)
    requires Distinct(s) && s != []
    ensures Distinct(s[1..])
    ensures s[0].key !in Keys(s[1..])
  {
  }

  /** Linking a fresh key in front of a distinct list keeps it distinct. */
  lemma DistinctCons(e: Entry, s: seq<Entry>)
    requires Distinct(s) && e.key !in Keys(s)
    ensures Distinct([e] + s)
  {
    forall i, j | 0 <= i < j < |[e] + s|
      ensures ([e] + s)[i].key != ([e] + s)[j].key
    {
      if i == 0 {
        assert ([e] + s)[j] == s[j - 1];
        assert s[j - 1] in s;
      }
    }
  }

  lemma {:induction false} RemoveDistinct(s: seq<Entry>, k: Key)
    requires Distinct(s)
    ensures Distinct(Remove(s, k))
  {
    if s != [] {
      DistinctTailExcludesHead(s);
      RemoveDistinct(s[1..], k);
      if s[0].key != k {
        DistinctCons(s[0], Remove(s[1..], k));
      }
    }
  }

  /** Removing a key the list does not hold changes nothing. */
  lemma {:induction false} RemoveAbsent(s: seq<Entry>, k: Key)
    requires k !in Keys(s)
    ensures Remove(s, k) == s
  {
    if s != [] {
      KeysCons(s);
      RemoveAbsent(s[1..], k);
      assert [s[0]] + s[1..] == s;
    }
  }

  /** On a distinct list, `Remove` unlinks exactly the one node at the key's
      position and splices its neighbours together. */
  lemma {:induction false} RemoveAt(s: seq<Entry>, k: Key)
    requires Distinct(s) && k in Keys(s)
    ensures Remove(s, k) == s[..IndexOf(s, k)] + s[IndexOf(s, k) + 1..]
  {
    DistinctTailExcludesHead(s);
    RemoveCons(s, k);
    if s[0].key == k {
      RemoveAbsent(s[1..], k);
    } else {
      var t := s[1..];
      IndexOfTail(s, k);
      var i := IndexOf(t, k);
      RemoveAt(t, k);
      ConsSlices(s, i);
      assert Remove(s, k) == [s[0]] + (t[..i] + t[i + 1..]);
    }
  }

  /** Slicing a list around position `i + 1` is slicing its tail around `i`. */
  lemma ConsSlices(s: seq<Entry>, i: nat)
    requires i + 1 < |s|
    ensures s[..i + 1] + s[i + 2..] == [s[0]] + (s[1..][..i] + s[1..][i + 1..])
  {
    assert s[..i + 1] == [s[0]] + s[1..][..i];
    assert s[i + 2..] == s[1..][i + 1..];
  }

  /** The position of a key that is not at the head, one step in. */
  lemma IndexOfTail(s: seq<Entry>, k: Key)
    requires s != [] && s[0].key != k && k in Keys(s)
    ensures k in Keys(s[1..]) && IndexOf(s, k) == 1 + IndexOf(s[1..], k)
  {
    KeysCons(s);
  }

  /** Unlinking one key gives back exactly that entry's bytes. */
  lemma {:induction false} RemoveBytes(s: seq<Entry>, k: Key)
    requires Distinct(s) && k in Keys(s)
    ensures Bytes(Remove(s, k)) + Size(s[IndexOf(s, k)]) == Bytes(s)
  {
    DistinctTailExcludesHead(s);
    KeysCons(s);
    RemoveCons(s, k);
    if s[0].key == k {
      RemoveAbsent(s[1..], k);
    } else {
      var t := s[1..];
      RemoveBytes(t, k);
      assert IndexOf(s, k) == 1 + IndexOf(t, k);
      assert s[IndexOf(s, k)] == t[IndexOf(t, k)];
      assert ([s[0]] + Remove(t, k))[1..] == Remove(t, k);
    }
  }

  /** One step of `Remove`, for proofs that must not unfold it further. */
  lemma RemoveCons(s: seq<Entry>, k: Key)
    requires s != []
    ensures s[0].key == k ==> Remove(s, k) == Remove(s[1..], k)
    ensures s[0].key != k ==> Remove(s, k) == [s[0]] + Remove(s[1..], k)
  {
  }

  /** A non-empty prefix of `[head] + rest` is `head` followed by a prefix
      of `rest`, and what it leaves behind is the rest of `rest`. */
  lemma PrefixOfCons(head: Entry, rest: seq<Entry>, kept: seq<Entry>)
    requires kept <= [head] + rest && kept != []
    ensures kept[0] == head
    ensures kept[1..] == rest[..|kept| - 1]
    ensures ([head] + rest)[|kept|..] == rest[|kept| - 1..]
  {
  }
}
