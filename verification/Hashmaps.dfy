/** The hash map from keys to values. */
module Hashmaps {
  import opened Bytes
  import opened Records
  import opened Lists

  const SIZE := 123

  datatype Item<V> = Item(key: Key, value: V)

  class Entry<V> {
    /** Keys are replaced, but only ever by equal ones. */
    ghost const canon: CanonicalKey
    var key: Key
    var value: V

    constructor (key: Key, value: V)
      requires ValidKey(key)
      ensures this.key == key && this.value == value && canon == Canon(key)
    {
      this.key, this.value, this.canon := key, value, Canon(key);
    }
  }

  function BucketOf(c: CanonicalKey, signed: bool): (b: nat)
    ensures b < SIZE
  {
    HashOf(c, signed) % SIZE
  }

  ghost function InBucket<V>(entries: seq<Entry<V>>, signed: bool, b: nat): (r: seq<Entry<V>>)
    ensures forall e :: e in r ==> e in entries && BucketOf(e.canon, signed) == b
    ensures forall e :: e in entries && BucketOf(e.canon, signed) == b ==> e in r
  {
    Filter(entries, (e: Entry<V>) => BucketOf(e.canon, signed) == b)
  }

  lemma InBucketPrepend<V>(e: Entry<V>, entries: seq<Entry<V>>, signed: bool, b: nat)
    ensures InBucket([e] + entries, signed, b) ==
            if BucketOf(e.canon, signed) == b then [e] + InBucket(entries, signed, b) else InBucket(entries, signed, b)
  {
    FilterPrepend(e, entries, (x: Entry<V>) => BucketOf(x.canon, signed) == b);
  }

  lemma InBucketWithout<V>(entries: seq<Entry<V>>, e: Entry<V>, signed: bool, b: nat)
    ensures InBucket(Without(entries, e), signed, b) ==
            if BucketOf(e.canon, signed) == b then Without(InBucket(entries, signed, b), e) else InBucket(entries, signed, b)
  {
    FilterWithout(entries, e, (x: Entry<V>) => BucketOf(x.canon, signed) == b);
  }

  /** No two entries have equal keys. */
  ghost predicate NoTwins<V>(entries: seq<Entry<V>>) {
    forall i, j :: 0 <= i < j < |entries| ==> entries[i].canon != entries[j].canon
  }

  ghost predicate KeysOk<V>(entries: seq<Entry<V>>)
    reads entries`key
  {
    forall e :: e in entries ==> ValidKey(e.key) && Canon(e.key) == e.canon
  }

  /** The finite map, on keys modulo equality, that the entries stand for. */
  ghost predicate Represents<V>(entries: seq<Entry<V>>, contents: map<CanonicalKey, Item<V>>)
    reads entries
  {
    && (forall e :: e in entries ==> e.canon in contents && contents[e.canon] == Item(e.key, e.value))
    && (forall c :: c in contents ==> exists e :: e in entries && e.canon == c)
  }

  class HashMap<V> {
    const signed: bool
    const buckets: array<seq<Entry<V>>>
    var entries: seq<Entry<V>>
    ghost var contents: map<CanonicalKey, Item<V>>

    /** Each entry sits in exactly one bucket, the right one, and in the entry list; both are in the same order. */
    ghost predicate Indexed()
      reads this, buckets
    {
      buckets.Length == SIZE && forall b :: 0 <= b < SIZE ==> buckets[b] == InBucket(entries, signed, b)
    }

    ghost predicate Valid()
      reads this, buckets, entries
    {
      Indexed() && NoTwins(entries) && KeysOk(entries) && Represents(entries, contents)
    }

    constructor (signed: bool)
      ensures Valid() && contents == map[] && fresh(buckets) && entries == []
    {
      this.signed := signed;
      buckets := new seq<Entry<V>>[SIZE](_ => []);
      entries, contents := [], map[];
    }

    /** entry_get */
    method EntryGet(key: Key) returns (r: Option<Entry<V>>)
      requires Valid() && ValidKey(key)
      ensures r.None? <==> Canon(key) !in contents
      ensures r.Some? ==> r.value in entries && r.value.canon == Canon(key)
    {
      hide Represents, Canon, HashOf, InBucket;
      var h := KeyHash(key, signed);
      var bucket := buckets[h % SIZE];
      assert h % SIZE == BucketOf(Canon(key), signed);
      var i := 0;
      while i < |bucket|
        invariant 0 <= i <= |bucket|
        invariant forall k :: 0 <= k < i ==> bucket[k].canon != Canon(key)
      {
        assert bucket[i] in bucket;
        var same := KeyEqual(key, bucket[i].key);
        if same {
          Represented(bucket[i]);
          return Some(bucket[i]);
        }
        i := i + 1;
      }
      NotInBucket(key, bucket);
      return None;
    }

    lemma Represented(e: Entry<V>)
      requires Valid() && e in entries
      ensures e.canon in contents && contents[e.canon] == Item(e.key, e.value)
    {
    }

    lemma NotInBucket(key: Key, bucket: seq<Entry<V>>)
      requires Valid() && ValidKey(key) && bucket == InBucket(entries, signed, BucketOf(Canon(key), signed))
      requires forall k :: 0 <= k < |bucket| ==> bucket[k].canon != Canon(key)
      ensures Canon(key) !in contents
    {
      forall e | e in entries && BucketOf(e.canon, signed) == BucketOf(Canon(key), signed)
        ensures e.canon != Canon(key)
      {
        assert e in bucket;
      }
    }

    /** avahi_hashmap_lookup */
    method Lookup(key: Key) returns (r: Option<V>)
      requires Valid() && ValidKey(key)
      ensures r == if Canon(key) in contents then Some(contents[Canon(key)].value) else None
    {
      var e := EntryGet(key);
      if e.None? {
        return None;
      }
      return Some(e.value.value);
    }

    /** A new entry at the head of the entry list and of its bucket. */
    method Prepend(key: Key, value: V)
      requires Valid() && ValidKey(key) && Canon(key) !in contents
      modifies `entries, `contents, buckets
      ensures Valid() && contents == old(contents)[Canon(key) := Item(key, value)]
      ensures |entries| == |old(entries)| + 1 && entries[1..] == old(entries) && fresh(entries[0])
    {
      hide KeysOk, Represents, Canon, ValidKey;
      var e := new Entry(key, value);
      Prepended(e);
      entries := [e] + entries;
      var h := KeyHash(key, signed);
      buckets[h % SIZE] := [e] + buckets[h % SIZE];
      contents := contents[e.canon := Item(key, value)];
    }

    lemma Prepended(e: Entry<V>)
      requires Valid() && e.canon !in contents && ValidKey(e.key) && Canon(e.key) == e.canon
      ensures NoTwins([e] + entries) && KeysOk([e] + entries)
      ensures Represents([e] + entries, contents[e.canon := Item(e.key, e.value)])
      ensures forall b: nat {:trigger InBucket([e] + entries, signed, b)} ::
                InBucket([e] + entries, signed, b) ==
                if BucketOf(e.canon, signed) == b then [e] + InBucket(entries, signed, b) else InBucket(entries, signed, b)
    {
      forall b: nat {
        InBucketPrepend(e, entries, signed, b);
      }
      var more, c := [e] + entries, contents[e.canon := Item(e.key, e.value)];
      forall k | k in c
        ensures exists x :: x in more && x.canon == k
      {
        if k == e.canon {
          assert e in more;
        } else {
          var x :| x in entries && x.canon == k;
          assert x in more;
        }
      }
    }

    /** avahi_hashmap_insert never overwrites: an entry with an equal key stays as it is. */
    method Insert(key: Key, value: V) returns (existed: bool)
      requires Valid() && ValidKey(key)
      modifies `entries, `contents, buckets
      ensures Valid() && existed == (Canon(key) in old(contents))
      ensures contents == if existed then old(contents) else old(contents)[Canon(key) := Item(key, value)]
      ensures existed ==> entries == old(entries)
    {
      var e := EntryGet(key);
      existed := e.Some?;
      if !existed {
        Prepend(key, value);
      }
    }

    /** avahi_hashmap_replace always stores the new key and value. */
    method Replace(key: Key, value: V) returns (existed: bool)
      requires Valid() && ValidKey(key)
      modifies `entries, `contents, buckets, entries
      ensures Valid() && existed == (Canon(key) in old(contents))
      ensures contents == old(contents)[Canon(key) := Item(key, value)]
      ensures forall e :: e in entries ==> e in old(entries) || fresh(e)
    {
      var found := EntryGet(key);
      existed := found.Some?;
      if existed {
        var e := found.value;
        Others(e);
        e.key := key;
        e.value := value;
        contents := contents[e.canon := Item(key, value)];
      } else {
        Prepend(key, value);
      }
    }

    lemma Others(e: Entry<V>)
      requires NoTwins(entries) && e in entries
      ensures forall x :: x in entries && x != e ==> x.canon != e.canon
    {
    }

    /** avahi_hashmap_remove with entry_free */
    method Remove(key: Key)
      requires Valid() && ValidKey(key)
      modifies `entries, `contents, buckets
      ensures Valid() && contents == old(contents) - {Canon(key)}
      ensures forall e :: e in entries ==> e in old(entries)
    {
      hide KeysOk, Represents, ValidKey, Canon, HashOf, NoTwins, Without;
      var found := EntryGet(key);
      if found.Some? {
        var e := found.value;
        Removed(e);
        var h := KeyHash(e.key, signed);
        buckets[h % SIZE] := Without(buckets[h % SIZE], e);
        entries := Without(entries, e);
        contents := contents - {e.canon};
      }
    }

    lemma Removed(e: Entry<V>)
      requires Valid() && e in entries
      ensures ValidKey(e.key) && Canon(e.key) == e.canon
      ensures var less := Without(entries, e);
              NoTwins(less) && KeysOk(less) && Represents(less, contents - {e.canon})
      ensures forall b: nat {:trigger InBucket(Without(entries, e), signed, b)} ::
                InBucket(Without(entries, e), signed, b) ==
                if BucketOf(e.canon, signed) == b then Without(InBucket(entries, signed, b), e) else InBucket(entries, signed, b)
    {
      forall b: nat {
        InBucketWithout(entries, e, signed, b);
      }
      var less := Without(entries, e);
      Others(e);
      WithoutNoTwins(entries, e);
      forall k | k in contents - {e.canon}
        ensures exists x :: x in less && x.canon == k
      {
        var x :| x in entries && x.canon == k;
        assert x in less;
      }
    }
  }

  lemma WithoutNoTwins<V>(entries: seq<Entry<V>>, e: Entry<V>)
    requires NoTwins(entries)
    ensures NoTwins(Without(entries, e)) && e !in Without(entries, e)
  {
    WithoutUnique(entries, e, (x: Entry<V>) => x.canon);
  }
}
