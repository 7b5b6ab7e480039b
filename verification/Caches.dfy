/** The record cache: one list of entries, indexed by key, each with its own expiry. */
module Caches {
  import opened Bytes
  import opened NameEquality
  import opened Records
  import opened TimeVals
  import opened Lists
  import opened Hashmaps
  import opened CacheLives

  class CacheEntry {
    /** Records are replaced, but only ever by ones that are equal up to TTL. */
    ghost const id: CanonicalRecord
    var record: Record
    var timestamp: TimeVal
    var expiry: TimeVal
    var state: State
    var cacheFlush: bool
    var origin: Text
    var poofNum: nat
    var poofTimestamp: TimeVal
    var poofAddress: Text

    constructor (r: Record)
      requires ValidRecord(r)
      ensures record == r && id == CanonRecord(r)
    {
      id := CanonRecord(r);
      record := r;
      timestamp, expiry, poofTimestamp := TimeVal(0, 0), TimeVal(0, 0), TimeVal(0, 0);
      state, cacheFlush, origin, poofNum, poofAddress := ValidState, false, [], 0, [];
    }

    ghost function Lived(): Life
      reads `record, `state, `timestamp, `expiry
    {
      Life(state, record.ttl, timestamp, expiry)
    }

    ghost function Watched(): PoofLife
      reads `state, `poofNum, `poofTimestamp, `poofAddress
    {
      PoofLife(state, poofNum, poofTimestamp, poofAddress)
    }

    twostate predicate Untouched()
      reads `state, `expiry, `poofNum, `poofTimestamp, `poofAddress
    {
      Watched() == old(Watched()) && expiry == old(expiry)
    }

    /** An entry given up by the question goes in one second; any other keeps its expiry. */
    twostate predicate Questioned(now: TimeVal)
      reads `state, `expiry
    {
      expiry == if state == PoofFinal && old(state) != PoofFinal then Add(now, 1000000) else old(expiry)
    }
  }

  /** avahi_key_pattern_match */
  predicate Matches(pattern: Key, k: CanonicalKey)
    requires ValidKey(pattern)
  {
    && Canonical(pattern.name) == k.labels
    && (pattern.rtype == k.rtype || pattern.rtype == TYPE_ANY)
    && (pattern.clazz == k.clazz || pattern.clazz == CLASS_ANY)
  }

  /** A pattern stands for the keys of its name, of any type if its own is 255, and of any class if its own is 255. */
  lemma PatternStandsFor(pattern: Key, k: Key)
    requires ValidKey(pattern) && ValidKey(k)
    ensures Matches(pattern, Canon(k)) <==>
            && Canonical(pattern.name) == Canonical(k.name)
            && pattern.rtype in {255, k.rtype as int} && pattern.clazz in {255, k.clazz as int}
  {
  }

  ghost function WithKey(entries: seq<CacheEntry>, c: CanonicalKey): (r: seq<CacheEntry>)
    ensures forall e :: e in r ==> e in entries && e.id.key == c
    ensures forall e :: e in entries && e.id.key == c ==> e in r
  {
    Filter(entries, (e: CacheEntry) => e.id.key == c)
  }

  lemma WithKeyPrepend(e: CacheEntry, entries: seq<CacheEntry>, c: CanonicalKey)
    ensures WithKey([e] + entries, c) == if e.id.key == c then [e] + WithKey(entries, c) else WithKey(entries, c)
  {
    FilterPrepend(e, entries, (x: CacheEntry) => x.id.key == c);
  }

  lemma WithKeyWithout(entries: seq<CacheEntry>, e: CacheEntry, c: CanonicalKey)
    ensures WithKey(Without(entries, e), c) ==
            if e.id.key == c then Without(WithKey(entries, c), e) else WithKey(entries, c)
  {
    FilterWithout(entries, e, (x: CacheEntry) => x.id.key == c);
  }

  /** No two records of the cache are equal up to TTL. */
  ghost predicate NoTwinRecords(entries: seq<CacheEntry>) {
    forall i, j :: 0 <= i < j < |entries| ==> entries[i].id != entries[j].id
  }

  lemma FirstNoTwinRecords(entries: seq<CacheEntry>, e: CacheEntry)
    requires NoTwinRecords(entries) && forall x :: x in entries ==> x.id != e.id
    ensures NoTwinRecords([e] + entries)
  {
  }

  lemma WithoutNoTwinRecords(entries: seq<CacheEntry>, e: CacheEntry)
    requires NoTwinRecords(entries)
    ensures NoTwinRecords(Without(entries, e)) && e !in Without(entries, e)
  {
    WithoutUnique(entries, e, (x: CacheEntry) => x.id);
  }

  ghost predicate RecordsOk(entries: seq<CacheEntry>)
    reads entries`record
  {
    forall e :: e in entries ==> ValidRecord(e.record) && CanonRecord(e.record) == e.id && !IsPattern(e.record.key)
  }

  /** Each entry expires inside the window its state fixes. */
  ghost predicate Lives(entries: seq<CacheEntry>)
    reads entries`record, entries`state, entries`timestamp, entries`expiry
  {
    forall e :: e in entries ==> e.record.ttl > 0 && InWindow(e.Lived())
  }

  ghost function ChainIn(contents: map<CanonicalKey, Item<seq<CacheEntry>>>, c: CanonicalKey): seq<CacheEntry> {
    if c in contents then contents[c].value else []
  }

  /** The chain of each key is the entry list filtered by that key, in the same order. */
  ghost predicate Chained(contents: map<CanonicalKey, Item<seq<CacheEntry>>>, entries: seq<CacheEntry>) {
    && (forall c {:trigger ChainIn(contents, c)} :: ChainIn(contents, c) == WithKey(entries, c))
    && (forall c :: c in contents ==> contents[c].value != [])
  }

  /** The key the map holds for a chain is the key of its first record, which lives as long as the chain. */
  ghost predicate KeysOwned(contents: map<CanonicalKey, Item<seq<CacheEntry>>>, entries: seq<CacheEntry>)
    reads entries`record
  {
    forall c :: c in contents && contents[c].value != [] && contents[c].value[0] in entries ==>
                  contents[c].key == contents[c].value[0].record.key
  }

  lemma ChainedPrepend(contents: map<CanonicalKey, Item<seq<CacheEntry>>>, entries: seq<CacheEntry>, e: CacheEntry,
                       item: Item<seq<CacheEntry>>)
    requires Chained(contents, entries) && item.value == [e] + ChainIn(contents, e.id.key)
    ensures Chained(contents[e.id.key := item], [e] + entries)
  {
    var more := contents[e.id.key := item];
    forall c
      ensures ChainIn(more, c) == WithKey([e] + entries, c)
    {
      WithKeyPrepend(e, entries, c);
      assert ChainIn(contents, c) == WithKey(entries, c);
    }
  }

  lemma ChainedWithout(contents: map<CanonicalKey, Item<seq<CacheEntry>>>, entries: seq<CacheEntry>, e: CacheEntry,
                       item: Item<seq<CacheEntry>>)
    requires Chained(contents, entries) && e in entries && item.value == Without(ChainIn(contents, e.id.key), e)
    ensures e.id.key in contents
    ensures item.value != [] ==> Chained(contents[e.id.key := item], Without(entries, e))
    ensures item.value == [] ==> Chained(contents - {e.id.key}, Without(entries, e))
  {
    hide WithKey, Without;
    assert ChainIn(contents, e.id.key) == WithKey(entries, e.id.key);
    assert e in WithKey(entries, e.id.key);
    var less := if item.value == [] then contents - {e.id.key} else contents[e.id.key := item];
    forall c
      ensures ChainIn(less, c) == WithKey(Without(entries, e), c)
    {
      WithKeyWithout(entries, e, c);
      assert ChainIn(contents, c) == WithKey(entries, c);
    }
  }

  lemma ReplacedInWindow(l: Life)
    ensures InWindow(l.(state := ReplaceFinal))
    ensures Percent(l.state).None? ==> InWindow(l)
  {
  }

  lemma RenewedInWindow(l: Life, rand: nat)
    requires l.ttl > 0 && rand <= RAND_MAX && l.state == ValidState
    requires l.expiry == NextExpiry(l.timestamp, l.ttl, 80, rand)
    ensures InWindow(l)
  {
    NextExpiryInWindow(l.timestamp, l.ttl, 80, rand);
  }

  lemma KeptBehind(before: seq<CacheEntry>, after: seq<CacheEntry>)
    requires after == before || (after != [] && after[1..] == before)
    ensures forall e :: e in before ==> e in after
  {
    if after != before {
      assert after == [after[0]] + after[1..];
    }
  }

  lemma IdOfRecord(r: Record)
    requires ValidRecord(r)
    ensures ValidKey(r.key) && CanonRecord(r).key == Canon(r.key)
  {
  }

  /** Storing a chain again under an equal key changes no chain. */
  lemma ChainedSame(contents: map<CanonicalKey, Item<seq<CacheEntry>>>, entries: seq<CacheEntry>, c: CanonicalKey,
                    item: Item<seq<CacheEntry>>)
    requires Chained(contents, entries) && item.value == WithKey(entries, c) && item.value != []
    ensures Chained(contents[c := item], entries)
  {
    hide WithKey;
    var same := contents[c := item];
    forall k
      ensures ChainIn(same, k) == WithKey(entries, k)
    {
      assert ChainIn(contents, k) == WithKey(entries, k);
    }
  }

  /** An entry can be the first of its own chain only. */
  lemma OwnHead(contents: map<CanonicalKey, Item<seq<CacheEntry>>>, entries: seq<CacheEntry>, e: CacheEntry)
    requires Chained(contents, entries)
    ensures forall c :: c in contents && contents[c].value != [] && contents[c].value[0] == e ==>
              c == e.id.key && WithKey(entries, c) != [] && WithKey(entries, c)[0] == e
  {
    hide WithKey;
    forall c | c in contents && contents[c].value != [] && contents[c].value[0] == e
      ensures c == e.id.key && WithKey(entries, c) != [] && WithKey(entries, c)[0] == e
    {
      assert ChainIn(contents, c) == WithKey(entries, c);
      assert contents[c].value[0] in WithKey(entries, c);
    }
  }

  /** The entry was replaced if it was older than one second, and is as it was if not. */
  twostate predicate FlushedIfOld(e: CacheEntry, now: TimeVal)
    reads e
  {
    if Diff(now, old(e.timestamp)) > 1000000 then e.state == ReplaceFinal && e.expiry == Add(now, 1000000)
    else e.state == old(e.state) && e.expiry == old(e.expiry)
  }

  /** Another record: nothing but a flush of its key touches it. */
  twostate predicate Bystander(e: CacheEntry, flushed: bool, now: TimeVal)
    reads e
  {
    && (if flushed then FlushedIfOld(e, now) else e.state == old(e.state) && e.expiry == old(e.expiry))
    && e.record == old(e.record) && e.timestamp == old(e.timestamp) && e.cacheFlush == old(e.cacheFlush)
    && e.origin == old(e.origin) && e.poofNum == old(e.poofNum)
    && e.poofTimestamp == old(e.poofTimestamp) && e.poofAddress == old(e.poofAddress)
  }

  /** The entry is valid from now on, and will expire at 80 percent of its TTL or less than two percent later. */
  ghost predicate Touched(e: CacheEntry, flush: bool, origin: Text, now: TimeVal)
    reads e
  {
    e.origin == origin && e.timestamp == now && e.state == ValidState && e.cacheFlush == flush && Between(e.Lived(), 80, 82)
  }

  lemma OwnedFirst(contents: map<CanonicalKey, Item<seq<CacheEntry>>>, entries: seq<CacheEntry>, e: CacheEntry,
                   item: Item<seq<CacheEntry>>)
    requires Chained(contents, entries) && KeysOwned(contents, entries) && RecordsOk(entries)
    requires item.value != [] && item.value[0] == e && item.key == e.record.key
    requires ValidRecord(e.record) && CanonRecord(e.record) == e.id && !IsPattern(e.record.key) && e !in entries
    ensures RecordsOk([e] + entries) && KeysOwned(contents[e.id.key := item], [e] + entries)
  {
    hide ValidRecord, CanonRecord, IsPattern, WithKey;
    forall c | c in contents && c != e.id.key
      ensures contents[c].value[0] in entries
    {
      assert ChainIn(contents, c) == WithKey(entries, c);
    }
  }

  lemma OwnedWithout(contents: map<CanonicalKey, Item<seq<CacheEntry>>>, entries: seq<CacheEntry>, e: CacheEntry,
                     item: Item<seq<CacheEntry>>)
    requires KeysOwned(contents, entries) && RecordsOk(entries)
    requires item.value != [] ==> item.key == item.value[0].record.key
    ensures RecordsOk(Without(entries, e))
    ensures KeysOwned(contents[e.id.key := item], Without(entries, e))
    ensures KeysOwned(contents - {e.id.key}, Without(entries, e))
  {
    hide ValidRecord, CanonRecord, Without;
  }

  class Cache {
    const index: HashMap<seq<CacheEntry>>
    const maxEntries: nat
    var entries: seq<CacheEntry>
    var nEntries: nat
    var lastRand: nat
    var lastRandTime: int

    /** The list, the index and the counter describe one set of records, with no two equal up to TTL. */
    ghost predicate Structure()
      reads `entries, `nEntries, index, index.buckets, index.entries, entries`record
    {
      && index.Valid() && nEntries == |entries| <= maxEntries
      && NoTwinRecords(entries) && RecordsOk(entries)
      && Chained(index.contents, entries) && KeysOwned(index.contents, entries)
    }

    ghost predicate Valid()
      reads this, index, index.buckets, index.entries
      reads entries`record, entries`state, entries`timestamp, entries`expiry
    {
      Structure() && Lives(entries) && lastRand <= RAND_MAX
    }

    constructor (maxEntries: nat, signed: bool)
      ensures Valid() && entries == [] && this.maxEntries == maxEntries
      ensures fresh(index) && fresh(index.buckets)
    {
      this.maxEntries := maxEntries;
      index := new HashMap(signed);
      entries, nEntries, lastRand, lastRandTime := [], 0, 0, 0;
    }

    ghost predicate Knows(id: CanonicalRecord)
      reads `entries
    {
      exists e :: e in entries && e.id == id
    }

    lemma RecordKey(e: CacheEntry)
      requires RecordsOk(entries) && e in entries
      ensures ValidKey(e.record.key) && Canon(e.record.key) == e.id.key
    {
    }

    lemma ChainOf(e: CacheEntry)
      requires Chained(index.contents, entries) && e in entries
      ensures e.id.key in index.contents && index.contents[e.id.key].value == WithKey(entries, e.id.key)
    {
      assert ChainIn(index.contents, e.id.key) == WithKey(entries, e.id.key);
    }

    /** remove_entry */
    method RemoveEntry(e: CacheEntry)
      requires Structure() && e in entries
      modifies `entries, `nEntries, index, index.buckets, index.entries
      ensures Structure() && entries == Without(old(entries), e)
      ensures forall i :: 0 <= i < |index.entries| ==> index.entries[i] in old(index.entries) || fresh(index.entries[i])
    {
      hide Chained, NoTwinRecords, HashMap.Valid, KeysOwned, RecordsOk, ValidKey, Canon, Without, WithKey;
      RecordKey(e);
      ChainOf(e);
      var found := index.Lookup(e.record.key);
      var chain := Without(found.value, e);
      WithoutNoTwinRecords(entries, e);
      ghost var item := Item(if chain != [] then chain[0].record.key else e.record.key, chain);
      ChainedWithout(index.contents, entries, e, item);
      OwnedWithout(index.contents, entries, e, item);
      if chain != [] {
        RecordKey(chain[0]);
        var _ := index.Replace(chain[0].record.key, chain);
      } else {
        index.Remove(e.record.key);
      }
      entries := Without(entries, e);
      nEntries := nEntries - 1;
    }

    // ---------- Lookup ----------

    /** avahi_key_pattern_match */
    method PatternMatch(pattern: Key, k: Key) returns (r: bool)
      requires ValidKey(pattern) && ValidKey(k)
      ensures r <==> Matches(pattern, Canon(k))
    {
      var same := DomainEqual(pattern.name, k.name);
      r := && same
           && (pattern.rtype == k.rtype || pattern.rtype == TYPE_ANY)
           && (pattern.clazz == k.clazz || pattern.clazz == CLASS_ANY);
    }

    /** avahi_cache_walk: by exact key the index gives the same entries in the same order as the whole list would. */
    method Walk(pattern: Key) returns (visited: seq<CacheEntry>)
      requires Structure() && ValidKey(pattern)
      ensures visited == Matching(entries, pattern)
    {
      if IsPattern(pattern) {
        visited := WalkAll(pattern);
      } else {
        hide Chained, KeysOwned, NoTwinRecords, HashMap.Valid, ValidRecord, CanonRecord, ValidKey, Matching;
        MatchingByKey(entries, pattern);
        var found := index.Lookup(pattern);
        ChainFor(Canon(pattern));
        visited := if found.Some? then found.value else [];
      }
    }

    lemma ChainFor(c: CanonicalKey)
      requires Chained(index.contents, entries)
      ensures (if c in index.contents then index.contents[c].value else []) == WithKey(entries, c)
    {
      assert ChainIn(index.contents, c) == WithKey(entries, c);
    }

    method WalkAll(pattern: Key) returns (visited: seq<CacheEntry>)
      requires RecordsOk(entries) && ValidKey(pattern)
      ensures visited == Matching(entries, pattern)
    {
      hide Matches, Matching, ValidKey, Canon, ValidRecord, CanonRecord;
      visited := [];
      var i := 0;
      assert entries[0..] == entries;
      while i < |entries|
        invariant 0 <= i <= |entries|
        invariant Matching(entries, pattern) == visited + Matching(entries[i..], pattern)
      {
        var e := entries[i];
        RecordKey(e);
        assert entries[i..] == [e] + entries[i + 1..];
        MatchingPrepend(e, entries[i + 1..], pattern);
        var matches := PatternMatch(pattern, e.record.key);
        if matches {
          Assoc(visited, [e], Matching(entries[i + 1..], pattern));
          visited := visited + [e];
        }
        i := i + 1;
      }
      MatchingNothing(entries[i..], pattern);
    }

    /** The first of some entries whose record equals r up to TTL. */
    method Find(chain: seq<CacheEntry>, r: Record) returns (found: Option<CacheEntry>)
      requires RecordsOk(chain) && ValidRecord(r)
      ensures found.None? ==> forall e :: e in chain ==> e.id != CanonRecord(r)
      ensures found.Some? ==> found.value in chain && found.value.id == CanonRecord(r)
    {
      hide ValidRecord, CanonRecord;
      for i := 0 to |chain|
        invariant forall k :: 0 <= k < i ==> chain[k].id != CanonRecord(r)
      {
        assert chain[i] in chain;
        var same := RecordEqualNoTtl(chain[i].record, r);
        if same {
          return Some(chain[i]);
        }
      }
      return None;
    }

    /** lookup_record */
    method LookupRecord(r: Record) returns (found: Option<CacheEntry>)
      requires Structure() && ValidRecord(r)
      ensures found.None? ==> forall e :: e in entries ==> e.id != CanonRecord(r)
      ensures found.Some? ==> found.value in entries && found.value.id == CanonRecord(r)
    {
      var visited := Walk(r.key);
      MatchingHas(entries, r);
      found := Find(visited, r);
    }

    // ---------- Expiry ----------

    /** next_expiry; the random number is drawn again after ten seconds at the earliest. */
    method SetNextExpiry(e: CacheEntry, percent: nat, clock: int, rand: nat)
      requires rand <= RAND_MAX
      modifies `lastRand, `lastRandTime, e`expiry
      ensures lastRand == if clock >= old(lastRandTime) + 10 then rand else old(lastRand)
      ensures e.expiry == NextExpiry(e.timestamp, e.record.ttl, percent, lastRand)
    {
      var usec := e.record.ttl * 10000;
      var left := usec * percent;
      var right := usec * (percent + 2);
      if clock >= lastRandTime + 10 {
        lastRand := rand;
        lastRandTime := clock;
      }
      usec := left + (right - left) * lastRand / (RAND_MAX + 1);
      e.expiry := Add(e.timestamp, usec);
    }

    /** expire_in_one_second */
    method ExpireInOneSecond(e: CacheEntry, state: State, now: TimeVal)
      modifies e`state, e`expiry
      ensures e.state == state && e.expiry == Add(now, 1000000)
    {
      e.state := state;
      e.expiry := Add(now, 1000000);
    }

    /** The entries of one key that are older than one second are replaced; they stay for one second more. */
    method FlushOld(chain: seq<CacheEntry>, now: TimeVal)
      requires Distinct(chain)
      modifies chain`state, chain`expiry
      ensures forall e :: e in chain ==> FlushedIfOld(e, now)
    {
      for i := 0 to |chain|
        invariant forall k :: 0 <= k < i ==> FlushedIfOld(chain[k], now)
        invariant forall k :: i <= k < |chain| ==> chain[k].state == old(chain[k].state) && chain[k].expiry == old(chain[k].expiry)
      {
        if Diff(now, chain[i].timestamp) > 1000000 {
          ExpireInOneSecond(chain[i], ReplaceFinal, now);
        }
      }
    }

    /** The last part of avahi_cache_update: the entry is valid from now on. */
    method Touch(e: CacheEntry, flush: bool, origin: Text, now: TimeVal, clock: int, rand: nat)
      requires rand <= RAND_MAX && lastRand <= RAND_MAX && e.record.ttl > 0
      modifies `lastRand, `lastRandTime, e`origin, e`timestamp, e`expiry, e`state, e`cacheFlush
      ensures lastRand <= RAND_MAX && Touched(e, flush, origin, now) && InWindow(e.Lived())
    {
      e.origin := origin;
      e.timestamp := now;
      SetNextExpiry(e, 80, clock, rand);
      e.state := ValidState;
      e.cacheFlush := flush;
      NextExpiryInWindow(now, e.record.ttl, 80, lastRand);
      WindowsInNumbers(e.Lived());
    }

    /** Every entry expires before 102 percent of its TTL, those apart that were set to go in one second. */
    lemma NoneKeptForLong(e: CacheEntry)
      requires Valid() && e in entries
      ensures e.state.PoofFinal? || e.state.GoodbyeFinal? || e.state.ReplaceFinal? || Between(e.Lived(), 80, 102)
    {
      WindowsInNumbers(e.Lived());
    }

    /** The record of a known entry is replaced by an equal one, and the map's key with it if the entry is the first. */
    method StoreRecord(e: CacheEntry, r: Record, chain: seq<CacheEntry>)
      requires Structure() && e in entries && ValidRecord(r) && !IsPattern(r.key) && e.id == CanonRecord(r)
      requires chain == WithKey(entries, Canon(r.key)) && chain != []
      modifies index, index.buckets, index.entries, e`record
      ensures Structure() && e.record == r
      ensures forall x :: x in index.entries ==> x in old(index.entries) || fresh(x)
    {
      hide Chained, NoTwinRecords, HashMap.Valid, ValidRecord, CanonRecord, ValidKey, Canon, WithKey;
      IdOfRecord(r);
      ChainOf(e);
      ghost var contents := index.contents;
      OwnHead(contents, entries, e);
      if e == chain[0] {
        ChainedSame(contents, entries, e.id.key, Item(r.key, chain));
        var _ := index.Replace(r.key, chain);
      }
      e.record := r;
    }

    /** A new entry at the head of the list and of its chain. */
    method AddEntry(r: Record, chain: seq<CacheEntry>) returns (e: CacheEntry)
      requires Structure() && nEntries < maxEntries && ValidRecord(r) && !IsPattern(r.key)
      requires forall x :: x in entries ==> x.id != CanonRecord(r)
      requires chain == WithKey(entries, Canon(r.key))
      modifies `entries, `nEntries, index, index.buckets, index.entries
      ensures Structure() && fresh(e) && entries == [e] + old(entries) && e.record == r && e.id == CanonRecord(r)
      ensures forall x :: x in index.entries ==> x in old(index.entries) || fresh(x)
    {
      hide Chained, HashMap.Valid, ValidRecord, CanonRecord, ValidKey, Canon, WithKey, IsPattern, NoTwinRecords, KeysOwned, RecordsOk;
      e := new CacheEntry(r);
      assert e !in entries;
      FirstNoTwinRecords(entries, e);
      IdOfRecord(r);
      ChainFor(e.id.key);
      ChainedPrepend(index.contents, entries, e, Item(r.key, [e] + chain));
      OwnedFirst(index.contents, entries, e, Item(r.key, [e] + chain));
      var _ := index.Replace(r.key, [e] + chain);
      entries := [e] + entries;
      nEntries := nEntries + 1;
    }

    lemma ChainDistinct(c: CanonicalKey)
      requires NoTwinRecords(entries)
      ensures Distinct(WithKey(entries, c))
    {
      assert Distinct(entries);
      FilterDistinct(entries, (e: CacheEntry) => e.id.key == c);
    }

    lemma ChainMembers(c: CanonicalKey)
      ensures forall e :: e in WithKey(entries, c) <==> e in entries && e.id.key == c
    {
    }

    lemma OnlyEntry(e: CacheEntry)
      requires Structure() && e in entries
      ensures forall x :: x in entries && x.id == e.id ==> x == e
    {
    }

    /** The part of avahi_cache_update before the record itself is stored. */
    method FlushKey(chain: seq<CacheEntry>, now: TimeVal)
      requires Valid() && Distinct(chain) && forall i :: 0 <= i < |chain| ==> chain[i] in entries
      modifies entries`state, entries`expiry
      ensures Valid()
      ensures forall e :: e in entries ==>
                if e in chain then FlushedIfOld(e, now) else e.state == old(e.state) && e.expiry == old(e.expiry)
    {
      hide Structure, InWindow;
      FlushOld(chain, now);
      forall e | e in entries
        ensures e.record.ttl > 0 && InWindow(e.Lived())
      {
        ReplacedInWindow(e.Lived());
        if e in chain {
          assert FlushedIfOld(e, now);
        }
      }
    }

    /** avahi_cache_update for a goodbye: a known record goes in one second. */
    method Goodbye(r: Record, now: TimeVal)
      requires Valid() && ValidRecord(r)
      modifies entries`state, entries`expiry
      ensures Valid()
      ensures forall e :: e in entries ==>
                if e.id == CanonRecord(r) then e.state == GoodbyeFinal && e.expiry == Add(now, 1000000)
                else e.state == old(e.state) && e.expiry == old(e.expiry)
    {
      hide CanonRecord, ValidRecord, Chained, KeysOwned, RecordsOk, HashMap.Valid;
      var found := LookupRecord(r);
      if found.Some? {
        ExpireInOneSecond(found.value, GoodbyeFinal, now);
      }
    }

    /** The chain of the record's key, flushed if asked for, and the entry of the record itself. */
    method Prepare(r: Record, flush: bool, now: TimeVal) returns (chain: seq<CacheEntry>, known: Option<CacheEntry>)
      requires Valid() && ValidRecord(r)
      requires !IsPattern(r.key)
      modifies entries`state, entries`expiry
      ensures Valid() && chain == WithKey(entries, Canon(r.key))
      ensures known.None? ==> !Knows(CanonRecord(r))
      ensures known.Some? ==> known.value in chain && known.value.id == CanonRecord(r)
      ensures forall e :: e in entries ==>
                if flush && e.id.key == Canon(r.key) then FlushedIfOld(e, now)
                else e.state == old(e.state) && e.expiry == old(e.expiry)
    {
      hide CanonRecord, ValidRecord, Canon, ValidKey, Chained, KeysOwned, HashMap.Valid, WithKey, InWindow, IsPattern, NoTwinRecords;
      IdOfRecord(r);
      ChainFor(Canon(r.key));
      ChainDistinct(Canon(r.key));
      ChainMembers(Canon(r.key));
      var found := index.Lookup(r.key);
      chain := if found.Some? then found.value else [];
      if flush {
        FlushKey(chain, now);
      }
      known := Find(chain, r);
    }

    /** avahi_cache_update for anything else: the record is in the cache afterwards, unless it is new and the cache full. */
    method Learn(r: Record, flush: bool, origin: Text, now: TimeVal, clock: int, rand: nat)
      requires Valid() && ValidRecord(r) && !IsPattern(r.key) && r.ttl > 0 && rand <= RAND_MAX
      modifies this, index, index.buckets, index.entries, entries
      ensures Valid()
      ensures if old(Knows(CanonRecord(r)) || nEntries >= maxEntries) then entries == old(entries)
              else |entries| == |old(entries)| + 1 && entries[1..] == old(entries) && fresh(entries[0]) &&
                   entries[0].id == CanonRecord(r)
      ensures forall e :: e in entries && e.id == CanonRecord(r) ==> e.record == r && Touched(e, flush, origin, now)
      ensures forall e :: e in old(entries) && e.id != CanonRecord(r) ==> Bystander(e, flush && e.id.key == Canon(r.key), now)
    {
      hide Structure, CanonRecord, ValidRecord, Canon, ValidKey, Chained, KeysOwned, HashMap.Valid, WithKey, InWindow, NextExpiry;
      hide Touched, Diff;
      var chain, known := Prepare(r, flush, now);
      if known.Some? {
        Renew(known.value, r, chain, flush, origin, now, clock, rand);
      } else if nEntries < maxEntries {
        var _ := AddNew(r, chain, flush, origin, now, clock, rand);
      }
    }

    /** The entry that is there already gets the new record, and is valid from now on. */
    method Renew(e: CacheEntry, r: Record, chain: seq<CacheEntry>, flush: bool, origin: Text, now: TimeVal, clock: int, rand: nat)
      requires Valid() && e in entries && ValidRecord(r) && !IsPattern(r.key) && e.id == CanonRecord(r)
      requires chain == WithKey(entries, Canon(r.key)) && chain != [] && r.ttl > 0 && rand <= RAND_MAX
      modifies `lastRand, `lastRandTime, index, index.buckets, index.entries
      modifies e`record, e`origin, e`timestamp, e`expiry, e`state, e`cacheFlush
      ensures Valid() && e.record == r && Touched(e, flush, origin, now)
      ensures forall x :: x in entries && x.id == e.id ==> x == e
    {
      hide Structure, CanonRecord, ValidRecord, Canon, ValidKey, Chained, KeysOwned, HashMap.Valid, WithKey, InWindow, NextExpiry;
      hide Touched;
      OnlyEntry(e);
      StoreRecord(e, r, chain);
      Touch(e, flush, origin, now, clock, rand);
    }

    /** A new entry, valid from now on. */
    method AddNew(r: Record, chain: seq<CacheEntry>, flush: bool, origin: Text, now: TimeVal, clock: int, rand: nat)
      returns (e: CacheEntry)
      requires Valid() && nEntries < maxEntries && ValidRecord(r) && !IsPattern(r.key)
      requires forall x :: x in entries ==> x.id != CanonRecord(r)
      requires chain == WithKey(entries, Canon(r.key)) && r.ttl > 0 && rand <= RAND_MAX
      modifies `lastRand, `lastRandTime, `entries, `nEntries, index, index.buckets, index.entries
      ensures Valid() && fresh(e) && entries == [e] + old(entries)
      ensures e.record == r && e.id == CanonRecord(r) && Touched(e, flush, origin, now)
    {
      hide Structure, CanonRecord, ValidRecord, Canon, ValidKey, Chained, KeysOwned, HashMap.Valid, WithKey, InWindow, NextExpiry;
      hide Touched;
      e := AddEntry(r, chain);
      Touch(e, flush, origin, now, clock, rand);
    }

    /** avahi_cache_update */
    method Update(r: Record, flush: bool, origin: Text, now: TimeVal, clock: int, rand: nat)
      requires Valid() && ValidRecord(r) && (r.ttl > 0 ==> !IsPattern(r.key)) && rand <= RAND_MAX
      modifies this, index, index.buckets, index.entries, entries
      ensures Valid()
      ensures r.ttl == 0 ==> entries == old(entries)
      ensures forall e :: e in entries && e.id == CanonRecord(r) ==>
                if r.ttl == 0 then e.state == GoodbyeFinal && e.expiry == Add(now, 1000000)
                else e.record == r && Touched(e, flush, origin, now)
      ensures forall e :: e in old(entries) ==> e in entries
      ensures forall e :: e in old(entries) && e.id != CanonRecord(r) ==>
                Bystander(e, r.ttl > 0 && flush && e.id.key == Canon(r.key), now)
      ensures r.ttl > 0 && (old(Knows(CanonRecord(r))) || old(nEntries) < maxEntries) ==> Knows(CanonRecord(r))
    {
      hide Structure, CanonRecord, ValidRecord, Canon, ValidKey, InWindow, NextExpiry;
      if r.ttl == 0 {
        Goodbye(r, now);
      } else {
        Learn(r, flush, origin, now, clock, rand);
        KeptBehind(old(entries), entries);
      }
    }

    /**
     elapse_func, called when the entry's time has come: it moves to its next state with a later expiry, or it is
     removed, in which case it has lived for its full TTL unless it was set to go in one second.
     */
    method Elapse(e: CacheEntry, now: TimeVal, clock: int, rand: nat) returns (refresh: bool)
      requires Valid() && e in entries && rand <= RAND_MAX && Micros(now) >= Micros(e.expiry)
      modifies this, index, index.buckets, index.entries, e`state, e`expiry
      ensures Valid()
      ensures refresh <==> Elapsed(old(e.Lived()), lastRand).Some?
      ensures refresh ==> entries == old(entries) && e.Lived() == Elapsed(old(e.Lived()), lastRand).value
      ensures refresh ==> Micros(e.expiry) > Micros(old(e.expiry))
      ensures old(e.state.ValidState? || e.state.Poof?) ==> refresh && e.state.Expiry1? && Between(e.Lived(), 85, 87)
      ensures old(e.state.Expiry1?) ==> refresh && e.state.Expiry2? && Between(e.Lived(), 90, 92)
      ensures old(e.state.Expiry2?) ==> refresh && e.state.Expiry3? && Between(e.Lived(), 95, 97)
      ensures old(e.state.Expiry3?) ==> refresh && e.state.ExpiryFinal? && Between(e.Lived(), 100, 102)
      ensures refresh ==> e.record == old(e.record) && e.timestamp == old(e.timestamp)
      ensures !refresh ==> entries == Without(old(entries), e)
      ensures !refresh && Percent(old(e.state)).Some? ==> Micros(now) - Micros(e.timestamp) >= e.record.ttl * 1000000
    {
      hide Structure, InWindow, NextExpiry;
      var percent: nat;
      match e.state {
      case ExpiryFinal | PoofFinal | GoodbyeFinal | ReplaceFinal =>
        KeptForFullTtl(e.Lived(), lastRand, now);
        StatesInOrder(e.Lived(), lastRand);
        RemoveEntry(e);
        return false;
      case ValidState | Poof =>
        e.state := Expiry1;
        percent := 85;
      case Expiry1 =>
        e.state := Expiry2;
        percent := 90;
      case Expiry2 =>
        e.state := Expiry3;
        percent := 95;
      case Expiry3 =>
        e.state := ExpiryFinal;
        percent := 100;
      }
      SetNextExpiry(e, percent, clock, rand);
      ElapsedIsLater(old(e.Lived()), lastRand);
      StatesInOrder(old(e.Lived()), lastRand);
      WindowsInNumbers(e.Lived());
      return true;
    }

    /** avahi_cache_start_poof */
    method StartPoof(key: Key, address: Text, now: TimeVal)
      requires Valid() && ValidKey(key)
      modifies entries`state, entries`expiry, entries`poofNum, entries`poofTimestamp, entries`poofAddress
      ensures Valid()
      ensures forall e :: e in entries ==>
                e.Watched() == if Matches(key, e.id.key) then Observed(old(e.Watched()), now, address) else old(e.Watched())
      ensures forall e :: e in entries ==>
                e.expiry == if e.state == PoofFinal && old(e.state) != PoofFinal then Add(now, 1000000) else old(e.expiry)
    {
      hide Structure, InWindow, Observed, Matches, Matching, Lives;
      var visited := Walk(key);
      MatchingMembers(entries, key);
      MatchingDistinct(key);
      QuestionAll(visited, address, now);
    }

    method QuestionAll(visited: seq<CacheEntry>, address: Text, now: TimeVal)
      requires Distinct(visited) && forall i :: 0 <= i < |visited| ==> visited[i] in entries
      requires Lives(entries)
      modifies entries`state, entries`expiry, entries`poofNum, entries`poofTimestamp, entries`poofAddress
      ensures Lives(entries)
      ensures forall e :: e in entries ==>
                if e in visited then e.Watched() == Observed(old(e.Watched()), now, address) && e.Questioned(now)
                else e.Untouched()
    {
      hide InWindow, Observed;
      for i := 0 to |visited|
        invariant forall k :: 0 <= k < i ==>
                    visited[k].Watched() == Observed(old(visited[k].Watched()), now, address) && visited[k].Questioned(now)
        invariant forall k :: i <= k < |visited| ==> visited[k].Untouched()
        invariant forall e :: e in entries && e !in visited ==> e.Untouched()
        invariant Lives(entries)
      {
        Question(visited[i], address, now);
      }
    }

    /** start_poof_callback */
    method Question(e: CacheEntry, address: Text, now: TimeVal)
      requires InWindow(e.Lived())
      modifies e`state, e`expiry, e`poofNum, e`poofTimestamp, e`poofAddress
      ensures e.Watched() == Observed(old(e.Watched()), now, address)
      ensures e.Questioned(now) && InWindow(e.Lived())
    {
      match e.state
      case ValidState =>
        e.state := Poof;
        e.poofAddress := address;
        e.poofTimestamp := now;
        e.poofNum := 0;
      case Poof =>
        if Diff(now, e.poofTimestamp) < 1000000 {
          return;
        }
        e.poofTimestamp := now;
        e.poofAddress := address;
        e.poofNum := e.poofNum + 1;
        if e.poofNum > 3 {
          ExpireInOneSecond(e, PoofFinal, now);
        }
      case _ =>
    }

    /** avahi_cache_stop_poof: an answer seen by the host that asked makes a doubted entry valid again. */
    method StopPoof(r: Record, address: Text, clock: int, rand: nat)
      requires Valid() && ValidRecord(r) && rand <= RAND_MAX
      modifies `lastRand, `lastRandTime, entries`state, entries`expiry
      ensures Valid()
      ensures forall e :: e in entries ==>
                if e.id == CanonRecord(r) && old(e.state) in {Poof, PoofFinal} && e.poofAddress == address
                then e.state == ValidState && Between(e.Lived(), 80, 82)
                else e.state == old(e.state) && e.expiry == old(e.expiry)
    {
      hide Structure, InWindow, NextExpiry, CanonRecord, ValidRecord;
      var found := LookupRecord(r);
      if found.Some? {
        var e := found.value;
        OnlyEntry(e);
        if e.state == Poof || e.state == PoofFinal {
          if address == e.poofAddress {
            e.state := ValidState;
            SetNextExpiry(e, 80, clock, rand);
            RenewedInWindow(e.Lived(), lastRand);
            WindowsInNumbers(e.Lived());
          }
        }
      }
    }

    /** avahi_cache_flush */
    method Flush()
      requires Valid()
      modifies this, index, index.buckets, index.entries
      ensures Valid() && entries == []
    {
      while entries != []
        invariant Valid()
        invariant forall i :: 0 <= i < |index.entries| ==> index.entries[i] in old(index.entries) || fresh(index.entries[i])
        decreases |entries|
      {
        RemoveEntry(entries[0]);
      }
    }

    lemma MatchingDistinct(pattern: Key)
      requires Structure() && ValidKey(pattern)
      ensures Distinct(Matching(entries, pattern))
    {
      assert Distinct(entries);
      FilterDistinct(entries, (e: CacheEntry) => ValidKey(pattern) && Matches(pattern, e.id.key));
    }
  }

  ghost function Matching(entries: seq<CacheEntry>, pattern: Key): (r: seq<CacheEntry>)
    requires ValidKey(pattern)
    ensures forall e :: e in r ==> e in entries && Matches(pattern, e.id.key)
    ensures forall e :: e in entries && Matches(pattern, e.id.key) ==> e in r
  {
    Filter(entries, (e: CacheEntry) => ValidKey(pattern) && Matches(pattern, e.id.key))
  }

  lemma MatchingPrepend(e: CacheEntry, entries: seq<CacheEntry>, pattern: Key)
    requires ValidKey(pattern)
    ensures Matching([e] + entries, pattern) ==
            if Matches(pattern, e.id.key) then [e] + Matching(entries, pattern) else Matching(entries, pattern)
  {
    FilterPrepend(e, entries, (x: CacheEntry) => ValidKey(pattern) && Matches(pattern, x.id.key));
  }

  lemma MatchingMembers(entries: seq<CacheEntry>, pattern: Key)
    requires ValidKey(pattern)
    ensures forall i :: 0 <= i < |Matching(entries, pattern)| ==> Matching(entries, pattern)[i] in entries
    ensures forall e :: e in entries ==> (e in Matching(entries, pattern) <==> Matches(pattern, e.id.key))
  {
  }

  lemma MatchingNothing(entries: seq<CacheEntry>, pattern: Key)
    requires ValidKey(pattern) && entries == []
    ensures Matching(entries, pattern) == []
  {
  }

  /** A key that is no pattern matches exactly the equal keys. */
  lemma {:induction false} MatchingByKey(entries: seq<CacheEntry>, key: Key)
    requires ValidKey(key) && !IsPattern(key)
    ensures Matching(entries, key) == WithKey(entries, Canon(key))
  {
    if entries != [] {
      MatchingByKey(entries[1..], key);
      MatchingPrepend(entries[0], entries[1..], key);
      WithKeyPrepend(entries[0], entries[1..], Canon(key));
      assert entries == [entries[0]] + entries[1..];
    }
  }

  lemma MatchingHas(entries: seq<CacheEntry>, r: Record)
    requires RecordsOk(entries) && ValidRecord(r)
    ensures forall e :: e in entries && e.id == CanonRecord(r) ==> e in Matching(entries, r.key)
  {
  }
}
