/** The query scheduler: which questions are to be asked, and which were asked lately. */
module QuerySchedulers {
  import opened Bytes
  import opened Lists
  import opened Records
  import opened TimeVals
  import opened NameWire
  import opened RecordWire
  import opened Messages
  import opened Compression
  import opened Packets
  import opened PacketItems
  import opened KnownAnswers

  const HISTORY_MSEC := 100
  const DEFER_MSEC := 100

  class QueryJob {
    ghost const canon: CanonicalKey
    const key: Key
    const id: uint32
    var nPosted: int
    var done: bool
    var delivery: TimeVal
    /** When the time event of the job is due. */
    var due: TimeVal

    constructor (key: Key, id: uint32, done: bool)
      requires ValidKey(key)
      ensures this.key == key && this.id == id && this.done == done && nPosted == 1 && canon == Canon(key)
    {
      this.key, this.id, this.done, nPosted, canon := key, id, done, 1, Canon(key);
      delivery, due := TimeVal(0, 0), TimeVal(0, 0);
    }

    twostate predicate Same()
      reads this
    {
      nPosted == old(nPosted) && done == old(done) && delivery == old(delivery) && due == old(due)
    }
  }

  ghost predicate NoTwins(jobs: seq<QueryJob>) {
    forall i, j :: 0 <= i < j < |jobs| ==> jobs[i].canon != jobs[j].canon
  }

  ghost predicate Apart(a: seq<QueryJob>, b: seq<QueryJob>) {
    forall x, y :: x in a && y in b ==> x.canon != y.canon
  }

  ghost predicate JobsOk(jobs: seq<QueryJob>, done: bool)
    reads jobs`done
  {
    forall j :: j in jobs ==> ValidKey(j.key) && Canon(j.key) == j.canon && j.done == done
  }

  /** A scheduled job is due at its delivery time, and somebody still wants it. */
  ghost predicate Wanted(jobs: seq<QueryJob>)
    reads jobs`nPosted, jobs`delivery, jobs`due
  {
    forall j :: j in jobs ==> j.nPosted >= 1 && j.due == j.delivery
  }

  ghost predicate Has(jobs: seq<QueryJob>, c: CanonicalKey) {
    exists j :: j in jobs && j.canon == c
  }

  lemma WithoutTwins(jobs: seq<QueryJob>, x: QueryJob)
    requires NoTwins(jobs)
    ensures NoTwins(Without(jobs, x)) && x !in Without(jobs, x)
    ensures x in jobs ==> !Has(Without(jobs, x), x.canon)
  {
    WithoutUnique(jobs, x, (j: QueryJob) => j.canon);
  }

  /** A list keeps its order of things when a job with a new key is put at its head. */
  lemma WithFirst(j: QueryJob, jobs: seq<QueryJob>, done: bool)
    requires JobsOk(jobs, done) && NoTwins(jobs) && !Has(jobs, j.canon)
    requires ValidKey(j.key) && Canon(j.key) == j.canon && j.done == done
    ensures JobsOk([j] + jobs, done) && NoTwins([j] + jobs)
  {
    hide Canon, ValidKey;
  }

  lemma WantedFirst(j: QueryJob, jobs: seq<QueryJob>)
    requires Wanted(jobs) && j.nPosted >= 1 && j.due == j.delivery
    ensures Wanted([j] + jobs)
  {
  }

  class QueryScheduler {
    var nextId: uint32
    var jobs: seq<QueryJob>
    var history: seq<QueryJob>

    /** Each key occurs at most once in jobs and history together. */
    ghost predicate Valid()
      reads this, jobs, history
    {
      && JobsOk(jobs, false) && JobsOk(history, true) && Wanted(jobs)
      && NoTwins(jobs) && NoTwins(history) && Apart(jobs, history)
    }

    constructor ()
      ensures Valid() && jobs == [] && history == []
    {
      nextId, jobs, history := 0, [], [];
    }

    /** The job of a list with an equal key. */
    method Find(list: seq<QueryJob>, key: Key, ghost done: bool) returns (found: Option<QueryJob>)
      requires JobsOk(list, done) && ValidKey(key)
      ensures found.None? ==> !Has(list, Canon(key))
      ensures found.Some? ==> found.value in list && found.value.canon == Canon(key)
    {
      hide Canon, ValidKey;
      for i := 0 to |list|
        invariant forall k :: 0 <= k < i ==> list[k].canon != Canon(key)
      {
        assert list[i] in list;
        var same := KeyEqual(list[i].key, key);
        if same {
          return Some(list[i]);
        }
      }
      return None;
    }

    /** job_mark_done */
    method MarkDone(j: QueryJob, now: TimeVal)
      requires Valid() && j in jobs
      modifies `jobs, `history, j`done, j`due, j`delivery
      ensures Valid() && jobs == Without(old(jobs), j) && history == [j] + old(history)
      ensures j.delivery == now && Micros(j.due) == Micros(now) + 100000
    {
      hide Canon, ValidKey, ElapseTime;
      WithoutTwins(jobs, j);
      jobs := Without(jobs, j);
      history := [j] + history;
      j.done := true;
      ElapsesInTime(now, HISTORY_MSEC, 0, 0);
      j.due := ElapseTime(now, HISTORY_MSEC, 0, 0);
      j.delivery := now;
    }

    /** job_free */
    method Free(j: QueryJob)
      requires Valid() && if j.done then j in history else j in jobs
      modifies `jobs, `history
      ensures Valid()
      ensures jobs == if j.done then old(jobs) else Without(old(jobs), j)
      ensures history == if j.done then Without(old(history), j) else old(history)
    {
      hide Canon, ValidKey, Without;
      WithoutTwins(if j.done then history else jobs, j);
      if j.done {
        history := Without(history, j);
      } else {
        jobs := Without(jobs, j);
      }
    }

    /** The question was on the wire in the last 100 ms. */
    ghost predicate AskedLately(key: Key, now: TimeVal)
      requires ValidKey(key)
      reads `history, history
    {
      exists j :: j in history && j.canon == Canon(key) && Micros(now) - Micros(j.delivery) <= 100000
    }

    lemma OneInHistory(key: Key)
      requires Valid() && ValidKey(key)
      ensures forall x, y :: x in history && y in history && x.canon == y.canon == Canon(key) ==> x == y
    {
    }

    /** find_history_job: an entry older than 100 ms is removed and not found. */
    method FindHistory(key: Key, now: TimeVal) returns (found: Option<QueryJob>)
      requires Valid() && ValidKey(key)
      modifies `history
      ensures Valid()
      ensures found.Some? <==> old(AskedLately(key, now))
      ensures found.None? ==> !Has(history, Canon(key))
      ensures found.Some? ==> history == old(history) && found.value in history && found.value.canon == Canon(key)
      ensures forall j :: j in history ==> j in old(history)
      ensures forall j :: j in old(history) && j !in history ==>
                j.canon == Canon(key) && Micros(now) - Micros(j.delivery) > 100000
    {
      hide Canon, ValidKey, Diff;
      OneInHistory(key);
      found := Find(history, key, true);
      if found.Some? {
        DiffIsExact(now, found.value.delivery);
        if Diff(now, found.value.delivery) > HISTORY_MSEC * 1000 {
          WithoutTwins(history, found.value);
          history := Without(history, found.value);
          return None;
        }
      }
    }

    lemma OneScheduled(j: QueryJob)
      requires Valid() && j in jobs
      ensures forall x :: x in jobs && x.canon == j.canon ==> x == j
    {
    }

    /** job_new; the ids wrap around after 2^32 jobs. */
    method NewJob(key: Key, done: bool, delivery: TimeVal, due: TimeVal) returns (j: QueryJob)
      requires Valid() && ValidKey(key) && !Has(jobs, Canon(key)) && !Has(history, Canon(key))
      requires !done ==> due == delivery
      modifies `jobs, `history, `nextId
      ensures Valid() && fresh(j) && j.canon == Canon(key) && j.id == old(nextId) && j.nPosted == 1
      ensures j.delivery == delivery && j.due == due
      ensures jobs == (if done then [] else [j]) + old(jobs) && history == (if done then [j] else []) + old(history)
    {
      hide Canon, ValidKey, Without, JobsOk, NoTwins, Wanted;
      j := new QueryJob(key, nextId, done);
      j.delivery := delivery;
      j.due := due;
      nextId := if nextId == 0xffff_ffff then 0 else nextId + 1;
      WithFirst(j, if done then history else jobs, done);
      if done {
        history := [j] + history;
        assert [] + jobs == jobs;
      } else {
        WantedFirst(j, jobs);
        jobs := [j] + jobs;
        assert [] + history == history;
      }
    }

    /**
     avahi_query_scheduler_post: unless the question was asked lately it is scheduled, for no later than the new and
     the old delivery time, and one poster more is counted.
     */
    method Post(key: Key, immediately: bool, now: TimeVal) returns (posted: bool, id: uint32)
      requires Valid() && ValidKey(key)
      modifies this, jobs`delivery, jobs`due, jobs`nPosted
      ensures Valid() && (posted <==> !old(AskedLately(key, now)))
      ensures forall j :: j in old(jobs) ==> j in jobs && Compare(j.delivery, old(j.delivery)) <= 0
      ensures forall j :: j in old(jobs) && j.delivery != old(j.delivery) ==>
                Micros(j.delivery) == Micros(now) + if immediately then 0 else 100000
      ensures forall j :: j in jobs && j !in old(jobs) ==>
                Micros(j.delivery) == Micros(now) + if immediately then 0 else 100000
      ensures forall j :: j in old(jobs) && (!posted || j.canon != Canon(key)) ==> j.Same()
      ensures forall j :: posted && j in old(jobs) && j.canon == Canon(key) ==> j.nPosted == old(j.nPosted) + 1
      ensures posted ==> exists j :: j in jobs && j.canon == Canon(key) && j.id == id &&
                                     Compare(j.delivery, ElapseTime(now, if immediately then 0 else DEFER_MSEC, 0, 0)) <= 0
      ensures forall j :: j in jobs ==> j in old(jobs) || (fresh(j) && j.canon == Canon(key) && j.nPosted == 1)
    {
      hide Canon, ValidKey, Diff, ElapseTime, AskedLately;
      var recent := FindHistory(key, now);
      if recent.Some? {
        return false, 0;
      }
      var tv := ElapseTime(now, if immediately then 0 else DEFER_MSEC, 0, 0);
      ElapsesInTime(now, if immediately then 0 else DEFER_MSEC, 0, 0);
      var found := Find(jobs, key, false);
      var j: QueryJob;
      if found.Some? {
        j := found.value;
        OneScheduled(j);
        if Compare(tv, j.delivery) < 0 {
          j.delivery := tv;
          j.due := tv;
        }
        j.nPosted := j.nPosted + 1;
      } else {
        j := NewJob(key, false, tv, tv);
      }
      assert j in jobs && j.canon == Canon(key);
      return true, j.id;
    }

    /** avahi_query_scheduler_incoming: somebody else asked; a scheduled question of our own is not asked again. */
    method Incoming(key: Key, now: TimeVal)
      requires Valid() && ValidKey(key)
      modifies this, jobs`done, jobs`due, jobs`delivery, history`delivery, history`due
      ensures Valid() && !Has(jobs, Canon(key))
      ensures exists j :: j in history && j.canon == Canon(key) && j.delivery == now &&
                          Micros(j.due) == Micros(now) + 100000
      ensures forall j :: j in old(jobs) && j.canon != Canon(key) ==> j in jobs && j.Same()
      ensures forall j :: j in jobs ==> j in old(jobs)
      ensures forall j :: j in old(history) && j.canon != Canon(key) ==> j in history && j.Same()
      ensures forall j :: j in history ==> j in old(history) || j.canon == Canon(key)
    {
      hide Canon, ValidKey, Diff, ElapseTime, AskedLately;
      ElapsesInTime(now, HISTORY_MSEC, 0, 0);
      var due := ElapseTime(now, HISTORY_MSEC, 0, 0);
      var found := Find(jobs, key, false);
      var j: QueryJob;
      if found.Some? {
        j := found.value;
        WithoutTwins(jobs, j);
        MarkDone(j, now);
      } else {
        found := FindHistory(key, now);
        if found.Some? {
          j := found.value;
          j.delivery := now;
          j.due := due;
        } else {
          j := NewJob(key, true, now, due);
        }
      }
      assert j in history && j.canon == Canon(key);
    }

    /**
     avahi_query_scheduler_withdraw_by_id: every scheduled job of this id loses one poster, up to the first that has
     none left, which is dropped.
     */
    method Withdraw(id: uint32) returns (withdrawn: bool)
      requires Valid()
      modifies `jobs, `history, jobs`nPosted
      ensures Valid() && history == old(history)
      ensures withdrawn <==> exists j :: j in old(jobs) && j.id == id && old(j.nPosted) == 1
      ensures withdrawn ==> exists j :: j in old(jobs) && j.id == id && old(j.nPosted) == 1 && jobs == Without(old(jobs), j)
      ensures !withdrawn ==> jobs == old(jobs) &&
                             forall j :: j in jobs ==> j.nPosted == old(j.nPosted) - (if j.id == id then 1 else 0)
      ensures forall j :: j in jobs && j.id != id ==> j.nPosted == old(j.nPosted)
    {
      hide Valid, Without;
      JobsDistinct();
      ghost var was := jobs;
      for i := 0 to |jobs|
        invariant Valid() && jobs == was && history == old(history)
        invariant forall k :: 0 <= k < i ==> jobs[k].nPosted == old(jobs[k].nPosted) - (if jobs[k].id == id then 1 else 0)
        invariant forall k :: 0 <= k < i ==> !(jobs[k].id == id && old(jobs[k].nPosted) == 1)
        invariant forall k :: i <= k < |jobs| ==> jobs[k].nPosted == old(jobs[k].nPosted)
      {
        if jobs[i].id == id {
          var last := Release(jobs[i]);
          if last {
            return true;
          }
        }
      }
      return false;
    }

    lemma JobsDistinct()
      requires Valid()
      ensures Distinct(jobs)
    {
    }

    /** One poster less; the job is dropped with the last one. */
    method Release(j: QueryJob) returns (last: bool)
      requires Valid() && j in jobs
      modifies `jobs, `history, j`nPosted
      ensures Valid() && history == old(history) && last == (old(j.nPosted) == 1)
      ensures last ==> jobs == Without(old(jobs), j)
      ensures !last ==> jobs == old(jobs) && j.nPosted == old(j.nPosted) - 1
    {
      hide Canon, ValidKey, Without;
      var left := j.nPosted - 1;
      if left <= 0 {
        WithoutTwins(jobs, j);
        Free(j);
      }
      j.nPosted := left;
      last := left <= 0;
    }

    /** packet_add_query_job: the question goes into the packet, and what the cache knows becomes a known answer. */
    method AddQuery(p: Packet, j: QueryJob, cached: Key -> seq<Record>, known: seq<Record>, now: TimeVal, ghost asked: seq<Key>)
      returns (ok: bool, more: seq<Record>)
      requires Valid() && j in jobs && Holds(p, Questions(asked))
      modifies this, j`done, j`due, j`delivery, p`size, p`table, p.data
      ensures Valid()
      ensures ok <==> Possible(old(WriteKey(j.key, false, p.size, p.table)), old(p.size), p.data.Length)
      ensures p.Valid() && p.Contents()[..HEADER_SIZE] == old(p.Contents()[..HEADER_SIZE])
      ensures ok ==> Holds(p, Questions(asked + [j.key])) && more == Reversed(cached(j.key)) + known && j.delivery == now
      ensures ok ==> jobs == Without(old(jobs), j) && history == [j] + old(history)
      ensures !ok ==> Holds(p, Questions(asked)) && more == known && jobs == old(jobs) && history == old(history) && j.Same()
      ensures !ok && jobs[0] == j ==> NoneFits(asked, jobs, p.data.Length)
    {
      hide Carries, Paid, WriteKey, Possible, HasRoom, JobsOk, NoTwins, Apart, Wanted, ElapseTime, Without;
      more := known;
      OneMoreQuestion(asked, j.key);
      ok := AddQuestion(p, j.key, false, Questions(asked));
      if ok {
        more := PrependAll(cached(j.key), known);
        MarkDone(j, now);
      }
    }

    /**
     elapse_callback for a scheduled question: it goes out with the other scheduled ones in order, until one does not
     fit the packet or none is left, followed by the known answers to all of them.
     */
    method Ask(j: QueryJob, mtu: nat, cached: Key -> seq<Record>, now: TimeVal)
      returns (sent: seq<Text>, ghost batches: seq<seq<Record>>, ghost asked: seq<Key>)
      requires Valid() && j in jobs
      requires Possible(WriteKey(j.key, false, HEADER_SIZE, map[]), HEADER_SIZE, Packet.MaxSize(mtu))
      requires CacheOk(cached)
      modifies this, jobs`done, jobs`due, jobs`delivery
      ensures Valid() && j in history
      ensures asked != [] && asked[0] == j.key
      ensures AskedWith(Without(old(jobs), j), |asked| - 1, asked[1..], jobs, history)
      ensures NoneFits(asked, jobs, Packet.MaxSize(mtu))
      ensures |sent| == |batches| >= 1 && Flatten(batches) == Sendable(Gathered(asked, cached), mtu)
      ensures Packed(Questions(asked), batches[..|batches| - 1], Gathered(asked, cached), mtu)
      ensures forall k :: 0 <= k < |sent| ==>
                Sent(sent[k], if k == 0 then Questions(asked) else [], batches[k], k < |sent| - 1)
    {
      hide Carries, Paid, Valid, Without, Sent, Flatten, Sendable, WriteKey, CacheOk, NoneFits, Packed;
      var p := NewPacket(mtu);
      assert Questions([]) == [];
      var ok, known := AddQuery(p, j, cached, [], now, []);
      GatheredMore([], j.key, cached);
      assert [] + [j.key] == [j.key];
      ghost var rest := jobs;
      assert forall i :: 0 <= i < |rest| ==> rest[i] in old(jobs);
      var n;
      n, known, asked := FillUp(p, j.key, cached, known, now);
      sent, batches := SendAll(p, n, known, mtu, asked, cached);
    }

    /** Questions are added until one does not fit. */
    method FillUp(p: Packet, key: Key, cached: Key -> seq<Record>, known0: seq<Record>, now: TimeVal)
      returns (n: nat, known: seq<Record>, ghost asked: seq<Key>)
      requires Valid() && Holds(p, Questions([key])) && known0 == Gathered([key], cached)
      modifies this, jobs`done, jobs`due, jobs`delivery, p`size, p`table, p.data
      ensures Valid() && Holds(p, Questions(asked)) && known == Gathered(asked, cached) && n == |asked|
      ensures p.Contents()[..HEADER_SIZE] == old(p.Contents()[..HEADER_SIZE])
      ensures forall x :: x in old(history) ==> x in history
      ensures asked != [] && asked[0] == key && AskedWith(old(jobs), |asked| - 1, asked[1..], jobs, history)
      ensures NoneFits(asked, jobs, p.data.Length)
    {
      hide Carries, Paid, Valid, Without, Gathered, NoneFits, Possible, AskedWith, Questions;
      assert forall i :: 0 <= i < |jobs| ==> jobs[i] in jobs;
      n, known, asked := 1, known0, [key];
      ghost var rest, others: seq<Key> := jobs, [];
      NoneAsked(rest, history);
      while jobs != []
        invariant Valid() && Holds(p, Questions(asked)) && known == Gathered(asked, cached) && n == |asked|
        invariant asked == [key] + others && AskedWith(rest, |others|, others, jobs, history)
        invariant forall x :: x in old(history) ==> x in history
        invariant forall i :: 0 <= i < |jobs| ==> jobs[i] in rest
        invariant p.Valid() && p.Contents()[..HEADER_SIZE] == old(p.Contents()[..HEADER_SIZE])
        decreases |jobs|
      {
        var next := jobs[0];
        AskedMore(rest, others, jobs, history);
        GatheredMore(asked, next.key, cached);
        var ok;
        ok, known := AddQuery(p, next, cached, known, now, asked);
        if !ok {
          assert asked[1..] == others;
          return;
        }
        Assoc([key], others, [next.key]);
        asked, n, others := asked + [next.key], n + 1, others + [next.key];
      }
      assert asked[1..] == others;
      NothingLeft(asked, p.data.Length);
    }
  }

  lemma NoneAsked(jobs: seq<QueryJob>, history: seq<QueryJob>)
    ensures AskedWith(jobs, 0, [], jobs, history)
  {
  }

  /** The first of the jobs that are left is asked for as well. */
  lemma AskedMore(rest: seq<QueryJob>, others: seq<Key>, jobs: seq<QueryJob>, history: seq<QueryJob>)
    requires AskedWith(rest, |others|, others, jobs, history) && jobs != []
    ensures AskedWith(rest, |others| + 1, others + [jobs[0].key], Without(jobs, jobs[0]), [jobs[0]] + history)
    ensures |Without(jobs, jobs[0])| < |jobs|
    ensures forall i :: 0 <= i < |Without(jobs, jobs[0])| ==> Without(jobs, jobs[0])[i] in jobs
  {
    KeysOfFirst(rest, |others|);
    assert Without(jobs, jobs[0]) == jobs[1..];
  }

  /** The first of the jobs that are left has no room beside the questions. */
  ghost predicate NoneFits(asked: seq<Key>, jobs: seq<QueryJob>, size: nat) {
    jobs != [] ==> !HasRoom(Questions(asked + [jobs[0].key]), size)
  }

  lemma NothingLeft(asked: seq<Key>, size: nat)
    ensures NoneFits(asked, [], size)
  {
  }

  /** The jobs asked for together with the first `m` of the others, which are no longer scheduled. */
  ghost predicate AskedWith(rest: seq<QueryJob>, m: nat, asked: seq<Key>, jobs: seq<QueryJob>, history: seq<QueryJob>) {
    && m <= |rest| && asked == KeysOf(rest[..m]) && jobs == rest[m..]
    && forall k :: 0 <= k < m ==> rest[k] in history
  }

  function Questions(keys: seq<Key>): seq<Item> {
    seq(|keys|, i requires 0 <= i < |keys| => Question(keys[i], false))
  }

  lemma OneMoreQuestion(keys: seq<Key>, k: Key)
    ensures Questions(keys) + [Question(k, false)] == Questions(keys + [k])
  {
  }

  ghost predicate CacheOk(cached: Key -> seq<Record>) {
    forall k, r :: r in cached(k) ==> ValidRecord(r)
  }

  function KeysOf(jobs: seq<QueryJob>): seq<Key> {
    seq(|jobs|, i requires 0 <= i < |jobs| => jobs[i].key)
  }

  lemma KeysOfFirst(jobs: seq<QueryJob>, m: nat)
    requires m < |jobs|
    ensures KeysOf(jobs[..m + 1]) == KeysOf(jobs[..m]) + [jobs[m].key]
    ensures Without(jobs[m..], jobs[m]) == jobs[m + 1..]
  {
  }

  /** The list of known answers after the cache was walked for each key in turn. */
  function Gathered(keys: seq<Key>, cached: Key -> seq<Record>): seq<Record> {
    if keys == [] then [] else Reversed(cached(keys[|keys| - 1])) + Gathered(keys[..|keys| - 1], cached)
  }

  lemma GatheredMore(keys: seq<Key>, k: Key, cached: Key -> seq<Record>)
    ensures Gathered(keys + [k], cached) == Reversed(cached(k)) + Gathered(keys, cached)
  {
    assert (keys + [k])[..|keys|] == keys;
  }

  lemma {:induction false} GatheredValid(keys: seq<Key>, cached: Key -> seq<Record>)
    requires CacheOk(cached)
    ensures forall r :: r in Gathered(keys, cached) ==> ValidRecord(r)
  {
    hide ValidRecord;
    if keys != [] {
      GatheredValid(keys[..|keys| - 1], cached);
    }
  }

  /** known_answer_walk_callback for each record in turn. */
  method PrependAll(records: seq<Record>, known: seq<Record>) returns (more: seq<Record>)
    ensures more == Reversed(records) + known
  {
    more := known;
    assert records[0..] == records;
    for i := 0 to |records|
      invariant Reversed(records[i..]) + more == Reversed(records) + known
    {
      assert records[i..] == [records[i]] + records[i + 1..];
      assert records[i..][1..] == records[i + 1..];
      Assoc(Reversed(records[i + 1..]), [records[i]], more);
      more := [records[i]] + more;
    }
    assert records[|records|..] == [];
    assert [] + more == more;
  }

  /** The questions are counted, and the known answers follow. */
  method SendAll(p: Packet, n: nat, known: seq<Record>, mtu: nat, ghost asked: seq<Key>, cached: Key -> seq<Record>)
    returns (sent: seq<Text>, ghost batches: seq<seq<Record>>)
    requires Holds(p, Questions(asked)) && n == |asked| && known == Gathered(asked, cached) && p.data.Length == Packet.MaxSize(mtu)
    requires p.Contents()[..HEADER_SIZE] == ZERO_HEADER
    requires CacheOk(cached)
    modifies p, p.data
    ensures |sent| == |batches| >= 1 && Flatten(batches) == Sendable(known, mtu)
    ensures Packed(Questions(asked), batches[..|batches| - 1], known, mtu)
    ensures forall k :: 0 <= k < |sent| ==>
              Sent(sent[k], if k == 0 then Questions(asked) else [], batches[k], k < |sent| - 1)
  {
    hide Sent, Flatten, Sendable, Carries, Paid, ValidRecord, Packed;
    GatheredValid(asked, cached);
    ghost var d := p.Contents();
    SameField(d, ZERO_HEADER, 2 * FIELD_FLAGS);
    U16Back(d, 2 * FIELD_QDCOUNT, |asked| % 0x1_0000, 2 * FIELD_FLAGS);
    U16Back(d, 2 * FIELD_QDCOUNT, |asked| % 0x1_0000, 2 * FIELD_QDCOUNT);
    SetHeader(p, FIELD_QDCOUNT, n % 0x1_0000, Questions(asked));
    sent, batches := SendKnownAnswers(known, p, mtu, Questions(asked));
  }
}
