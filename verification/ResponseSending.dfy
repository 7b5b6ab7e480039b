/** Sending scheduled responses: as many as fit one packet, with the records they refer to scheduled in turn. */
module ResponseSending {
  import opened Bytes
  import opened Names
  import opened StringLists
  import opened Records
  import opened TimeVals
  import opened Lists
  import opened NameWire
  import opened RecordWire
  import opened Messages
  import opened Compression
  import opened Packets
  import opened PacketItems
  import opened Estimates
  import opened KnownAnswers
  import opened ResponseSchedulers

  const FLAGS_RESPONSE := FLAG_QR + FLAG_AA

  /** A record that an answer refers to, and whether it is unique. */
  datatype Aux = Aux(record: Record, flush: bool)

  ghost predicate AuxOk(aux: Record -> seq<Aux>) {
    forall r, a :: a in aux(r) ==> ValidRecord(a.record) && !IsPattern(a.record.key)
  }

  // ---------- Sending ----------

  /** The job is still scheduled, for no later than before, and with its flush bit. */
  twostate predicate Stays(s: ResponseScheduler, j: Job)
    reads s, j
  {
    j in s.jobs && Compare(j.delivery, old(j.delivery)) <= 0 && (old(j.flush) ==> j.flush)
  }

  /** The records that these answers refer to are scheduled, were sent lately, or are known. */
  ghost predicate AuxTaken(s: ResponseScheduler, items: seq<Item>, aux: Record -> seq<Aux>)
    reads s`jobs, s`history, s`suppressed
  {
    forall k, a :: 0 <= k < |items| && items[k].Answer? && a in aux(items[k].record) ==>
      ValidRecord(a.record) && s.Accounts(CanonRecord(a.record))
  }

  twostate lemma AuxStays(s: ResponseScheduler, new items: seq<Item>, new aux: Record -> seq<Aux>)
    requires old(AuxTaken(s, items, aux)) && forall x {:trigger s.Accounts(x)} :: old(s.Accounts(x)) ==> s.Accounts(x)
    ensures AuxTaken(s, items, aux)
  {
  }

  lemma AuxMore(s: ResponseScheduler, items: seq<Item>, item: Item, aux: Record -> seq<Aux>)
    requires AuxTaken(s, items, aux) && AuxTaken(s, [item], aux)
    ensures AuxTaken(s, items + [item], aux)
  {
    forall k, a | 0 <= k < |items + [item]| && (items + [item])[k].Answer? && a in aux((items + [item])[k].record)
      ensures ValidRecord(a.record) && s.Accounts(CanonRecord(a.record))
    {
      if k == |items| {
        assert [item][0] == (items + [item])[k];
      }
    }
  }

  lemma AuxOne(s: ResponseScheduler, item: Item, aux: Record -> seq<Aux>)
    requires item.Answer? && AuxOk(aux)
    requires var l := aux(item.record); forall i :: 0 <= i < |l| ==> s.Accounts(CanonRecord(l[i].record))
    ensures AuxTaken(s, [item], aux)
  {
  }

  /** The records an answer refers to are posted for the same querier. */
  method PostAux(s: ResponseScheduler, list: seq<Aux>, querier: Option<Text>, now: TimeVal, rand: nat)
    requires s.Valid() && forall i :: 0 <= i < |list| ==> ValidRecord(list[i].record) && !IsPattern(list[i].record.key)
    modifies s, s.jobs`delivery, s.jobs`due, s.jobs`flush, s.jobs`querier, s.jobs`posters, s.jobs`record
    ensures s.Valid()
    ensures forall j :: j in old(s.jobs) ==> Stays(s, j)
    ensures forall x :: x in s.jobs ==> x in old(s.jobs) || fresh(x)
    ensures forall i :: 0 <= i < |list| ==> s.Accounts(CanonRecord(list[i].record))
    ensures forall x {:trigger s.Accounts(x)} :: old(s.Accounts(x)) ==> s.Accounts(x)
  {
    hide ResponseScheduler.Valid, ValidRecord, CanonRecord, ResponseScheduler.KnownToQuerier, ResponseScheduler.SentLately;
    hide Promised, ResponseScheduler.Accounts, PostedFor;
    for i := 0 to |list|
      invariant s.Valid()
      invariant forall j :: j in old(s.jobs) ==> Stays(s, j)
      invariant forall j :: j in s.jobs ==> j in old(s.jobs) || fresh(j)
      invariant forall k :: 0 <= k < i ==> s.Accounts(CanonRecord(list[k].record))
      invariant forall x {:trigger s.Accounts(x)} :: old(s.Accounts(x)) ==> s.Accounts(x)
    {
      assert forall k :: 0 <= k < |s.jobs| ==> s.jobs[k] in s.jobs;
      var _ := s.Post(list[i].record, list[i].flush, querier, false, now, rand);
    }
  }

  predicate HasFlush(item: Item) {
    item.Answer? && item.flush
  }

  /** The answers for these jobs go out with the flush bit. */
  predicate FlushKept(items: seq<Item>, done: seq<Job>, flushed: set<Job>) {
    |items| == |done| && forall k :: 0 <= k < |done| && done[k] in flushed ==> HasFlush(items[k])
  }

  lemma FlushKeptMore(items: seq<Item>, done: seq<Job>, flushed: set<Job>, item: Item, j: Job)
    requires FlushKept(items, done, flushed) && (j in flushed ==> HasFlush(item))
    ensures FlushKept(items + [item], done + [j], flushed)
  {
  }

  lemma FlushKeptOne(item: Item, j: Job, flushed: set<Job>)
    requires j in flushed ==> HasFlush(item)
    ensures FlushKept([item], [j], flushed)
  {
  }

  /** Those of the jobs that are scheduled still have their flush bit. */
  ghost predicate Flushing(jobs: seq<Job>, flushed: set<Job>)
    reads jobs`flush
  {
    forall x :: x in jobs && x in flushed ==> x.flush
  }

  /** The flags say that the packet is an authoritative response. */
  ghost predicate IsResponse(p: Packet)
    reads p, p.data
  {
    p.Valid() && Flags(p.Contents()) == 0x8400
  }

  lemma SameHeader(d: Text, e: Text)
    requires |d| >= HEADER_SIZE && |e| >= HEADER_SIZE && d[..HEADER_SIZE] == e[..HEADER_SIZE]
    ensures Flags(d) == Flags(e)
  {
    SameField(d, e, 2);
  }

  /** packet_add_response_job */
  method AddJob(s: ResponseScheduler, p: Packet, j: Job, aux: Record -> seq<Aux>, now: TimeVal, rand: nat,
                ghost items: seq<Item>, ghost flushed: set<Job>)
    returns (ok: bool)
    requires s.Valid() && j in s.jobs && Holds(p, items) && AuxOk(aux) && Flushing(s.jobs, flushed)
    modifies s, p`size, p`table, p.data
    modifies s.jobs`delivery, s.jobs`due, s.jobs`flush, s.jobs`querier, s.jobs`posters, s.jobs`record, s.jobs`state
    ensures s.Valid()
    ensures ok <==> Possible(old(WriteRecord(j.record, j.flush, 0, p.size, p.table)), old(p.size), p.data.Length)
    ensures Holds(p, if ok then items + [Answer(old(j.record), old(j.flush), 0)] else items)
    ensures ok ==> p.size > old(p.size) && j !in s.jobs && j in s.history
    ensures old(IsResponse(p)) ==> IsResponse(p)
    ensures forall x :: x in old(s.jobs) && !(ok && x == j) ==> Stays(s, x)
    ensures Flushing(s.jobs, flushed)
    ensures ok ==> AuxTaken(s, [Answer(old(j.record), old(j.flush), 0)], aux)
    ensures forall x {:trigger s.Accounts(x)} :: old(s.Accounts(x)) ==> s.Accounts(x)
    ensures !ok ==> s.jobs == old(s.jobs) && s.history == old(s.history) && j.Same()
    ensures !ok && s.jobs[0] == j ==> NoneFits(items, s.jobs, p.data.Length)
    ensures forall x :: x in s.jobs ==> x in old(s.jobs) || fresh(x)
  {
    hide ResponseScheduler.Valid, ValidRecord, CanonRecord, WriteRecord, Carries, Paid, Possible, HasRoom, AuxTaken;
    hide ResponseScheduler.Accounts;
    ghost var item := Answer(j.record, j.flush, 0);
    ok := AddAnswer(p, j.record, j.flush, items);
    SameHeader(old(p.Contents()), p.Contents());
    if ok {
      PostAux(s, aux(j.record), j.querier, now, rand);
      WithoutOne(s, j);
      s.MarkDone(j, now);
      AuxOne(s, item, aux);
    }
    assert [item] == [Answer(old(j.record), old(j.flush), 0)];
  }

  lemma WithoutOne(s: ResponseScheduler, j: Job)
    requires s.Valid() && j in s.jobs
    ensures j !in Without(s.jobs, j)
    ensures forall i :: 0 <= i < |Without(s.jobs, j)| ==> Without(s.jobs, j)[i] in s.jobs
  {
    WithoutTwins(s.jobs, j);
  }

  lemma RecordOfJob(s: ResponseScheduler, j: Job)
    requires s.Valid() && j in s.jobs
    ensures ValidRecord(j.record) && CanonRecord(j.record) == j.id
  {
  }

  /** The first of the answers that are left has no room beside the items. */
  ghost predicate NoneFits(items: seq<Item>, jobs: seq<Job>, size: nat)
    reads jobs`record, jobs`flush
  {
    jobs != [] ==> !HasRoom(items + [Answer(jobs[0].record, jobs[0].flush, 0)], size)
  }

  lemma NothingLeft(items: seq<Item>, size: nat)
    ensures NoneFits(items, [], size)
  {
  }

  /** The answers of a packet, and the jobs they were made from: the same records. */
  ghost predicate Answered(items: seq<Item>, done: seq<Job>) {
    && |items| == |done|
    && forall k :: 0 <= k < |items| ==> AnswerTo(items[k], done[k])
  }

  ghost predicate AnswerTo(item: Item, j: Job) {
    item.Answer? && ValidRecord(item.record) && CanonRecord(item.record) == j.id
  }

  lemma IsAnswerTo(item: Item, j: Job)
    requires item.Answer? && ValidRecord(item.record) && CanonRecord(item.record) == j.id
    ensures AnswerTo(item, j)
  {
  }

  lemma AnsweredOne(item: Item, j: Job)
    requires item.Answer? && ValidRecord(item.record) && CanonRecord(item.record) == j.id
    ensures Answered([item], [j])
  {
  }

  lemma HasItsFlush(j: Job)
    ensures HasFlush(Answer(j.record, j.flush, 0)) == j.flush
  {
  }

  lemma StartsFlushing(jobs: seq<Job>, flushed: set<Job>)
    requires forall x :: x in jobs && x in flushed ==> x.flush
    ensures Flushing(jobs, flushed)
  {
  }

  /** The first of the answers that are left, if it fits. */
  method FillOne(s: ResponseScheduler, p: Packet, aux: Record -> seq<Aux>, now: TimeVal, rand: nat,
                 ghost items0: seq<Item>, ghost done0: seq<Job>, ghost flushed: set<Job>)
    returns (ok: bool, ghost items: seq<Item>, ghost done: seq<Job>)
    requires s.Valid() && s.jobs != [] && Holds(p, items0) && AuxOk(aux) && Answered(items0, done0)
    requires Flushing(s.jobs, flushed) && FlushKept(items0, done0, flushed) && AuxTaken(s, items0, aux)
    modifies s, p`size, p`table, p.data
    modifies s.jobs`delivery, s.jobs`due, s.jobs`flush, s.jobs`querier, s.jobs`posters, s.jobs`record, s.jobs`state
    ensures s.Valid() && Holds(p, items) && Answered(items, done) && items0 <= items && done0 <= done
    ensures Flushing(s.jobs, flushed) && FlushKept(items, done, flushed) && AuxTaken(s, items, aux)
    ensures forall x :: x in old(s.jobs) ==> x in done || Stays(s, x)
    ensures forall x :: x in s.jobs ==> x in old(s.jobs) || fresh(x)
    ensures old(IsResponse(p)) ==> IsResponse(p)
    ensures if ok then |items| == |items0| + 1 && p.size > old(p.size)
            else items == items0 && done == done0 && NoneFits(items, s.jobs, p.data.Length)
  {
    hide ResponseScheduler.Valid, Carries, Paid, AuxOk, WriteRecord, Possible, AnswerTo, NoneFits, FlushKept, IsResponse, AuxTaken;
    hide ResponseScheduler.Accounts;
    items, done := items0, done0;
    var j := s.jobs[0];
    assert forall k :: 0 <= k < |s.jobs| ==> s.jobs[k] in s.jobs;
    RecordOfJob(s, j);
    ghost var item := Answer(j.record, j.flush, 0);
    IsAnswerTo(item, j);
    FlushKeptMore(items, done, flushed, item, j);
    ok := AddJob(s, p, j, aux, now, rand, items, flushed);
    AuxStays(s, items, aux);
    if ok {
      AuxMore(s, items, item, aux);
      items, done := items + [item], done + [j];
    }
  }

  /** More scheduled answers, from the head of the list, until one does not fit. */
  method FillUp(s: ResponseScheduler, p: Packet, aux: Record -> seq<Aux>, now: TimeVal, rand: nat,
                ghost items0: seq<Item>, ghost done0: seq<Job>, ghost flushed: set<Job>)
    returns (n: nat, ghost items: seq<Item>, ghost done: seq<Job>)
    requires s.Valid() && Holds(p, items0) && AuxOk(aux) && Answered(items0, done0)
    requires Flushing(s.jobs, flushed) && FlushKept(items0, done0, flushed) && AuxTaken(s, items0, aux)
    modifies s, p`size, p`table, p.data
    modifies s.jobs`delivery, s.jobs`due, s.jobs`flush, s.jobs`querier, s.jobs`posters, s.jobs`record, s.jobs`state
    ensures s.Valid() && Holds(p, items) && Answered(items, done) && items0 <= items && done0 <= done
    ensures n == |items| - |items0|
    ensures forall x :: x in old(s.jobs) ==> x in done || Stays(s, x)
    ensures FlushKept(items, done, flushed) && AuxTaken(s, items, aux)
    ensures old(IsResponse(p)) ==> IsResponse(p)
    ensures NoneFits(items, s.jobs, p.data.Length)
  {
    hide ResponseScheduler.Valid, Holds, AuxOk, Answered, NoneFits, FlushKept, Flushing, IsResponse, AuxTaken;
    n, items, done := 0, items0, done0;
    assert p.size <= p.data.Length by { WithinPacket(p, items); }
    while s.jobs != []
      invariant s.Valid() && Holds(p, items) && Answered(items, done) && items0 <= items && done0 <= done
      invariant n == |items| - |items0| && p.size <= p.data.Length && (old(IsResponse(p)) ==> IsResponse(p))
      invariant forall x :: x in old(s.jobs) ==> x in done || Stays(s, x)
      invariant forall x :: x in s.jobs ==> x in old(s.jobs) || fresh(x)
      invariant Flushing(s.jobs, flushed) && FlushKept(items, done, flushed) && AuxTaken(s, items, aux)
      decreases p.data.Length - p.size
    {
      assert forall k :: 0 <= k < |s.jobs| ==> s.jobs[k] in s.jobs;
      var ok;
      ok, items, done := FillOne(s, p, aux, now, rand, items, done, flushed);
      if !ok {
        return;
      }
      WithinPacket(p, items);
      n := n + 1;
    }
    NothingLeft(items, p.data.Length);
  }

  lemma WithinPacket(p: Packet, items: seq<Item>)
    requires Holds(p, items)
    ensures p.size <= p.data.Length
  {
  }

  method NewResponse(mtu: nat) returns (p: Packet)
    ensures fresh(p) && fresh(p.data) && Holds(p, []) && p.data.Length == Packet.MaxSize(mtu)
    ensures p.size == HEADER_SIZE && p.table == map[] && IsResponse(p)
  {
    p := NewPacket(mtu);
    U16Back(p.Contents(), 2 * FIELD_FLAGS, FLAGS_RESPONSE, 2 * FIELD_FLAGS);
    SetHeader(p, FIELD_FLAGS, FLAGS_RESPONSE, []);
  }

  /** The answers are counted. */
  method Counted(p: Packet, n: nat, ghost items: seq<Item>) returns (d: Text)
    requires Holds(p, items) && n == |items| && IsResponse(p)
    modifies p.data
    ensures Carries(d, items) && |d| >= HEADER_SIZE && Flags(d) == 0x8400 && ReadU16(d, 6) == |items| % 0x1_0000
  {
    hide Carries, Paid;
    U16Back(p.Contents(), 2 * FIELD_ANCOUNT, n % 0x1_0000, 2 * FIELD_FLAGS);
    U16Back(p.Contents(), 2 * FIELD_ANCOUNT, n % 0x1_0000, 2 * FIELD_ANCOUNT);
    SetHeader(p, FIELD_ANCOUNT, n % 0x1_0000, items);
    d := p.data[..p.size];
  }

  /**
   send_response_packet: the answer goes out with others from the head of the list, until one does not fit or none is
   left, or in a packet of its own made by its estimate; only if it does not fit there either is it dropped. No other
   answer is lost or delayed, and none goes out without the flush bit it was scheduled with.
   */
  method SendResponse(s: ResponseScheduler, j: Job, mtu: nat, aux: Record -> seq<Aux>, now: TimeVal, rand: nat)
    returns (packet: Option<Text>, ghost items: seq<Item>, ghost done: seq<Job>)
    requires s.Valid() && j in s.jobs && AuxOk(aux)
    modifies s
    modifies s.jobs`delivery, s.jobs`due, s.jobs`flush, s.jobs`querier, s.jobs`posters, s.jobs`record, s.jobs`state
    ensures s.Valid()
    ensures packet.None? <==> !old(FitsInterface(j, mtu)) && !old(Roomy(j.record))
    ensures packet.Some? ==> items != [] && items[0] == Answer(old(j.record), old(j.flush), 0) && Answered(items, done)
    ensures packet.Some? ==> Carries(packet.value, items) && |packet.value| >= HEADER_SIZE &&
                             Flags(packet.value) == 0x8400 && ReadU16(packet.value, 6) == |items| % 0x1_0000
    ensures done != [] && done[0] == j
    ensures packet.None? ==> done == [j] && j in s.history
    ensures forall x :: x in old(s.jobs) ==> x in done || Stays(s, x)
    ensures old(FitsInterface(j, mtu)) ==> NoneFits(items, s.jobs, Packet.MaxSize(mtu))
    ensures !old(FitsInterface(j, mtu)) ==> |items| == 1
    ensures FlushKept(items, done, set x | x in old(s.jobs) && old(x.flush))
    ensures packet.Some? ==> AuxTaken(s, items, aux)
  {
    hide ResponseScheduler.Valid, Carries, Paid, AuxOk, WriteRecord, AnswerTo, Estimate, Answered, Roomy, NoneFits;
    hide FlushKept, Flushing, Holds, Possible, IsResponse, AuxTaken, ResponseScheduler.Accounts;
    ghost var flushed := set x | x in s.jobs && x.flush;
    StartsFlushing(s.jobs, flushed);
    var p := NewResponse(mtu);
    var ok, n;
    ok, n, items, done := SendTogether(s, p, j, aux, now, rand, flushed);
    if !ok {
      assert items == [items[0]] && done == [done[0]];
      ok, p := SendAlone(s, j, aux, now, rand);
      if !ok {
        return None, items, done;
      }
    }
    var d := Counted(p, n, items);
    packet := Some(d);
  }

  /** The answer, if it fits an empty packet, and then others from the head of the list. */
  method SendTogether(s: ResponseScheduler, p: Packet, j: Job, aux: Record -> seq<Aux>, now: TimeVal, rand: nat,
                      ghost flushed: set<Job>)
    returns (ok: bool, n: nat, ghost items: seq<Item>, ghost done: seq<Job>)
    requires s.Valid() && j in s.jobs && AuxOk(aux) && Holds(p, []) && IsResponse(p) && p.size == HEADER_SIZE && p.table == map[]
    requires Flushing(s.jobs, flushed) && (j in flushed ==> j.flush)
    modifies s, p`size, p`table, p.data
    modifies s.jobs`delivery, s.jobs`due, s.jobs`flush, s.jobs`querier, s.jobs`posters, s.jobs`record, s.jobs`state
    ensures s.Valid() && (ok <==> old(Possible(WriteRecord(j.record, j.flush, 0, HEADER_SIZE, map[]), HEADER_SIZE, p.data.Length)))
    ensures items != [] && items[0] == Answer(old(j.record), old(j.flush), 0) && Answered(items, done) && n == |items|
    ensures done != [] && done[0] == j
    ensures FlushKept(items, done, flushed)
    ensures ok ==> Holds(p, items) && IsResponse(p) && AuxTaken(s, items, aux) && NoneFits(items, s.jobs, p.data.Length)
    ensures ok ==> forall x :: x in old(s.jobs) ==> x in done || Stays(s, x)
    ensures !ok ==> |items| == |done| == 1 && s.jobs == old(s.jobs) && j.Same() && forall x :: x in s.jobs ==> Stays(s, x)
  {
    hide ResponseScheduler.Valid, AuxOk, WriteRecord, AnswerTo, Answered, NoneFits;
    hide FlushKept, Flushing, Holds, Possible, IsResponse, AuxTaken, ResponseScheduler.Accounts, HasFlush;
    HasItsFlush(j);
    RecordOfJob(s, j);
    items, done, n := [Answer(j.record, j.flush, 0)], [j], 1;
    AnsweredOne(items[0], j);
    FlushKeptOne(items[0], j, flushed);
    assert [] + items == items;
    ok := AddJob(s, p, j, aux, now, rand, [], flushed);
    if ok {
      assert forall k :: 0 <= k < |s.jobs| ==> s.jobs[k] in s.jobs;
      n, items, done := FillUp(s, p, aux, now, rand, items, done, flushed);
      n := n + 1;
    }
  }

  /** A packet that is made for one answer, by its estimated size. */
  method SendAlone(s: ResponseScheduler, j: Job, aux: Record -> seq<Aux>, now: TimeVal, rand: nat)
    returns (ok: bool, p: Packet)
    requires s.Valid() && j in s.jobs && AuxOk(aux)
    modifies s
    modifies s.jobs`delivery, s.jobs`due, s.jobs`flush, s.jobs`querier, s.jobs`posters, s.jobs`record, s.jobs`state
    ensures s.Valid() && fresh(p) && fresh(p.data) && j !in s.jobs && j in s.history
    ensures ok <==> old(Roomy(j.record))
    ensures ok ==> Holds(p, [Answer(old(j.record), old(j.flush), 0)]) && IsResponse(p)
    ensures ok ==> AuxTaken(s, [Answer(old(j.record), old(j.flush), 0)], aux)
    ensures forall x :: x in old(s.jobs) && x != j ==> Stays(s, x)
  {
    hide ResponseScheduler.Valid, Carries, Paid, AuxOk, WriteRecord, Estimate, Roomy, IsResponse, AuxTaken, ResponseScheduler.Accounts;
    RecordOfJob(s, j);
    EstimateIsExact(j.record, j.flush);
    p := NewResponse(Estimate(j.record) + HEADER_SIZE + EXTRA_SIZE);
    ghost var item := Answer(j.record, j.flush, 0);
    assert [] + [item] == [item];
    ok := AddJob(s, p, j, aux, now, rand, [], {});
    if !ok {
      WithoutOne(s, j);
      s.MarkDone(j, now);
    }
  }

  /** The answer fits a packet of the interface. */
  ghost predicate FitsInterface(j: Job, mtu: nat)
    reads j
  {
    Possible(WriteRecord(j.record, j.flush, 0, HEADER_SIZE, map[]), HEADER_SIZE, Packet.MaxSize(mtu))
  }
}
