/** The response scheduler: what is to be sent, what was sent lately, and what the querier knows already. */
module ResponseSchedulers {
  import opened Bytes
  import opened Records
  import opened TimeVals
  import opened Lists

  const HISTORY_MSEC := 500
  const DEFER_MSEC := 20
  const JITTER_MSEC := 100
  const SUPPRESS_MSEC := 700

  datatype JobState = Scheduled | Done | Suppressed

  class Job {
    /** Records are replaced, but only ever by ones that are equal up to TTL. */
    ghost const id: CanonicalRecord
    var record: Record
    var state: JobState
    var delivery: TimeVal
    /** When the time event of the job is due. */
    var due: TimeVal
    var flush: bool
    var querier: Option<Text>
    /** Everybody the answer was posted for; None stands for a post without a querier. */
    ghost var posters: set<Option<Text>>

    constructor (record: Record, state: JobState)
      requires ValidRecord(record)
      ensures this.record == record && this.state == state && id == CanonRecord(record)
      ensures !flush && querier == None
    {
      this.record, this.state, this.id := record, state, CanonRecord(record);
      delivery, due, flush, querier, posters := TimeVal(0, 0), TimeVal(0, 0), false, None, {};
    }

    /** job_set_elapse_time, without jitter */
    method SetElapseTime(now: TimeVal, msec: nat)
      modifies `due
      ensures Micros(due) == Micros(now) + msec * 1000
    {
      ElapsesInTime(now, msec, 0, 0);
      due := ElapseTime(now, msec, 0, 0);
    }

    twostate predicate Same()
      reads this
    {
      && record == old(record) && state == old(state) && delivery == old(delivery) && due == old(due)
      && flush == old(flush) && querier == old(querier) && posters == old(posters)
    }
  }

  ghost predicate NoTwins(jobs: seq<Job>) {
    forall i, j :: 0 <= i < j < |jobs| ==> jobs[i].id != jobs[j].id
  }

  ghost predicate Apart(a: seq<Job>, b: seq<Job>) {
    forall x, y :: x in a && y in b ==> x.id != y.id
  }

  ghost predicate SameAnswer(x: Job, y: Job)
    reads x`querier, y`querier
  {
    x.id == y.id && x.querier == y.querier
  }

  ghost predicate NoTwinsPerQuerier(jobs: seq<Job>)
    reads jobs`querier
  {
    && (forall j :: j in jobs ==> j.querier.Some?)
    && (forall i, j :: 0 <= i < j < |jobs| ==> !(jobs[i].id == jobs[j].id && jobs[i].querier == jobs[j].querier))
  }

  ghost predicate JobsOk(jobs: seq<Job>, state: JobState)
    reads jobs`record, jobs`state
  {
    forall j :: j in jobs ==>
      ValidRecord(j.record) && CanonRecord(j.record) == j.id && j.state == state
  }

  ghost predicate OnTime(jobs: seq<Job>)
    reads jobs`delivery, jobs`due
  {
    forall j :: j in jobs ==> j.due == j.delivery
  }

  /** A job was posted for somebody, and names its querier exactly while nobody else has asked for the same answer. */
  ghost predicate NamesSole(posters: set<Option<Text>>, querier: Option<Text>) {
    posters != {} && if querier.Some? then posters == {querier} else forall q :: posters != {Some(q)}
  }

  ghost predicate SolePoster(jobs: seq<Job>)
    reads jobs`querier, jobs`posters
  {
    forall j :: j in jobs ==> NamesSole(j.posters, j.querier)
  }

  /** One more poster: the querier is still named exactly if it is the same again. */
  lemma OneMorePoster(posters: set<Option<Text>>, querier: Option<Text>, more: Option<Text>)
    requires NamesSole(posters, querier)
    ensures NamesSole(posters + {more}, if more == querier then querier else None)
  {
    if more != querier {
      forall q: Text
        ensures posters + {more} != {Some(q)}
      {
        assert more in posters + {more};
        if forall x :: x in posters ==> x == Some(q) {
          assert posters == {Some(q)};
        }
      }
    } else if querier.None? {
      assert None in posters + {more};
    }
  }

  lemma FirstPoster(querier: Option<Text>)
    ensures NamesSole({querier}, querier)
  {
    assert querier in {querier};
  }

  /** A record already sent, or known to be known, makes another one superfluous. */
  predicate Covers(sent: Record, r: Record) {
    (r.ttl == 0 <==> sent.ttl == 0) && sent.ttl >= r.ttl / 2
  }

  /** In TTLs: a goodbye is as good as a goodbye, and anything else as anything else with half its TTL or more. */
  lemma CoversInTtls(sent: Record, r: Record)
    ensures Covers(sent, r) <==> if r.ttl == 0 then sent.ttl == 0 else sent.ttl > 0 && 2 * sent.ttl + 1 >= r.ttl
  {
  }

  ghost predicate Has(jobs: seq<Job>, id: CanonicalRecord) {
    exists j :: j in jobs && j.id == id
  }

  lemma WithoutTwins(jobs: seq<Job>, x: Job)
    requires NoTwins(jobs)
    ensures NoTwins(Without(jobs, x)) && x !in Without(jobs, x)
    ensures x in jobs ==> !Has(Without(jobs, x), x.id)
  {
    WithoutUnique(jobs, x, (j: Job) => j.id);
  }

  lemma MovesToHistory(jobs: seq<Job>, history: seq<Job>, j: Job)
    requires NoTwins(jobs) && NoTwins(history) && Apart(jobs, history) && j in jobs
    ensures NoTwins([j] + history) && Apart(Without(jobs, j), [j] + history)
  {
    WithoutTwins(jobs, j);
  }

  /** A list keeps its order of things when a job with a new record is put at its head. */
  lemma WithFirst(j: Job, jobs: seq<Job>, state: JobState)
    requires JobsOk(jobs, state) && NoTwins(jobs) && OnTime(jobs) && SolePoster(jobs) && !Has(jobs, j.id)
    requires ValidRecord(j.record) && CanonRecord(j.record) == j.id && j.state == state
    requires j.due == j.delivery && NamesSole(j.posters, j.querier)
    ensures JobsOk([j] + jobs, state) && NoTwins([j] + jobs) && OnTime([j] + jobs) && SolePoster([j] + jobs)
  {
    hide ValidRecord, CanonRecord;
  }

  lemma KnownFirst(j: Job, suppressed: seq<Job>)
    requires JobsOk(suppressed, Suppressed) && NoTwinsPerQuerier(suppressed) && j.querier.Some? && j.state == Suppressed
    requires ValidRecord(j.record) && CanonRecord(j.record) == j.id
    requires forall x :: x in suppressed ==> !(x.id == j.id && x.querier == j.querier)
    ensures JobsOk([j] + suppressed, Suppressed) && NoTwinsPerQuerier([j] + suppressed)
  {
    hide ValidRecord, CanonRecord;
  }

  lemma {:induction false} WithoutTwinsPerQuerier(jobs: seq<Job>, x: Job)
    requires NoTwinsPerQuerier(jobs)
    ensures NoTwinsPerQuerier(Without(jobs, x)) && x !in Without(jobs, x)
    ensures x in jobs ==> forall y :: y in Without(jobs, x) ==> !(y.id == x.id && y.querier == x.querier)
  {
    if jobs != [] {
      var tail := jobs[1..];
      var rest := Without(tail, x);
      assert NoTwinsPerQuerier(tail);
      forall y | y in tail
        ensures !(y.id == jobs[0].id && y.querier == jobs[0].querier)
      {
        var k :| 0 <= k < |tail| && tail[k] == y;
        assert jobs[k + 1] == y;
      }
      if jobs[0] != x {
        WithoutTwinsPerQuerier(tail, x);
        forall j | 0 <= j < |rest|
          ensures !(jobs[0].id == rest[j].id && jobs[0].querier == rest[j].querier)
        {
          assert rest[j] in tail;
        }
      }
    }
  }

  class ResponseScheduler {
    var jobs: seq<Job>
    var history: seq<Job>
    var suppressed: seq<Job>

    /** Each record occurs at most once in jobs and history together, and at most once per querier among the suppressed. */
    ghost predicate Valid()
      reads this, jobs, history, suppressed
    {
      && JobsOk(jobs, Scheduled) && JobsOk(history, Done) && JobsOk(suppressed, Suppressed)
      && NoTwins(jobs) && NoTwins(history) && Apart(jobs, history) && NoTwinsPerQuerier(suppressed)
      && OnTime(jobs) && SolePoster(jobs)
    }

    constructor ()
      ensures Valid() && jobs == [] && history == [] && suppressed == []
    {
      jobs, history, suppressed := [], [], [];
    }

    /** The first job of a list whose record equals r up to TTL. */
    method Find(list: seq<Job>, r: Record, ghost state: JobState) returns (found: Option<Job>)
      requires JobsOk(list, state) && ValidRecord(r)
      ensures found.None? ==> !Has(list, CanonRecord(r))
      ensures found.Some? ==> found.value in list && found.value.id == CanonRecord(r)
    {
      hide CanonRecord, ValidRecord;
      for i := 0 to |list|
        invariant forall k :: 0 <= k < i ==> list[k].id != CanonRecord(r)
      {
        assert list[i] in list;
        var same := RecordEqualNoTtl(list[i].record, r);
        if same {
          return Some(list[i]);
        }
      }
      return None;
    }

    /** job_mark_done: from the scheduled jobs to the head of the history. */
    method MarkDone(j: Job, now: TimeVal)
      requires Valid() && j in jobs
      modifies `jobs, `history, j`state, j`due, j`delivery
      ensures Valid() && jobs == Without(old(jobs), j) && history == [j] + old(history)
      ensures forall x {:trigger Accounts(x)} :: old(Accounts(x)) ==> Accounts(x)
      ensures j.delivery == now && Micros(j.due) == Micros(now) + 500000
    {
      hide CanonRecord, ValidRecord, NoTwins, Apart, NoTwinsPerQuerier, NamesSole;
      WithoutTwins(jobs, j);
      MovesToHistory(jobs, history, j);
      jobs := Without(jobs, j);
      history := [j] + history;
      j.state := Done;
      j.SetElapseTime(now, HISTORY_MSEC);
      j.delivery := now;
    }

    /** job_free */
    method Free(j: Job)
      requires Valid()
      requires match j.state case Scheduled => j in jobs case Done => j in history case Suppressed => j in suppressed
      modifies `jobs, `history, `suppressed
      ensures Valid()
      ensures jobs == if j.state == Scheduled then Without(old(jobs), j) else old(jobs)
      ensures history == if j.state == Done then Without(old(history), j) else old(history)
      ensures suppressed == if j.state == Suppressed then Without(old(suppressed), j) else old(suppressed)
    {
      hide CanonRecord, ValidRecord, Without;
      match j.state {
        case Scheduled =>
          WithoutTwins(jobs, j);
          jobs := Without(jobs, j);
        case Done =>
          WithoutTwins(history, j);
          history := Without(history, j);
        case Suppressed =>
          WithoutTwinsPerQuerier(suppressed, j);
          suppressed := Without(suppressed, j);
      }
    }

    /** find_history_job: an entry older than 500 ms is removed and not found. */
    method FindHistory(r: Record, now: TimeVal) returns (found: Option<Job>)
      requires Valid() && ValidRecord(r)
      modifies `history
      ensures Valid()
      ensures found.None? ==> !Has(history, CanonRecord(r))
      ensures found.Some? ==> history == old(history) && found.value in history && found.value.id == CanonRecord(r)
      ensures found.Some? ==> Micros(now) - Micros(found.value.delivery) < 501000
      ensures forall j :: j in history ==> j in old(history)
      ensures forall j :: j in old(history) && j !in history ==>
                j.id == CanonRecord(r) && Micros(now) - Micros(j.delivery) >= 501000
    {
      hide CanonRecord, ValidRecord, Diff, Quot;
      found := Find(history, r, Done);
      if found.Some? {
        AgeInMillis(now, found.value.delivery, HISTORY_MSEC);
        if Quot(Diff(now, found.value.delivery), 1000) > HISTORY_MSEC {
          WithoutTwins(history, found.value);
          history := Without(history, found.value);
          return None;
        }
      }
    }

    /** find_suppressed_job: an entry older than 700 ms is removed and not found. */
    method FindSuppressed(r: Record, querier: Text, now: TimeVal) returns (found: Option<Job>)
      requires Valid() && ValidRecord(r)
      modifies `suppressed
      ensures Valid()
      ensures found.None? ==> forall j :: j in suppressed ==> !(j.id == CanonRecord(r) && j.querier == Some(querier))
      ensures found.Some? ==> suppressed == old(suppressed) && found.value in suppressed
      ensures found.Some? ==> found.value.id == CanonRecord(r) && found.value.querier == Some(querier)
      ensures found.Some? ==> Micros(now) - Micros(found.value.delivery) <= 700000
      ensures forall j :: j in suppressed ==> j in old(suppressed)
      ensures forall j :: j in old(suppressed) && j !in suppressed ==>
                j.id == CanonRecord(r) && j.querier == Some(querier) && Micros(now) - Micros(j.delivery) > 700000
    {
      hide CanonRecord, ValidRecord, Diff;
      found := FindKnown(r, querier);
      if found.Some? {
        DiffIsExact(now, found.value.delivery);
        if Diff(now, found.value.delivery) > SUPPRESS_MSEC * 1000 {
          WithoutTwinsPerQuerier(suppressed, found.value);
          suppressed := Without(suppressed, found.value);
          return None;
        }
      }
    }

    method FindKnown(r: Record, querier: Text) returns (found: Option<Job>)
      requires Valid() && ValidRecord(r)
      ensures found.None? ==> forall j :: j in suppressed ==> !(j.id == CanonRecord(r) && j.querier == Some(querier))
      ensures found.Some? ==> found.value in suppressed && found.value.id == CanonRecord(r) && found.value.querier == Some(querier)
    {
      hide CanonRecord, ValidRecord, NoTwins, Apart, OnTime;
      for i := 0 to |suppressed|
        invariant forall k :: 0 <= k < i ==> !(suppressed[k].id == CanonRecord(r) && suppressed[k].querier == Some(querier))
      {
        assert suppressed[i] in suppressed;
        var same := RecordEqualNoTtl(suppressed[i].record, r);
        if same && suppressed[i].querier == Some(querier) {
          return Some(suppressed[i]);
        }
      }
      return None;
    }

    /**
     The querier has told us in the last 700 ms that it knows the answer, with half of its TTL or more; a goodbye is
     known only as a goodbye.
     */
    ghost predicate KnownToQuerier(r: Record, querier: Option<Text>, now: TimeVal)
      requires ValidRecord(r)
      reads `suppressed, suppressed
    {
      querier.Some? && exists j :: j in suppressed && j.id == CanonRecord(r) && j.querier == querier &&
                                   (if r.ttl == 0 then j.record.ttl == 0 else j.record.ttl > 0 && 2 * j.record.ttl + 1 >= r.ttl) &&
                                   Micros(now) - Micros(j.delivery) <= 700000
    }

    /** The answer was on the wire in the last 500 ms, likewise, and with the flush bit if it is asked for. */
    ghost predicate SentLately(r: Record, flush: bool, now: TimeVal)
      requires ValidRecord(r)
      reads `history, history
    {
      exists j :: j in history && j.id == CanonRecord(r) && (flush ==> j.flush) &&
                  (if r.ttl == 0 then j.record.ttl == 0 else j.record.ttl > 0 && 2 * j.record.ttl + 1 >= r.ttl) &&
                  Micros(now) - Micros(j.delivery) < 501000
    }

    /** A scheduled job stays scheduled, is delivered no later, and keeps its flush bit. */
    twostate predicate Kept(j: Job)
      reads this, j
    {
      j in jobs && Compare(j.delivery, old(j.delivery)) <= 0 && (old(j.flush) ==> j.flush)
    }

    /** The answer is scheduled, was sent lately, or is known to somebody. */
    ghost predicate Accounts(id: CanonicalRecord)
      reads `jobs, `history, `suppressed
    {
      Has(jobs, id) || Has(history, id) || Has(suppressed, id)
    }

    /** Nothing is forgotten but what is taken up again. */
    twostate lemma AccountsStill(id: CanonicalRecord)
      requires forall j :: j in old(jobs) ==> j in jobs
      requires forall j :: j in old(history) && j !in history ==> j.id == id
      requires forall j :: j in old(suppressed) && j !in suppressed ==> j.id == id
      requires Accounts(id)
      ensures forall x {:trigger Accounts(x)} :: old(Accounts(x)) ==> Accounts(x)
    {
    }

    /** Suppression by a known answer of the same querier. */
    method CheckKnown(r: Record, querier: Option<Text>, now: TimeVal) returns (known: bool)
      requires Valid() && ValidRecord(r)
      modifies `suppressed
      ensures Valid() && known == old(KnownToQuerier(r, querier, now))
      ensures known ==> Has(suppressed, CanonRecord(r))
      ensures forall j :: j in suppressed ==> j in old(suppressed)
      ensures forall j :: j in old(suppressed) && j !in suppressed ==>
                querier.Some? && j.id == CanonRecord(r) && j.querier == querier && Micros(now) - Micros(j.delivery) > 700000
    {
      hide CanonRecord, ValidRecord, Diff, Covers;
      known := false;
      if querier.Some? {
        OnePerQuerier(r, querier.value);
        var found := FindSuppressed(r, querier.value, now);
        if found.Some? {
          CoversInTtls(found.value.record, r);
        }
        known := found.Some? && Covers(found.value.record, r);
      }
    }

    lemma OnePerQuerier(r: Record, querier: Text)
      requires Valid() && ValidRecord(r)
      ensures forall x, y :: x in suppressed && y in suppressed && SameAnswer(x, y) ==> x == y
    {
    }

    lemma OneInHistory(r: Record)
      requires Valid() && ValidRecord(r)
      ensures forall x, y :: x in history && y in history && x.id == y.id == CanonRecord(r) ==> x == y
    {
    }

    lemma OneScheduled(j: Job)
      requires Valid() && j in jobs
      ensures forall x :: x in jobs && x.id == j.id ==> x == j
    {
    }

    /** Suppression by the local history; an entry that does not suffice is forgotten. */
    method CheckHistory(r: Record, flush: bool, now: TimeVal) returns (sent: bool)
      requires Valid() && ValidRecord(r)
      modifies `history
      ensures Valid() && sent == old(SentLately(r, flush, now))
      ensures sent ==> history == old(history) && Has(history, CanonRecord(r))
      ensures !sent ==> !Has(history, CanonRecord(r))
      ensures forall j :: j in history ==> j in old(history)
      ensures forall j :: j in old(history) && j !in history ==> j.id == CanonRecord(r)
    {
      hide CanonRecord, ValidRecord, Diff, Quot, Covers;
      OneInHistory(r);
      var found := FindHistory(r, now);
      if found.Some? {
        var j := found.value;
        CoversInTtls(j.record, r);
        if Covers(j.record, r) && (j.flush || !flush) {
          return true;
        }
        WithoutTwins(history, j);
        history := Without(history, j);
      }
      return false;
    }

    lemma NotElsewhere(j: Job)
      requires Valid() && j in jobs
      ensures j !in history && j !in suppressed
    {
    }

    /** A job that is there already: earlier if need be, with the flush bit if either has it, for one querier only. */
    method Merge(j: Job, r: Record, flush: bool, querier: Option<Text>, tv: TimeVal)
      requires Valid() && j in jobs && ValidRecord(r) && j.id == CanonRecord(r)
      modifies j`delivery, j`due, j`flush, j`querier, j`posters, j`record
      ensures Valid()
      ensures j.delivery == if Compare(tv, old(j.delivery)) < 0 then tv else old(j.delivery)
      ensures j.flush == (old(j.flush) || flush) && j.record == r && j.posters == old(j.posters) + {querier}
      ensures j.querier == if querier == old(j.querier) then querier else None
    {
      hide CanonRecord, ValidRecord, Compare, Apart, NoTwins, NoTwinsPerQuerier, NamesSole;
      NotElsewhere(j);
      Hasten(j, tv);
      if flush {
        j.flush := true;
      }
      AskedBy(j, querier);
      j.record := r;
    }

    method Hasten(j: Job, tv: TimeVal)
      requires j.due == j.delivery
      modifies j`delivery, j`due
      ensures j.due == j.delivery == if Compare(tv, old(j.delivery)) < 0 then tv else old(j.delivery)
    {
      if Compare(tv, j.delivery) < 0 {
        j.delivery := tv;
        j.due := j.delivery;
      }
    }

    /** The querier of a job stays named only if it is the one that asks again. */
    method AskedBy(j: Job, querier: Option<Text>)
      requires NamesSole(j.posters, j.querier)
      modifies j`querier, j`posters
      ensures NamesSole(j.posters, j.querier) && j.posters == old(j.posters) + {querier}
      ensures j.querier == if querier == old(j.querier) then querier else None
    {
      OneMorePoster(j.posters, j.querier, querier);
      if querier.None? || (j.querier.Some? && querier != j.querier) {
        j.querier := None;
      }
      j.posters := j.posters + {querier};
    }

    /** A new job at the head of the list. */
    method Schedule(r: Record, flush: bool, querier: Option<Text>, tv: TimeVal) returns (j: Job)
      requires Valid() && ValidRecord(r) && !Has(jobs, CanonRecord(r)) && !Has(history, CanonRecord(r))
      modifies `jobs
      ensures Valid() && fresh(j) && jobs == [j] + old(jobs)
      ensures j.record == r && j.id == CanonRecord(r) && j.flush == flush && j.delivery == tv && j.posters == {querier}
    {
      hide CanonRecord, ValidRecord, NoTwinsPerQuerier, JobsOk, NoTwins, OnTime, SolePoster, NamesSole;
      j := new Job(r, Scheduled);
      j.delivery := tv;
      j.due := tv;
      j.flush := flush;
      j.querier := querier;
      j.posters := {querier};
      FirstPoster(querier);
      WithFirst(j, jobs, Scheduled);
      jobs := [j] + jobs;
    }

    /** An answer is refused for one that was sent or is known, and is as good. */
    lemma WhyRefused(r: Record, flush: bool, querier: Option<Text>, now: TimeVal)
      requires ValidRecord(r)
      ensures KnownToQuerier(r, querier, now) || SentLately(r, flush, now) ==>
                exists j :: (j in history || j in suppressed) && j.id == CanonRecord(r) &&
                            if r.ttl == 0 then j.record.ttl == 0 else j.record.ttl > 0 && 2 * j.record.ttl + 1 >= r.ttl
    {
    }

    /**
     avahi_response_scheduler_post: the answer is scheduled unless its querier knows it or it was sent lately, and no
     answer that was scheduled before is lost, delayed or deprived of its flush bit.
     */
    method Post(r: Record, flush: bool, querier: Option<Text>, immediately: bool, now: TimeVal, rand: nat)
      returns (posted: bool)
      requires Valid() && ValidRecord(r)
      requires !IsPattern(r.key)
      modifies this, jobs`delivery, jobs`due, jobs`flush, jobs`querier, jobs`posters, jobs`record
      ensures Valid()
      ensures posted <==> !old(KnownToQuerier(r, querier, now)) && !old(SentLately(r, flush, now))
      ensures !posted ==> exists j :: (j in old(history) || j in old(suppressed)) && j.id == CanonRecord(r) &&
                                      if r.ttl == 0 then old(j.record.ttl) == 0
                                      else old(j.record.ttl) > 0 && 2 * old(j.record.ttl) + 1 >= r.ttl
      ensures forall j :: j in old(jobs) ==> Kept(j) && (j.id != CanonRecord(r) || !posted ==> j.Same())
      ensures posted ==> exists j :: j in jobs && Promised(j, r, flush, querier, PostTime(immediately, now, rand))
      ensures forall j :: j in old(jobs) && j.delivery != old(j.delivery) ==>
                PostedFor(immediately, rand, Micros(j.delivery) - Micros(now))
      ensures forall j :: j in jobs && j !in old(jobs) ==> PostedFor(immediately, rand, Micros(j.delivery) - Micros(now))
      ensures Accounts(CanonRecord(r)) && forall x {:trigger Accounts(x)} :: old(Accounts(x)) ==> Accounts(x)
      ensures !posted ==> jobs == old(jobs)
      ensures forall j :: j in jobs ==> j in old(jobs) || (fresh(j) && posted && j.id == CanonRecord(r))
      ensures forall j :: j in history ==> j in old(history)
      ensures forall j :: j in old(history) && j !in history ==> j.id == CanonRecord(r)
    {
      hide Valid, CanonRecord, ValidRecord, KnownToQuerier, SentLately, PostTime, Diff, Quot, PostedFor, Promised;
      WhyRefused(r, flush, querier, now);
      posted := false;
      var known := CheckKnown(r, querier, now);
      if known {
        AccountsStill(CanonRecord(r));
        return;
      }
      var sent := CheckHistory(r, flush, now);
      if sent {
        AccountsStill(CanonRecord(r));
        return;
      }
      Accept(r, flush, querier, immediately, now, rand);
      AccountsStill(CanonRecord(r));
      posted := true;
    }

    /** The answer is wanted: it is merged into the job that is there already, or scheduled. */
    method Accept(r: Record, flush: bool, querier: Option<Text>, immediately: bool, now: TimeVal, rand: nat)
      requires Valid() && ValidRecord(r) && !Has(history, CanonRecord(r))
      modifies `jobs, jobs`delivery, jobs`due, jobs`flush, jobs`querier, jobs`posters, jobs`record
      ensures Valid()
      ensures forall j :: j in old(jobs) ==> Kept(j) && (j.id != CanonRecord(r) ==> j.Same())
      ensures Has(jobs, CanonRecord(r))
      ensures exists j :: j in jobs && Promised(j, r, flush, querier, PostTime(immediately, now, rand))
      ensures forall j :: j in old(jobs) && j.delivery != old(j.delivery) ==>
                PostedFor(immediately, rand, Micros(j.delivery) - Micros(now))
      ensures forall j :: j in jobs && j !in old(jobs) ==>
                fresh(j) && j.id == CanonRecord(r) && PostedFor(immediately, rand, Micros(j.delivery) - Micros(now))
    {
      hide CanonRecord, ValidRecord, PostTime, PostedFor, JobsOk, NoTwins, NoTwinsPerQuerier, OnTime, SolePoster, Apart;
      var tv := PostTime(immediately, now, rand);
      PostTimeDelay(immediately, now, rand);
      var found := FindScheduled(r);
      var j: Job;
      if found.Some? {
        j := found.value;
        OneScheduled(j);
        Merge(j, r, flush, querier, tv);
      } else {
        j := Schedule(r, flush, querier, tv);
      }
      assert j in jobs && Promised(j, r, flush, querier, tv);
    }

    /** find_scheduled_job */
    method FindScheduled(r: Record) returns (found: Option<Job>)
      requires Valid() && ValidRecord(r)
      ensures found.None? ==> !Has(jobs, CanonRecord(r))
      ensures found.Some? ==> found.value in jobs && found.value.id == CanonRecord(r)
    {
      found := Find(jobs, r, Scheduled);
    }

    /** The history part of avahi_response_scheduler_incoming: the record counts as sent just now. */
    method Remember(r: Record, flush: bool, now: TimeVal)
      requires Valid() && ValidRecord(r) && !Has(jobs, CanonRecord(r))
      modifies `history, history
      ensures Valid()
      ensures exists j :: j in history && Remembered(j, r, flush, now)
      ensures forall j :: j in old(history) && j.id != CanonRecord(r) ==> j in history && j.Same()
      ensures forall j :: j in history ==> j in old(history) || (fresh(j) && j.id == CanonRecord(r))
    {
      hide CanonRecord, ValidRecord, Diff, Quot, Remembered, JobsOk, NoTwins, NoTwinsPerQuerier, OnTime, SolePoster, Apart;
      OneInHistory(r);
      var found := FindHistory(r, now);
      var j: Job;
      if found.Some? {
        j := found.value;
      } else {
        j := AddDone(r);
      }
      UpdateDone(j, r, flush, now);
      assert j in history && Remembered(j, r, flush, now);
    }

    method AddDone(r: Record) returns (j: Job)
      requires Valid() && ValidRecord(r) && !Has(jobs, CanonRecord(r)) && !Has(history, CanonRecord(r))
      modifies `history
      ensures Valid() && fresh(j) && history == [j] + old(history) && j.id == CanonRecord(r)
    {
      hide CanonRecord, ValidRecord;
      j := new Job(r, Done);
      history := [j] + history;
    }

    method UpdateDone(j: Job, r: Record, flush: bool, now: TimeVal)
      requires Valid() && j in history && ValidRecord(r) && j.id == CanonRecord(r)
      modifies j`record, j`flush, j`querier, j`delivery, j`due
      ensures Valid() && Remembered(j, r, flush, now)
    {
      hide CanonRecord, ValidRecord, ElapseTime;
      j.record := r;
      j.flush := flush;
      j.querier := None;
      j.delivery := now;
      j.SetElapseTime(now, HISTORY_MSEC);
    }

    /**
     avahi_response_scheduler_incoming: somebody else sent the record. A scheduled answer is dropped only if what was
     sent is as good: the same kind, at least half its TTL, and the flush bit if the answer has it.
     */
    method Incoming(r: Record, flush: bool, now: TimeVal)
      requires Valid() && ValidRecord(r)
      modifies this, jobs`state, jobs`due, jobs`delivery, history
      ensures Valid()
      ensures forall j :: j in old(jobs) ==>
                if j.id == CanonRecord(r) && (old(j.flush) ==> flush) &&
                   (if r.ttl == 0 then old(j.record.ttl) == 0 else old(j.record.ttl) > 0 && 2 * r.ttl + 1 >= old(j.record.ttl))
                then j in history && j !in jobs
                else j in jobs && j.Same()
      ensures forall j :: j in jobs ==> j in old(jobs)
      ensures !old(Has(jobs, CanonRecord(r))) ==> exists j :: j in history && Remembered(j, r, flush, now)
    {
      hide CanonRecord, ValidRecord, Covers;
      var found := Find(jobs, r, Scheduled);
      if found.Some? {
        var j := found.value;
        OneScheduled(j);
        CoversInTtls(r, j.record);
        if (!j.flush || flush) && Covers(r, j.record) {
          WithoutTwins(jobs, j);
          MarkDone(j, now);
        }
        return;
      }
      Remember(r, flush, now);
    }

    /** The last part of avahi_response_scheduler_suppress: the querier knows the record as of now. */
    method NoteKnown(r: Record, querier: Text, now: TimeVal)
      requires Valid() && ValidRecord(r)
      modifies `suppressed, suppressed
      ensures Valid()
      ensures exists j :: j in suppressed && Known(j, r, querier, now)
      ensures forall j :: j in old(suppressed) && !(j.id == CanonRecord(r) && old(j.querier) == Some(querier)) ==>
                j in suppressed && j.Same()
    {
      hide CanonRecord, ValidRecord, Diff, ElapseTime, JobsOk, NoTwins, NoTwinsPerQuerier, OnTime, SolePoster, Apart;
      OnePerQuerier(r, querier);
      var found := FindSuppressed(r, querier, now);
      var j: Job;
      if found.Some? {
        j := found.value;
        UpdateKnown(j, r, now);
      } else {
        j := AddKnown(r, querier, now);
      }
      assert j in suppressed && Known(j, r, querier, now);
    }

    method UpdateKnown(j: Job, r: Record, now: TimeVal)
      requires Valid() && j in suppressed && ValidRecord(r) && j.id == CanonRecord(r)
      modifies j`record, j`delivery, j`due
      ensures Valid() && j.record == r && j.delivery == now && Micros(j.due) == Micros(now) + 700000
    {
      hide CanonRecord, ValidRecord, ElapseTime;
      j.record := r;
      j.delivery := now;
      j.SetElapseTime(now, SUPPRESS_MSEC);
    }

    method AddKnown(r: Record, querier: Text, now: TimeVal) returns (j: Job)
      requires Valid() && ValidRecord(r)
      requires forall x :: x in suppressed ==> !(x.id == CanonRecord(r) && x.querier == Some(querier))
      modifies `suppressed
      ensures Valid() && fresh(j) && suppressed == [j] + old(suppressed) && Known(j, r, querier, now)
    {
      hide CanonRecord, ValidRecord, JobsOk, NoTwins, NoTwinsPerQuerier, Apart, OnTime, SolePoster;
      j := new Job(r, Suppressed);
      j.querier := Some(querier);
      j.delivery := now;
      j.SetElapseTime(now, SUPPRESS_MSEC);
      KnownFirst(j, suppressed);
      suppressed := [j] + suppressed;
    }

    /**
     avahi_response_scheduler_suppress: a known answer takes back a scheduled one exactly if nobody but its sender has
     asked for it and it is as good.
     */
    method Suppress(r: Record, querier: Text, now: TimeVal)
      requires Valid() && ValidRecord(r)
      modifies `jobs, `history, `suppressed, suppressed
      ensures Valid() && history == old(history)
      ensures forall j :: j in old(jobs) ==>
                (j !in jobs <==>
                   && j.id == CanonRecord(r) && j.posters == {Some(querier)}
                   && if r.ttl == 0 then j.record.ttl == 0 else j.record.ttl > 0 && 2 * r.ttl + 1 >= j.record.ttl)
      ensures forall j :: j in jobs ==> j in old(jobs)
      ensures exists j :: j in suppressed && Known(j, r, querier, now)
    {
      hide CanonRecord, ValidRecord, Covers, Known;
      var found := Find(jobs, r, Scheduled);
      if found.Some? {
        var j := found.value;
        OneScheduled(j);
        assert NamesSole(j.posters, j.querier);
        CoversInTtls(r, j.record);
        if j.querier == Some(querier) && Covers(r, j.record) {
          WithoutTwins(jobs, j);
          Free(j);
        }
      }
      NoteKnown(r, querier, now);
    }
  }

  ghost predicate Remembered(j: Job, r: Record, flush: bool, now: TimeVal)
    reads j
  {
    j.record == r && j.flush == flush && j.delivery == now && Micros(j.due) == Micros(now) + 500000
  }

  ghost predicate Known(j: Job, r: Record, querier: Text, now: TimeVal)
    reads j
  {
    && j.record == r && j.querier == Some(querier) && j.delivery == now
    && Micros(j.due) == Micros(now) + 700000
  }

  function PostTime(immediately: bool, now: TimeVal, rand: nat): TimeVal {
    ElapseTime(now, if immediately then 0 else DEFER_MSEC, if immediately then 0 else JITTER_MSEC, rand)
  }

  /** The delay an answer is posted for: none at all, or 20 to 120 ms. */
  predicate PostedFor(immediately: bool, rand: nat, micros: int) {
    if immediately then micros == 0 else rand <= RAND_MAX ==> 20000 <= micros < 120000
  }

  lemma PostTimeDelay(immediately: bool, now: TimeVal, rand: nat)
    ensures PostedFor(immediately, rand, Micros(PostTime(immediately, now, rand)) - Micros(now))
  {
    if immediately {
      ElapsesInTime(now, 0, 0, 0);
    } else if rand <= RAND_MAX {
      ElapsesInTime(now, DEFER_MSEC, JITTER_MSEC, rand);
    }
  }

  /** The answer is scheduled as posted. */
  ghost predicate Promised(j: Job, r: Record, flush: bool, querier: Option<Text>, tv: TimeVal)
    reads j
  {
    j.record == r && (flush ==> j.flush) && Compare(j.delivery, tv) <= 0 && querier in j.posters
  }
}
