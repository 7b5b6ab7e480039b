/** The queue of timed events and the one poll timeout that drives it. */
module TimeEvents {
  import opened Bytes
  import opened HeapOrder
  import opened PrioLinks
  import opened PrioQueues
  import opened TimeVals

  /** What orders an event: when it is due, and when it last ran. */
  datatype Times = Times(expiry: TimeVal, lastRun: TimeVal)

  type Event = Node<Times>

  const NEVER := TimeVal(0, 0)

  function CompareTimes(a: Times, b: Times): int {
    var c := Compare(a.expiry, b.expiry);
    if c != 0 then c else Compare(a.lastRun, b.lastRun)
  }

  lemma CompareTimesIsOrder()
    ensures TotalPreorder(CompareTimes)
  {
  }

  /** The poll timeout is the least expiry, and disabled exactly when there is no event. */
  ghost predicate Least(timeout: Option<TimeVal>, events: set<Event>)
    reads events`data
  {
    match timeout
    case None => events == {}
    case Some(t) =>
      && (exists e :: e in events && e.data.expiry == t)
      && (forall e :: e in events ==> Compare(t, e.data.expiry) <= 0)
  }

  class TimeEventQueue {
    const prioq: PrioQueue<Times>
    var timeout: Option<TimeVal>

    ghost function Events(): set<Event>
      reads prioq`nodes
    {
      prioq.Members()
    }

    ghost predicate Ready()
      reads prioq, prioq.nodes
    {
      prioq.Valid() && prioq.compare == CompareTimes
    }

    ghost predicate Valid()
      reads this, prioq, prioq.nodes
    {
      Ready() && Least(timeout, Events())
    }

    constructor ()
      ensures Valid() && Events() == {} && fresh(prioq)
    {
      CompareTimesIsOrder();
      prioq := new PrioQueue(CompareTimes);
      timeout := None;
    }

    /** update_timeout */
    method UpdateTimeout()
      requires Ready()
      modifies `timeout
      ensures Valid()
    {
      hide PrioQueue.Valid;
      prioq.RootIsMinimum();
      if prioq.root != null {
        timeout := Some(prioq.root.data.expiry);
      } else {
        timeout := None;
      }
    }

    /** avahi_time_event_new */
    method New(expiry: Option<TimeVal>) returns (e: Event)
      requires Valid()
      modifies `timeout, prioq, prioq.nodes
      ensures Valid() && fresh(e) && Events() == old(Events()) + {e}
      ensures e.data == Times(if expiry.Some? then expiry.value else NEVER, NEVER)
      ensures forall x :: x in old(Events()) ==> x.data == old(x.data)
    {
      hide PrioQueue.Valid;
      e := prioq.Put(Times(if expiry.Some? then expiry.value else NEVER, NEVER));
      UpdateTimeout();
    }

    /** avahi_time_event_free */
    method Free(e: Event)
      requires Valid() && e in Events()
      modifies `timeout, prioq, prioq.nodes
      ensures Valid() && Events() == old(Events()) - {e}
      ensures forall x :: x in old(Events()) ==> x.data == old(x.data)
    {
      hide PrioQueue.Valid;
      prioq.Remove(e);
      UpdateTimeout();
    }

    /** avahi_time_event_update */
    method Update(e: Event, expiry: TimeVal)
      requires Valid() && e in Events()
      modifies `timeout, prioq, prioq.nodes
      ensures Valid() && Events() == old(Events())
      ensures e.data == Times(expiry, old(e.data).lastRun)
      ensures forall x :: x in Events() && x != e ==> x.data == old(x.data)
    {
      hide PrioQueue.Valid;
      prioq.Rekey(e, e.data.(expiry := expiry));
      UpdateTimeout();
    }

    /**
     expiration_event at time `now`; the callback of the event returned runs. It is one that was due and that no
     other event preceded, it steps behind every event due at the same time that has not run since, and when
     none is returned, none was due.
     */
    method Expire(now: TimeVal) returns (run: Option<Event>)
      requires Valid()
      modifies `timeout, prioq, prioq.nodes
      ensures Valid() && Events() == old(Events())
      ensures run.None? ==> forall x :: x in Events() ==> Compare(x.data.expiry, now) > 0 && x.data == old(x.data)
      ensures run.Some? ==> run.value in Events() && Compare(old(run.value.data).expiry, now) <= 0
      ensures run.Some? ==> forall x :: x in Events() ==> CompareTimes(old(run.value.data), old(x.data)) <= 0
      ensures run.Some? ==> run.value.data == Times(old(run.value.data).expiry, now)
      ensures run.Some? ==> forall x :: x in Events() && x != run.value ==> x.data == old(x.data)
      ensures run.Some? && prioq.root == run.value ==>
                forall x :: x in Events() && x.data.expiry == run.value.data.expiry ==> Compare(x.data.lastRun, now) >= 0
    {
      hide PrioQueue.Valid;
      run := None;
      prioq.RootIsMinimum();
      if prioq.root != null {
        var e: Event := prioq.root;
        if Compare(now, e.data.expiry) >= 0 {
          prioq.Rekey(e, e.data.(lastRun := now));
          prioq.RootIsMinimum();
          run := Some(e);
        }
      }
      UpdateTimeout();
    }
  }
}
