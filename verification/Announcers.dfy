/** Entry groups, their entries, and the announcers of each entry. */
module Announcers {
  import opened Bytes
  import opened Lists
  import opened TimeVals
  import opened AnnounceSteps

  const HOLDOFF_MSEC := 1000
  const HOLDOFF_MSEC_RATE_LIMIT := 20000
  const RATE_LIMIT_COUNT := 15

  datatype GroupState = Uncommitted | Registering | EstablishedGroup | Collision

  class Announcer {
    const entry: Entry
    const iface: nat
    var state: State
    var nIteration: nat
    var secDelay: nat
    var timer: Option<nat>
    ghost var probes: nat
    ghost var announced: nat
    ghost var start: nat

    constructor (entry: Entry, iface: nat)
      ensures this.entry == entry && this.iface == iface && probes == 0
    {
      this.entry, this.iface := entry, iface;
      state, nIteration, secDelay, timer := Established, 0, 1, None;
      probes, announced, start := 0, 0, 0;
    }

    ghost function Value(): Ann
      reads this
    {
      Ann(state, nIteration, secDelay, timer, probes, announced, start)
    }

    /** The last part of go_to_initial_state and of reannounce: a new beginning in a given state. */
    method Begin(s: State)
      modifies this
      ensures Value() == Began(s, old(probes))
    {
      state, nIteration, secDelay := s, 1, 1;
      announced, start := 0, if s.Announcing? then 1 else 0;
      if s.Probing? {
        probes := 0;
      }
      timer := if s.Probing? || s.Announcing? then Some(0) else None;
    }

    /** The announcing branch of next_state. */
    method AnnounceOnce()
      requires state.Announcing?
      modifies this
      ensures Value() == Announce(old(Value()))
    {
      announced := announced + 1;
      nIteration := nIteration + 1;
      if nIteration >= 4 {
        state := Established;
        timer := None;
      } else {
        timer := Some(secDelay * 1000);
        if nIteration < 10 {
          secDelay := secDelay * 2;
        }
      }
    }

    /** The probing branch of next_state while there are probes left. */
    method ProbeOnce()
      requires state.Probing? && nIteration < 4
      modifies this
      ensures Value() == Fire(old(Value()), true) == Fire(old(Value()), false)
    {
      probes := probes + 1;
      timer := Some(PROBE_INTERVAL_MSEC);
      nIteration := nIteration + 1;
    }

    /** Probing is done, and no group has to be waited for. */
    method StartToAnnounce()
      requires state.Probing? && nIteration >= 4
      modifies this
      ensures Value() == Fire(old(Value()), false)
    {
      state, nIteration := Announcing, 1;
      announced, start := 0, 1;
      timer := None;
      AnnounceOnce();
    }

    /** What check_probed does with an announcer that waits. */
    method Release(immediately: bool)
      requires state.Waiting?
      modifies this
      ensures Value() == Released(old(Value()), immediately)
    {
      state, announced := Announcing, 0;
      if immediately {
        nIteration, start := 1, 1;
        AnnounceOnce();
      } else {
        nIteration, start := 0, 0;
        timer := Some(0);
      }
    }

    /** next_state when the timer of an announcer fires whose entry is in no group. */
    method NextStateAlone()
      requires timer.Some?
      modifies this
      ensures Value() == Fire(old(Value()), false)
    {
      match state {
        case Probing =>
          if nIteration >= 4 {
            StartToAnnounce();
          } else {
            ProbeOnce();
          }
        case Announcing => AnnounceOnce();
        case _ =>
      }
    }
  }

  class Entry {
    const flags: Flags
    const group: Group?
    var dead: bool
    var announcers: seq<Announcer>

    constructor (flags: Flags, group: Group?)
      ensures this.flags == flags && this.group == group && !dead && announcers == []
    {
      this.flags, this.group := flags, group;
      dead, announcers := false, [];
    }
  }

  ghost function ProbingOf(all: set<Announcer>): set<Announcer>
    reads all`state
  {
    set a | a in all && a.state.Probing?
  }

  /** Those that probe on one interface. */
  ghost function ProbingOn(all: set<Announcer>, iface: nat): set<Announcer>
    reads all`state
  {
    set a | a in all && a.iface == iface && a.state.Probing?
  }

  ghost predicate OnePerInterface(announcers: seq<Announcer>) {
    forall i, j :: 0 <= i < j < |announcers| ==> announcers[i].iface != announcers[j].iface
  }

  /** The announcers on other interfaces. */
  function Elsewhere(announcers: seq<Announcer>, iface: nat): (r: seq<Announcer>)
    ensures forall a :: a in r ==> a in announcers && a.iface != iface
    ensures forall a :: a in announcers && a.iface != iface ==> a in r
  {
    Filter(announcers, (a: Announcer) => a.iface != iface)
  }

  lemma {:induction false} ElsewhereOnePerInterface(announcers: seq<Announcer>, iface: nat)
    requires OnePerInterface(announcers)
    ensures OnePerInterface(Elsewhere(announcers, iface))
  {
    if announcers != [] {
      ElsewhereOnePerInterface(announcers[1..], iface);
      var rest := Elsewhere(announcers[1..], iface);
      forall j | 0 <= j < |rest|
        ensures announcers[0].iface != rest[j].iface
      {
        assert rest[j] in announcers[1..];
      }
    }
  }

  /** What can happen to a group. Entries are named by their place in the group. */
  datatype Event =
    | TimerFires(entry: nat, iface: nat)
    | Reannounces(entry: nat, iface: nat)
    | InterfaceComes(entry: nat, iface: nat)
    | Conflicts(entry: nat, iface: nat)
    | Withdraws(entry: nat)
    | Frees(entry: nat)
    | InterfaceGoes(iface: nat)
    | Commits
    | HoldoffOver
    | Adds(flags: Flags)
    | Resets

  /** The group begins anew. */
  predicate Restarts(event: Event) {
    event.Resets? || event.Withdraws?
  }

  ghost predicate AllHealthy(all: set<Announcer>, waits: bool)
    reads all
  {
    forall a :: a in all ==> Healthy(a.Value(), a.entry.flags, waits)
  }

  class Group {
    var state: GroupState
    var nProbing: nat
    var entries: seq<Entry>
    var nRegisterTry: nat
    var registerTime: TimeVal
    var registerEvent: Option<TimeVal>
    var establishedAt: TimeVal
    /** The announcers of all entries, and how many were dropped with their interface while they probed. */
    ghost var all: set<Announcer>
    ghost var leaked: nat

    /** Every announcer belongs to its entry, and there is one for each interface at most. */
    ghost predicate Linked()
      reads `entries, `all, entries`announcers, entries`dead
    {
      && Distinct(entries)
      && (forall e :: e in entries ==> e.group == this && OnePerInterface(e.announcers) && (e.dead ==> e.announcers == []))
      && (forall e, a :: e in entries && a in e.announcers ==> a in all && a.entry == e)
      && (forall a :: a in all ==> a.entry in entries && a in a.entry.announcers)
    }

    /** Groups that are not committed have no announcers and lost none, and only registering ones wait for a holdoff. */
    ghost predicate Quiet()
      reads `state, `all, `leaked, `registerEvent
    {
      && (state.Uncommitted? || state.Collision? ==> all == {} && leaked == 0)
      && (registerEvent.Some? ==> state.Registering?)
    }

    /** The counter is the number of probing announcers, plus those that were dropped without being counted off. */
    ghost predicate Counted()
      reads `nProbing, `all, all`state, `leaked
    {
      nProbing == |ProbingOf(all)| + leaked
    }

    ghost predicate Valid()
      reads this, entries, all
    {
      Linked() && Quiet() && Counted() && AllHealthy(all, state.Registering?)
    }

    /** avahi_s_entry_group_new */
    constructor ()
      ensures Valid() && state.Uncommitted? && entries == [] && all == {} && leaked == 0
      ensures nRegisterTry == 0 && registerTime == TimeVal(0, 0)
    {
      state, nProbing, entries, nRegisterTry := Uncommitted, 0, [], 0;
      registerTime, registerEvent, establishedAt := TimeVal(0, 0), None, TimeVal(0, 0);
      all, leaked := {}, 0;
    }

    /** avahi_s_entry_group_change_state */
    method ChangeState(s: GroupState, now: TimeVal)
      modifies `state, `nRegisterTry, `registerEvent, `establishedAt
      ensures state == s
      ensures nRegisterTry == if old(state).EstablishedGroup? && s != old(state) && Diff(now, old(establishedAt)) > 5000000
                              then 0 else old(nRegisterTry)
      ensures registerEvent == if old(state).Registering? && s != old(state) then None else old(registerEvent)
      ensures establishedAt == if s.EstablishedGroup? && s != old(state) then now else old(establishedAt)
    {
      if state == s {
        return;
      }
      if state.EstablishedGroup? {
        if Diff(now, establishedAt) > 5000000 {
          nRegisterTry := 0;
        }
      } else if state.Registering? {
        registerEvent := None;
      }
      if s.EstablishedGroup? {
        establishedAt := now;
      }
      state := s;
    }

    /** No announcer of the group probes, and none was lost while it did. */
    ghost predicate NobodyProbes()
      reads `all, all`state, `leaked
    {
      leaked == 0 && forall a :: a in all ==> !a.state.Probing?
    }

    lemma CounterIsZero()
      requires Counted()
      ensures nProbing == 0 <==> NobodyProbes()
    {
      if nProbing == 0 {
        assert ProbingOf(all) == {};
        forall a | a in all
          ensures !a.state.Probing?
        {
          assert a !in ProbingOf(all);
        }
      }
      if NobodyProbes() {
        assert ProbingOf(all) == {};
      }
    }

    /** The announcer was released if it waited, and is as it was if not. */
    static twostate predicate ReleasedIfWaiting(a: Announcer, immediately: bool)
      reads a
    {
      a.Value() == if old(a.state).Waiting? then Released(old(a.Value()), immediately) else old(a.Value())
    }

    static method ReleaseEntry(e: Entry, immediately: bool)
      requires OnePerInterface(e.announcers)
      modifies e.announcers
      ensures forall a :: a in e.announcers ==> ReleasedIfWaiting(a, immediately)
    {
      hide Released;
      for i := 0 to |e.announcers|
        invariant forall k :: 0 <= k < i ==> ReleasedIfWaiting(e.announcers[k], immediately)
        invariant forall k :: i <= k < |e.announcers| ==> e.announcers[k].Value() == old(e.announcers[k].Value())
      {
        if e.announcers[i].state.Waiting? {
          e.announcers[i].Release(immediately);
        }
      }
    }

    /** The announcers of all entries, one entry after the other. */
    method ReleaseAll(immediately: bool)
      requires Linked()
      modifies all
      ensures forall a :: a in all ==> ReleasedIfWaiting(a, immediately)
    {
      hide Released;
      for i := 0 to |entries|
        invariant forall a :: a in all && a.entry in entries[..i] ==> ReleasedIfWaiting(a, immediately)
        invariant forall a :: a in all && a.entry !in entries[..i] ==> a.Value() == old(a.Value())
      {
        assert entries[i] !in entries[..i];
        assert forall k :: 0 <= k < |entries[i].announcers| ==> entries[i].announcers[k] in all;
        ReleaseEntry(entries[i], immediately);
      }
    }

    /** A group whose entries are all probed for is established, and its members are as healthy as before. */
    twostate lemma ReleasedAll(immediately: bool)
      requires old(AllHealthy(all, true)) && old(NobodyProbes()) && all == old(all)
      requires forall a :: a in all ==> ReleasedIfWaiting(a, immediately)
      ensures AllHealthy(all, false) && ProbingOf(all) == {} && forall a :: a in all ==> !a.state.Probing?
    {
      forall a | a in all
        ensures Healthy(a.Value(), a.entry.flags, false) && !a.state.Probing?
      {
        assert old(Healthy(a.Value(), a.entry.flags, true));
        if old(a.state).Waiting? {
          ReleasedHealthy(old(a.Value()), a.entry.flags, immediately);
        } else {
          OthersHealthy(old(a.Value()), a.entry.flags);
        }
      }
    }

    /**
     avahi_s_entry_group_check_probed: the group is established exactly if it is registering, none of its announcers
     probes, and none was dropped while it did; then whoever was waiting goes on to announce.
     */
    method CheckProbed(immediately: bool, now: TimeVal)
      requires Valid()
      modifies `state, `nRegisterTry, `registerEvent, `establishedAt, all
      ensures Valid()
      ensures state == if old(state.Registering? && NobodyProbes()) then EstablishedGroup else old(state)
      ensures old(state.Registering? && NobodyProbes()) ==> forall a :: a in all ==> ReleasedIfWaiting(a, immediately)
      ensures old(state.Registering? && NobodyProbes()) ==> NobodyProbes() && registerEvent.None?
      ensures nRegisterTry == old(nRegisterTry) && (registerEvent.None? || registerEvent == old(registerEvent))
      ensures !old(state.Registering? && NobodyProbes()) ==> forall a :: a in all ==> a.Value() == old(a.Value())
    {
      hide AllHealthy, Released;
      CounterIsZero();
      if !state.Registering? || nProbing > 0 {
        return;
      }
      ChangeState(EstablishedGroup, now);
      ReleaseAll(immediately);
      ReleasedAll(immediately);
    }

    lemma ProbingWithout(a: Announcer)
      requires a in all
      ensures |ProbingOf(all)| == |ProbingOf(all - {a})| + if a.state.Probing? then 1 else 0
    {
      if a.state.Probing? {
        assert ProbingOf(all) == ProbingOf(all - {a}) + {a};
      } else {
        assert ProbingOf(all) == ProbingOf(all - {a});
      }
    }

    /** All announcers but one are accounted for. */
    ghost predicate ValidBut(a: Announcer)
      reads this, entries, all
    {
      && Linked() && Quiet() && a in all && nProbing == |ProbingOf(all - {a})| + leaked
      && AllHealthy(all - {a}, state.Registering?)
    }

    /** An announcer that is not counted begins anew; it is counted again if it probes. */
    method Enter(a: Announcer, s: State)
      requires ValidBut(a) && Healthy(Began(s, a.probes), a.entry.flags, state.Registering?)
      modifies `nProbing, a
      ensures Valid() && a.Value() == Began(s, old(a.probes))
    {
      hide Healthy;
      if s.Probing? {
        nProbing := nProbing + 1;
      }
      a.Begin(s);
      ProbingWithout(a);
    }

    /** An announcer that is about to begin anew is not counted any more. */
    method CountOff(a: Announcer)
      requires Valid() && a in all
      modifies `nProbing
      ensures ValidBut(a)
    {
      hide Healthy;
      ProbingWithout(a);
      if a.state.Probing? {
        nProbing := nProbing - 1;
      }
    }

    /** The announcer has probed, and is the last of its group to do so. */
    ghost predicate LastProber(a: Announcer)
      reads `all, `leaked, all`state, a
    {
      leaked == 0 && a.state.Probing? && a.nIteration >= 4 && forall x :: x in all && x != a ==> !x.state.Probing?
    }

    /** next_state when the timer of an announcer fires. */
    method NextState(a: Announcer, now: TimeVal)
      requires Valid() && a in all && a.timer.Some?
      modifies `state, `nProbing, `nRegisterTry, `registerEvent, `establishedAt, all
      ensures Valid()
      ensures var fired := Fire(old(a.Value()), old(state).Registering?);
              if state == old(state) then a.Value() == fired && forall x :: x in all && x != a ==> x.Value() == old(x.Value())
              else a.Value() == Released(fired, true) && fired.state.Waiting? &&
                   forall x :: x in all && x != a ==> ReleasedIfWaiting(x, true)
      ensures state == if old(state.Registering? && LastProber(a)) then EstablishedGroup else old(state)
      ensures state != old(state) ==> NobodyProbes()
    {
      hide Released, AllHealthy, Fire, Linked, Quiet, Counted;
      if a.state.Probing? && a.nIteration >= 4 && state.Registering? {
        WaitForGroup(a);
        FireIsWaiting(old(a.Value()));
        CheckProbed(true, now);
      } else {
        Proceed(a);
        FireEitherWay(old(a.Value()), state.Registering?);
      }
    }

    lemma FireIsWaiting(v: Ann)
      requires v.state.Probing? && v.nIteration >= 4
      ensures Fire(v, true) == v.(state := Waiting, timer := None)
    {
    }

    lemma FireEitherWay(v: Ann, waits: bool)
      requires !(v.state.Probing? && v.nIteration >= 4 && waits)
      ensures Fire(v, waits) == Fire(v, false)
    {
    }

    /** The first part of the end of probing in a group: the announcer is counted off, and waits. */
    method WaitForGroup(a: Announcer)
      requires Valid() && a in all && a.timer.Some? && a.state.Probing? && a.nIteration >= 4 && state.Registering?
      modifies `nProbing, a
      ensures Valid() && a.Value() == Fire(old(a.Value()), true)
    {
      hide Healthy, Fire, Linked;
      FireHealthy(a.Value(), a.entry.flags, true);
      FireIsWaiting(a.Value());
      CountOff(a);
      a.state := Waiting;
      a.timer := None;
      ProbingWithout(a);
    }

    /** Every other step of an announcer: the group does not matter. */
    method Proceed(a: Announcer)
      requires Valid() && a in all && a.timer.Some? && !(a.state.Probing? && a.nIteration >= 4 && state.Registering?)
      modifies `nProbing, a
      ensures Valid() && a.Value() == Fire(old(a.Value()), false)
    {
      hide Healthy;
      FireHealthy(a.Value(), a.entry.flags, state.Registering?);
      FireEitherWay(a.Value(), state.Registering?);
      ProbingWithout(a);
      if a.state.Probing? && a.nIteration >= 4 {
        nProbing := nProbing - 1;
        a.StartToAnnounce();
      } else {
        a.NextStateAlone();
      }
      ProbingWithout(a);
    }

    /** get_announcer */
    method GetAnnouncer(e: Entry, iface: nat) returns (found: Option<Announcer>)
      ensures found.None? ==> forall a :: a in e.announcers ==> a.iface != iface
      ensures found.Some? ==> found.value in e.announcers && found.value.iface == iface
    {
      for i := 0 to |e.announcers|
        invariant forall k :: 0 <= k < i ==> e.announcers[k].iface != iface
      {
        if e.announcers[i].iface == iface {
          return Some(e.announcers[i]);
        }
      }
      return None;
    }

    predicate Committed()
      reads `state
    {
      state.Registering? || state.EstablishedGroup?
    }

    /** new_announcer, for an interface that the entry is to be published on. */
    method NewAnnouncer(e: Entry, iface: nat)
      requires Valid() && e in entries && !e.dead
      modifies `nProbing, `all, e`announcers
      ensures Valid() && old(all) <= all
      ensures (e.announcers == old(e.announcers) && all == old(all)) ||
              (e.announcers != [] && e.announcers[1..] == old(e.announcers) && fresh(e.announcers[0]) &&
               all == old(all) + {e.announcers[0]} && e.announcers[0].iface == iface && e.announcers[0].entry == e &&
               e.announcers[0].Value() == Began(InitialState(e.flags, state.Registering?), 0))
      ensures Committed() ==> exists a :: a in e.announcers && a.iface == iface
      ensures !Committed() ==> all == old(all) && e.announcers == old(e.announcers) && nProbing == old(nProbing)
      ensures forall a :: a in all ==> a in old(all) || fresh(a)
    {
      hide Healthy, Began, InitialState, Linked, AllHealthy, Counted, ValidBut;
      if !Committed() {
        return;
      }
      var found := GetAnnouncer(e, iface);
      if found.Some? {
        return;
      }
      var a := new Announcer(e, iface);
      Attach(e, a);
      InitialHealthy(e.flags, state.Registering?, 0);
      Enter(a, InitialState(e.flags, state.Registering?));
    }

    /** A new announcer is linked, but not yet counted. */
    method Attach(e: Entry, a: Announcer)
      requires Valid() && e in entries && !e.dead && Committed() && a !in all && a.entry == e
      requires forall x :: x in e.announcers ==> x.iface != a.iface
      modifies `all, e`announcers
      ensures ValidBut(a) && all == old(all) + {a} && e.announcers == [a] + old(e.announcers)
    {
      hide Healthy;
      e.announcers := [a] + e.announcers;
      all := all + {a};
      assert all - {a} == old(all);
      assert ProbingOf(all - {a}) == old(ProbingOf(all));
    }

    lemma OnlyOneThere(e: Entry, a: Announcer)
      requires Linked() && e in entries && a in e.announcers
      ensures a in all && a.entry == e && forall x :: x in e.announcers && x.iface == a.iface ==> x == a
    {
    }

    /** avahi_entry_return_to_initial_state, after a conflict */
    method ReturnToInitialState(e: Entry, iface: nat)
      requires Valid() && e in entries
      modifies `nProbing, all
      ensures Valid()
      ensures forall a :: a in e.announcers && a.iface == iface ==>
                a.Value() == Began(InitialState(e.flags, state.Registering?), old(a.probes))
      ensures forall a :: a in all && !(a.entry == e && a.iface == iface) ==> a.Value() == old(a.Value())
    {
      hide Healthy, Began, InitialState, Linked, AllHealthy, Counted, ValidBut;
      var found := GetAnnouncer(e, iface);
      if found.Some? {
        var a := found.value;
        OnlyOneThere(e, a);
        CountOff(a);
        InitialHealthy(e.flags, state.Registering?, a.probes);
        Enter(a, InitialState(e.flags, state.Registering?));
      }
    }

    /** reannounce */
    method Reannounce(a: Announcer)
      requires Valid() && a in all
      modifies `nProbing, a
      ensures Valid()
      ensures a.Value() == Began(ReannouncedState(old(a.state), a.entry.flags), old(a.probes))
    {
      hide Healthy, Began;
      ghost var v := a.Value();
      var s := ReannouncedState(a.state, a.entry.flags);
      CountOff(a);
      ReannouncedHealthy(v, a.entry.flags, state.Registering?);
      Enter(a, s);
    }

    /** All entries die, and their announcers with them. */
    method KillAll()
      requires Linked()
      modifies entries`dead, entries`announcers, `all
      ensures Linked() && all == {}
      ensures forall e :: e in entries ==> e.dead
    {
      for i := 0 to |entries|
        invariant forall k :: 0 <= k < i ==> entries[k].dead && entries[k].announcers == []
        invariant forall e :: e in entries ==> e.announcers == old(e.announcers) || e.announcers == []
        invariant forall e :: e in entries && e.dead ==> e.announcers == []
      {
        if !entries[i].dead {
          entries[i].announcers := [];
          entries[i].dead := true;
        }
      }
      all := {};
    }

    /** avahi_s_entry_group_reset */
    method Reset(now: TimeVal)
      requires Valid()
      modifies this, entries`dead, entries`announcers
      ensures Valid() && state.Uncommitted? && nProbing == 0 && leaked == 0 && all == {} && entries == old(entries)
      ensures forall e :: e in entries ==> e.dead
    {
      KillAll();
      nProbing, leaked := 0, 0;
      assert ProbingOf({}) == {};
      ChangeState(Uncommitted, now);
    }

    /** withdraw_entry, for an entry of this group */
    method Withdraw(e: Entry, now: TimeVal)
      requires Valid() && e in entries
      modifies this, entries`dead, entries`announcers
      ensures Valid() && entries == old(entries)
      ensures if old(e.dead) then state == old(state) && all == old(all) && nProbing == old(nProbing)
              else state.Collision? && nProbing == 0 && leaked == 0 && all == {} && forall x :: x in entries ==> x.dead
    {
      if e.dead {
        return;
      }
      KillAll();
      nProbing, leaked := 0, 0;
      assert ProbingOf({}) == {};
      ChangeState(Collision, now);
    }

    /** avahi_announce_entry: one announcer on each interface the entry is to be published on. */
    method AnnounceEntry(e: Entry, interfaces: seq<nat>)
      requires Valid() && e in entries && !e.dead
      modifies `nProbing, `all, e`announcers
      ensures Valid() && old(all) <= all
      ensures Committed() ==> forall i :: 0 <= i < |interfaces| ==> Publishes(e, interfaces[i])
      ensures Fresh(old(all))
      ensures forall x :: x in old(e.announcers) ==> x in e.announcers
      ensures !Committed() ==> all == old(all) && e.announcers == old(e.announcers) && nProbing == old(nProbing)
      ensures forall a :: a in all ==> a in old(all) || fresh(a)
    {
      hide Linked, AllHealthy, Counted, Quiet, Began, InitialState;
      for i := 0 to |interfaces|
        invariant Valid() && old(all) <= all
        invariant Committed() ==> forall k :: 0 <= k < i ==> Publishes(e, interfaces[k])
        invariant Fresh(old(all)) && forall x :: x in old(e.announcers) ==> x in e.announcers
        invariant !Committed() ==> all == old(all) && e.announcers == old(e.announcers) && nProbing == old(nProbing)
        invariant forall a :: a in all ==> a in old(all) || fresh(a)
      {
        label before:
        NewAnnouncer(e, interfaces[i]);
        StillPublishes(old@before(e.announcers), e.announcers);
      }
    }

    lemma StillPublishes(before: seq<Announcer>, after: seq<Announcer>)
      requires after == before || (after != [] && after[1..] == before)
      ensures forall a :: a in before ==> a in after
    {
      if after != before {
        assert after == [after[0]] + after[1..];
      }
    }

    ghost predicate Publishes(e: Entry, iface: nat)
      reads e`announcers
    {
      exists a :: a in e.announcers && a.iface == iface
    }

    /** Every live entry is published on the interfaces it is meant for. */
    ghost predicate Published(es: seq<Entry>, interfaces: Entry -> seq<nat>)
      reads es`dead, es`announcers
    {
      forall e :: e in es && !e.dead ==> forall i :: 0 <= i < |interfaces(e)| ==> Publishes(e, interfaces(e)[i])
    }

    /** The announcers that are not among these are in their initial state. */
    ghost predicate Fresh(before: set<Announcer>)
      reads `state, `all, all
    {
      forall a :: a in all && a !in before ==> a.Value() == Began(InitialState(a.entry.flags, state.Registering?), 0)
    }

    /** avahi_announce_group; `interfaces` says where an entry is to be published. */
    method AnnounceGroup(interfaces: Entry -> seq<nat>)
      requires Valid()
      modifies `nProbing, `all, entries`announcers
      ensures Valid() && old(all) <= all
      ensures Committed() ==> Published(entries, interfaces)
      ensures Fresh(old(all))
      ensures forall a :: a in all ==> a in old(all) || fresh(a)
    {
      hide Linked, AllHealthy, Counted, Quiet, Began, InitialState;
      for i := 0 to |entries|
        invariant Valid() && old(all) <= all && Fresh(old(all))
        invariant forall a :: a in all ==> a in old(all) || fresh(a)
        invariant Committed() ==> Published(entries[..i], interfaces)
      {
        if !entries[i].dead {
          label before:
          AnnounceEntry(entries[i], interfaces(entries[i]));
          forall e | e in entries[..i] && !e.dead && Committed()
            ensures forall k :: 0 <= k < |interfaces(e)| ==> Publishes(e, interfaces(e)[k])
          {
            forall k | 0 <= k < |interfaces(e)|
              ensures Publishes(e, interfaces(e)[k])
            {
              assert old@before(Publishes(e, interfaces(e)[k]));
            }
          }
        }
        assert entries[..i + 1] == entries[..i] + [entries[i]];
      }
      assert entries[..|entries|] == entries;
    }

    /** entry_group_commit_real */
    method CommitReal(interfaces: Entry -> seq<nat>, now: TimeVal)
      requires Valid() && (state.Uncommitted? || state.Collision? || state.Registering?)
      modifies this, entries`announcers, all
      ensures Valid() && Committed() && registerTime == now && entries == old(entries)
      ensures nRegisterTry == old(nRegisterTry) && (registerEvent.None? || registerEvent == old(registerEvent))
      ensures state.EstablishedGroup? <==> NobodyProbes()
      ensures Published(entries, interfaces)
      ensures forall a :: a in all && a !in old(all) ==>
                var v := Began(InitialState(a.entry.flags, true), 0);
                a.Value() == if state.EstablishedGroup? && v.state.Waiting? then Released(v, false) else v
      ensures forall a :: a in all ==> a in old(all) || fresh(a)
      ensures leaked == old(leaked)
    {
      hide Linked, AllHealthy, Counted, Released, Began, InitialState, Publishes;
      registerTime := now;
      ChangeState(Registering, now);
      NoneIsHealthy();
      AnnounceGroup(interfaces);
      CheckProbed(false, now);
    }

    lemma NoneIsHealthy()
      requires AllHealthy(all, true) || all == {}
      ensures AllHealthy(all, true)
    {
    }

    /**
     avahi_s_entry_group_commit: nothing happens to a group that is committed already or empty; otherwise the group
     is registering from now on, at once or after the holdoff since it was last registered.
     */
    method Commit(interfaces: Entry -> seq<nat>, now: TimeVal) returns (ok: bool)
      requires Valid()
      modifies this, entries`announcers, all
      ensures Valid() && entries == old(entries) && leaked == old(leaked)
      ensures forall a :: a in all ==> a in old(all) || fresh(a)
      ensures !ok ==> state == old(state)
      ensures ok <==> !old(Committed()) && exists e :: e in entries && !e.dead
      ensures ok ==> Committed() && nRegisterTry == old(nRegisterTry) + 1
      ensures ok ==> var holdoff := if old(nRegisterTry) + 1 >= 15 then 20000 else 1000;
                     var due := Add(old(registerTime), 1000 * holdoff);
                     if Compare(due, now) <= 0 then
                       registerTime == now && (state.EstablishedGroup? <==> NobodyProbes()) && Published(entries, interfaces)
                     else registerTime == due && registerEvent == Some(due) && state.Registering? && all == {}
    {
      hide Linked, AllHealthy, Counted;
      if !state.Uncommitted? && !state.Collision? {
        return false;
      }
      var empty := IsEmpty();
      if empty {
        return false;
      }
      nRegisterTry := nRegisterTry + 1;
      registerTime := Add(registerTime,
                          1000 * (if nRegisterTry >= RATE_LIMIT_COUNT then HOLDOFF_MSEC_RATE_LIMIT else HOLDOFF_MSEC));
      if Compare(registerTime, now) <= 0 {
        CommitReal(interfaces, now);
      } else {
        registerEvent := Some(registerTime);
        ChangeState(Registering, now);
        NoneIsHealthy();
      }
      return true;
    }

    /** avahi_s_entry_group_is_empty */
    method IsEmpty() returns (empty: bool)
      ensures empty <==> forall e :: e in entries ==> e.dead
    {
      for i := 0 to |entries|
        invariant forall k :: 0 <= k < i ==> entries[k].dead
      {
        if !entries[i].dead {
          return false;
        }
      }
      return true;
    }

    /** entry_group_register_time_event_callback */
    method HoldoffPassed(interfaces: Entry -> seq<nat>, now: TimeVal)
      requires Valid() && registerEvent.Some?
      modifies this, entries`announcers, all
      ensures Valid() && Committed() && registerEvent.None? && (state.EstablishedGroup? <==> NobodyProbes())
      ensures entries == old(entries) && leaked == old(leaked) && Published(entries, interfaces)
      ensures forall a :: a in all ==> a in old(all) || fresh(a)
    {
      hide Linked, AllHealthy, Counted;
      registerEvent := None;
      CommitReal(interfaces, now);
    }

    /** The remove half of avahi_goodbye_interface: the announcers go, but the counter stays as it is. */
    method GoodbyeInterface(iface: nat)
      requires Valid()
      modifies `all, `leaked, entries`announcers
      ensures Valid() && nProbing == old(nProbing)
      ensures all == set a | a in old(all) && a.iface != iface
      ensures leaked == old(leaked) + |ProbingOn(old(all), iface)|
    {
      hide Linked, Healthy;
      CountSplit(all, iface);
      leaked := leaked + |ProbingOn(all, iface)|;
      DropOn(iface);
    }

    lemma CountSplit(was: set<Announcer>, iface: nat)
      ensures |ProbingOf(was)| == |ProbingOf(set a | a in was && a.iface != iface)| +
                                  |ProbingOn(was, iface)|
    {
      var kept := set a | a in was && a.iface != iface;
      assert ProbingOf(was) == ProbingOf(kept) + ProbingOn(was, iface);
    }

    /** Every entry loses its announcers on one interface. */
    method DropOn(iface: nat)
      requires Linked()
      modifies `all, entries`announcers
      ensures Linked() && all == set a | a in old(all) && a.iface != iface
    {
      for i := 0 to |entries|
        invariant all == old(all)
        invariant forall k :: 0 <= k < i ==> entries[k].announcers == Elsewhere(old(entries[k].announcers), iface)
        invariant forall k :: i <= k < |entries| ==> entries[k].announcers == old(entries[k].announcers)
      {
        entries[i].announcers := Elsewhere(entries[i].announcers, iface);
      }
      all := set a | a in all && a.iface != iface;
      DroppedOn(iface);
    }

    twostate lemma DroppedOn(iface: nat)
      requires old(Linked()) && entries == old(entries) && all == (set a | a in old(all) && a.iface != iface)
      requires forall e :: e in entries ==> e.dead == old(e.dead) && e.announcers == Elsewhere(old(e.announcers), iface)
      ensures Linked()
    {
      forall e | e in entries
        ensures e.group == this && OnePerInterface(e.announcers) && (e.dead ==> e.announcers == [])
      {
        ElsewhereOnePerInterface(old(e.announcers), iface);
      }
      forall e, a | e in entries && a in e.announcers
        ensures a in all && a.entry == e
      {
        assert a in old(e.announcers);
      }
      forall a | a in all
        ensures a.entry in entries && a in a.entry.announcers
      {
        assert a in old(a.entry.announcers);
      }
    }

    /** The group part of server_add_internal for a new record; committed groups are closed. */
    method AddEntry(flags: Flags, interfaces: Entry -> seq<nat>) returns (added: Option<Entry>)
      requires Valid()
      modifies `entries, `nProbing, `all
      ensures Valid() && all == old(all) && state == old(state) && nProbing == old(nProbing)
      ensures added.None? <==> old(Committed())
      ensures added.Some? ==> fresh(added.value) && entries == [added.value] + old(entries) && added.value.flags == flags
      ensures added.Some? ==> !added.value.dead && added.value.announcers == []
      ensures added.None? ==> entries == old(entries)
    {
      hide AllHealthy, Counted;
      if Committed() {
        return None;
      }
      var e := new Entry(flags, this);
      entries := [e] + entries;
      AnnounceEntry(e, interfaces(e));
      added := Some(e);
    }

    /** avahi_entry_free for a dead entry, from avahi_cleanup_dead_entries */
    method FreeDead(e: Entry)
      requires Valid() && e in entries && e.dead
      modifies `entries
      ensures Valid() && entries == Without(old(entries), e)
    {
      hide AllHealthy, Counted;
      WithoutIsGone(entries, e);
      entries := Without(entries, e);
    }

    /** An interface that comes and goes while its announcer probes leaves the group counting one that is gone. */
    method ComesAndGoes(e: Entry, iface: nat)
      requires Valid() && e in entries && !e.dead && state.Registering? && all == {} && MustProbe(e.flags)
      modifies `nProbing, `all, `leaked, e`announcers, entries`announcers
      ensures Valid() && all == {} && leaked == old(leaked) + 1 && nProbing == leaked
    {
      hide AllHealthy;
      assert forall i :: 0 <= i < |e.announcers| ==> e.announcers[i] in all;
      NewAnnouncer(e, iface);
      ghost var a := e.announcers[0];
      assert a.iface == iface && a.Value() == StartProbing();
      assert ProbingOn(all, iface) == {a};
      GoodbyeInterface(iface);
      assert ProbingOf(all) == {};
    }

    // ---------- Whole runs ----------

    /** The announcer of the i-th entry on an interface, if there is one. */
    method Find(i: nat, iface: nat) returns (found: Option<Announcer>)
      requires Valid()
      ensures found.Some? ==> found.value in all
    {
      hide AllHealthy, Counted;
      found := None;
      if i < |entries| {
        found := GetAnnouncer(entries[i], iface);
      }
    }

    /** The group takes no announcer or entry from elsewhere. */
    twostate predicate OwnOnly()
      reads this
    {
      && (forall e :: e in entries ==> e in old(entries) || fresh(e))
      && (forall a :: a in all ==> a in old(all) || fresh(a))
    }

    /** What an announcer goes through. */
    method AnnouncerStep(event: Event, now: TimeVal)
      requires Valid() && (event.TimerFires? || event.Reannounces?)
      modifies `state, `nProbing, `nRegisterTry, `registerEvent, `establishedAt, all
      ensures Valid()
      ensures state == old(state) || (old(state).Registering? && state.EstablishedGroup? && NobodyProbes())
    {
      hide Linked, AllHealthy, Counted, Quiet, Fire, Released;
      var found := Find(event.entry, event.iface);
      if found.Some? {
        if event.TimerFires? {
          if found.value.timer.Some? {
            NextState(found.value, now);
          }
        } else {
          Reannounce(found.value);
        }
      }
    }

    /** What an entry goes through. */
    method EntryStep(event: Event, now: TimeVal)
      requires Valid() && (event.InterfaceComes? || event.Conflicts? || event.Withdraws? || event.Frees?)
      modifies this, entries, all
      ensures Valid() && OwnOnly()
      ensures !event.Withdraws? ==> state == old(state) && leaked == old(leaked)
      ensures state == old(state) || state.Collision?
    {
      hide Linked, AllHealthy, Counted, Quiet;
      if event.entry < |entries| {
        var e := entries[event.entry];
        if event.Conflicts? {
          ReturnToInitialState(e, event.iface);
        } else if event.Withdraws? {
          Withdraw(e, now);
        } else if event.InterfaceComes? && !e.dead {
          NewAnnouncer(e, event.iface);
        } else if event.Frees? && e.dead {
          FreeDead(e);
        }
      }
    }

    /** Whatever happens to a group next; what is not possible now does nothing. */
    method Step(event: Event, interfaces: Entry -> seq<nat>, now: TimeVal)
      requires Valid()
      modifies this, entries, all
      ensures Valid() && OwnOnly()
      ensures !Restarts(event) ==> leaked >= old(leaked)
      ensures !Restarts(event) && old(leaked) > 0 ==> state == old(state)
      ensures state.EstablishedGroup? && !old(state).EstablishedGroup? ==> NobodyProbes()
    {
      hide Linked, AllHealthy, Counted, Fire, Released;
      match event {
        case TimerFires(_, _) => AnnouncerStep(event, now);
        case Reannounces(_, _) => AnnouncerStep(event, now);
        case InterfaceGoes(iface) => GoodbyeInterface(iface);
        case Commits => var _ := Commit(interfaces, now);
        case HoldoffOver =>
          if registerEvent.Some? {
            HoldoffPassed(interfaces, now);
          }
        case Adds(flags) => var _ := AddEntry(flags, interfaces);
        case Resets => Reset(now);
        case _ => EntryStep(event, now);
      }
    }

    /**
     Any run: once a probing announcer was dropped with its interface, the group stays in the state it is in, so that
     a registering one is never established, until it is reset or withdrawn.
     */
    method Run(events: seq<Event>, interfaces: Entry -> seq<nat>, times: seq<TimeVal>)
      requires Valid() && |times| == |events|
      modifies this, entries, all
      ensures Valid()
      ensures old(leaked) > 0 && (forall k :: 0 <= k < |events| ==> !Restarts(events[k])) ==>
                state == old(state) && leaked >= old(leaked)
    {
      hide Linked, AllHealthy, Counted, Quiet;
      for i := 0 to |events|
        invariant Valid() && OwnOnly()
        invariant old(leaked) > 0 && (forall k :: 0 <= k < i ==> !Restarts(events[k])) ==>
                    state == old(state) && leaked >= old(leaked)
      {
        assert forall k :: 0 <= k < |entries| ==> entries[k] in entries;
        Step(events[i], interfaces, times[i]);
      }
    }

    /** A record that is to be unique counts as registered only after exactly three probes, in an established group. */
    lemma RegisteredInEstablishedGroup(a: Announcer)
      requires Valid() && a in all && MustProbe(a.entry.flags) && IsRegistered(a.Value(), a.entry.flags)
      ensures a.probes == 3 && state.EstablishedGroup?
    {
      RegisteredAfterThreeProbes(a.Value(), a.entry.flags, state.Registering?);
    }

    /** The counter is never below the number of probing announcers, and is exact until one is dropped while probing. */
    lemma CounterBounds()
      requires Valid()
      ensures nProbing >= |ProbingOf(all)|
      ensures leaked == 0 ==> nProbing == |ProbingOf(all)|
    {
    }
  }

  lemma FirstHoldoff()
    ensures Add(TimeVal(0, 0), 1000 * HOLDOFF_MSEC) == TimeVal(1, 0)
  {
  }

  /** A group that counts a probing announcer it does not have. */
  method DroppedWhileProbing() returns (g: Group)
    ensures fresh(g) && g.Valid() && g.state.Registering? && g.all == {} && g.nProbing == 1 == g.leaked
  {
    hide Group.Valid, Add;
    g := new Group();
    var added := g.AddEntry(Flags(true, false, false), _ => []);
    var e := added.value;
    assert g.entries == [e];
    FirstHoldoff();
    var ok := g.Commit(_ => [], TimeVal(0, 0));
    g.ComesAndGoes(e, 0);
  }
}
