/** One announcer on its own: probing, waiting for its group, announcing (sections 8.1 to 8.3 of RFC 6762). */
module AnnounceSteps {
  import opened Bytes

  const PROBE_INTERVAL_MSEC := 250

  datatype State = Probing | Waiting | Announcing | Established

  /** The publishing flags of an entry that matter here; they do not change. */
  datatype Flags = Flags(unique: bool, noProbe: bool, noAnnounce: bool)

  predicate MustProbe(f: Flags) {
    f.unique && !f.noProbe
  }

  /**
   The fields of an announcer, the timer as the delay in milliseconds it was set to, jitter apart. The last three
   count what it did: the probes since it last entered the probing state, the announcements since it last entered the
   announcing state, and the value n_iteration had then.
   */
  datatype Ann = Ann(state: State, nIteration: nat, secDelay: nat, timer: Option<nat>,
                     probes: nat, announced: nat, start: nat)

  /**
   What holds of every announcer at any time; `waits` says that its entry belongs to a group that is not yet
   established. The timer stands at once for a fresh start, a quarter of a second after a probe, and one, two and four
   seconds after the first announcements.
   */
  predicate Healthy(a: Ann, f: Flags, waits: bool) {
    match a.state
    case Probing => MustProbe(f) && a.nIteration == a.probes + 1 <= 4 && a.secDelay == 1 &&
                    a.timer == Some(if a.probes == 0 then 0 else 250)
    case Waiting => waits && a.timer.None? && a.secDelay == 1 && ProbedFirst(a, f) && (f.noAnnounce ==> MustProbe(f))
    case Announcing => !waits && a.timer == Some(Pause(a.announced)) && ProbedFirst(a, f) && (f.noAnnounce ==> MustProbe(f)) &&
                       a.start <= 1 && a.nIteration == a.start + a.announced < 4 && a.secDelay == Pow2(a.announced)
    case Established => a.timer.None? && ProbedFirst(a, f) &&
                        (waits ==> f.noAnnounce && !MustProbe(f)) &&
                        ((f.noAnnounce && a.announced == 0) || (a.start <= 1 && a.announced == 4 - a.start))
  }

  /** The pause after so many announcements, in milliseconds. */
  function Pause(announced: nat): nat {
    if announced == 0 then 0 else 1000 * Pow2(announced - 1)
  }

  /** Exactly three probes were sent if the entry is to be probed for. */
  predicate ProbedFirst(a: Ann, f: Flags) {
    MustProbe(f) ==> a.probes == 3
  }

  /** avahi_entry_is_registered */
  predicate IsRegistered(a: Ann, f: Flags) {
    a.state.Announcing? || a.state.Established? || (a.state.Waiting? && !f.unique)
  }

  function StartProbing(): Ann {
    Ann(Probing, 1, 1, Some(0), 0, 0, 0)
  }

  function StartAnnouncing(probes: nat): Ann {
    Ann(Announcing, 1, 1, Some(0), probes, 0, 1)
  }

  /** A new beginning in a given state, for an announcer that has sent `probes` probes. */
  function Began(s: State, probes: nat): Ann {
    match s
    case Probing => StartProbing()
    case Announcing => StartAnnouncing(probes)
    case _ => Ann(s, 1, 1, None, probes, 0, 0)
  }

  /** The state that go_to_initial_state chooses. */
  function InitialState(f: Flags, waits: bool): State {
    if MustProbe(f) then Probing else if f.noAnnounce then Established else if waits then Waiting else Announcing
  }

  /** The state that reannounce chooses. */
  function ReannouncedState(s: State, f: Flags): State {
    if s.Probing? || (s.Waiting? && MustProbe(f)) then Probing
    else if s.Waiting? then Waiting
    else if f.noAnnounce then Established
    else Announcing
  }

  /** The announcing branch of next_state: one announcement, and the next one after twice the delay. */
  function Announce(a: Ann): Ann {
    if a.nIteration + 1 >= 4 then
      a.(state := Established, nIteration := a.nIteration + 1, announced := a.announced + 1, timer := None)
    else
      a.(nIteration := a.nIteration + 1, announced := a.announced + 1,
         timer := Some(a.secDelay * 1000), secDelay := a.secDelay * 2)
  }

  /** next_state when the timer fires; an announcer that has to wait leaves it to its group to go on. */
  function Fire(a: Ann, waits: bool): Ann {
    match a.state
    case Probing =>
      if a.nIteration < 4 then a.(nIteration := a.nIteration + 1, probes := a.probes + 1, timer := Some(PROBE_INTERVAL_MSEC))
      else if waits then a.(state := Waiting, timer := None)
      else Announce(a.(state := Announcing, nIteration := 1, timer := None, announced := 0, start := 1))
    case Announcing => Announce(a)
    case _ => a
  }

  /** avahi_s_entry_group_check_probed, for an announcer that was waiting. */
  function Released(a: Ann, immediately: bool): Ann {
    if immediately then Announce(a.(state := Announcing, nIteration := 1, announced := 0, start := 1))
    else a.(state := Announcing, nIteration := 0, timer := Some(0), announced := 0, start := 0)
  }

  // ---------- Every step keeps an announcer healthy ----------

  lemma InitialHealthy(f: Flags, waits: bool, probes: nat)
    ensures Healthy(Began(InitialState(f, waits), probes), f, waits)
  {
    assert Pow2(0) == 1;
  }

  lemma AnnounceHealthy(a: Ann, f: Flags)
    requires a.state.Announcing? && ProbedFirst(a, f) && a.start <= 1 && a.secDelay == Pow2(a.announced)
    requires a.nIteration == a.start + a.announced < 4 && (f.noAnnounce ==> MustProbe(f))
    ensures Healthy(Announce(a), f, false)
  {
    assert Pow2(a.announced + 1) == 2 * Pow2(a.announced);
  }

  lemma FireHealthy(a: Ann, f: Flags, waits: bool)
    requires Healthy(a, f, waits) && a.timer.Some?
    ensures Healthy(Fire(a, waits), f, waits)
  {
    assert Pow2(0) == 1;
    if a.state.Announcing? {
      AnnounceHealthy(a, f);
    } else if a.nIteration >= 4 && !waits {
      AnnounceHealthy(a.(state := Announcing, nIteration := 1, timer := None, announced := 0, start := 1), f);
    }
  }

  lemma ReleasedHealthy(a: Ann, f: Flags, immediately: bool)
    requires Healthy(a, f, true) && a.state.Waiting?
    ensures Healthy(Released(a, immediately), f, false)
  {
    assert Pow2(0) == 1;
    if immediately {
      AnnounceHealthy(a.(state := Announcing, nIteration := 1, announced := 0, start := 1), f);
    }
  }

  /** When a group is established with nobody probing, whoever was not waiting is as healthy as before. */
  lemma OthersHealthy(a: Ann, f: Flags)
    requires Healthy(a, f, true) && !a.state.Waiting?
    ensures Healthy(a, f, false)
  {
  }

  lemma ReannouncedHealthy(a: Ann, f: Flags, waits: bool)
    requires Healthy(a, f, waits)
    ensures Healthy(Began(ReannouncedState(a.state, f), a.probes), f, waits)
  {
    assert Pow2(0) == 1;
  }

  // ---------- Whole runs ----------

  /** A record that is to be unique counts as registered only after exactly three probes, and once its group is there. */
  lemma RegisteredAfterThreeProbes(a: Ann, f: Flags, waits: bool)
    requires Healthy(a, f, waits) && MustProbe(f) && IsRegistered(a, f)
    ensures a.probes == 3 && !waits
  {
  }

  /** An entry that need not be unique counts as registered all the time. */
  lemma SharedIsRegistered(a: Ann, f: Flags, waits: bool)
    requires Healthy(a, f, waits) && !f.unique
    ensures IsRegistered(a, f)
  {
  }

  /** How many timer events an undisturbed announcer outside a pending group still has before it. */
  function EventsLeft(a: Ann): nat {
    match a.state
    case Probing => if a.nIteration <= 4 then (4 - a.nIteration) + 3 else 0
    case Announcing => if a.nIteration <= 4 then 4 - a.nIteration else 0
    case _ => 0
  }

  function FireAll(a: Ann, n: nat): Ann
    decreases n
  {
    if n == 0 then a else FireAll(Fire(a, false), n - 1)
  }

  /** The delays of the next n timer events, each counted from the one before. */
  function Delays(a: Ann, n: nat): (d: seq<nat>)
    ensures |d| == n
    decreases n
  {
    if n == 0 then [] else [if a.timer.Some? then a.timer.value else 0] + Delays(Fire(a, false), n - 1)
  }

  /** Probing, then announcing; announcing alone; and announcing for a group that was released with n_iteration at zero. */
  const PROBE_PLAN: seq<nat> := [0, 250, 250, 250, 1000, 2000]
  const ANNOUNCE_PLAN: seq<nat> := [0, 1000, 2000]
  const RELEASE_PLAN: seq<nat> := [0, 1000, 2000, 4000]

  /** The part of its plan that an announcer still has before it. */
  function Plan(a: Ann): seq<nat> {
    match a.state
    case Probing => if a.probes <= 3 then PROBE_PLAN[a.probes..] else []
    case Announcing =>
      if a.start == 0 && a.announced <= 4 then RELEASE_PLAN[a.announced..]
      else if a.announced <= 3 then ANNOUNCE_PLAN[a.announced..]
      else []
    case _ => []
  }

  lemma FirstOf(plan: seq<nat>, i: nat)
    requires i < |plan|
    ensures plan[i..] == [plan[i]] + plan[i + 1..]
  {
  }

  lemma Pauses()
    ensures Pause(0) == 0 && Pause(1) == 1000 && Pause(2) == 2000 && Pause(3) == 4000
  {
    assert Pow2(0) == 1 && Pow2(1) == 2 && Pow2(2) == 4;
  }

  lemma PlanStep(a: Ann, f: Flags)
    requires Healthy(a, f, false) && a.timer.Some?
    ensures Plan(a) == [a.timer.value] + Plan(Fire(a, false))
  {
    hide Pow2, Pause;
    Pauses();
    if a.state.Probing? {
      FirstOf(PROBE_PLAN, a.probes);
      assert PROBE_PLAN[4..] == [1000, 2000] == ANNOUNCE_PLAN[1..];
    } else if a.start == 0 {
      FirstOf(RELEASE_PLAN, a.announced);
    } else {
      FirstOf(ANNOUNCE_PLAN, a.announced);
    }
  }

  /** How many announcements a run of it ends with. */
  function Announcements(a: Ann): int {
    if a.state.Announcing? then 4 - a.start else 3
  }

  /** One event brings an announcer one event nearer to its end. */
  lemma OneEvent(a: Ann, f: Flags)
    requires Healthy(a, f, false) && a.timer.Some?
    ensures var b := Fire(a, false);
            && Healthy(b, f, false) && EventsLeft(a) == EventsLeft(b) + 1
            && if b.timer.Some? then Announcements(b) == Announcements(a)
               else b.state.Established? && ProbedFirst(b, f) && b.announced == Announcements(a)
  {
    FireHealthy(a, f, false);
    hide Pow2;
  }

  lemma UnfoldEvents(a: Ann, n: nat)
    requires a.timer.Some?
    ensures FireAll(a, n + 1) == FireAll(Fire(a, false), n)
    ensures Delays(a, n + 1) == [a.timer.value] + Delays(Fire(a, false), n)
  {
  }

  lemma NoEvents(a: Ann)
    ensures FireAll(a, 0) == a && Delays(a, 0) == []
  {
  }

  /**
   Undisturbed, an announcer stops after the events that are left: it is established and registered, its timer is off,
   and it has made three announcements, or four if its group released it with n_iteration at zero. The events come at
   the delays of its plan: a quarter of a second between probes, then one, two and four seconds between announcements.
   */
  lemma {:induction false} RunsToTheEnd(a: Ann, f: Flags)
    requires Healthy(a, f, false) && a.timer.Some?
    ensures var z := FireAll(a, EventsLeft(a));
            && z.state.Established? && z.timer.None? && ProbedFirst(z, f) && IsRegistered(z, f)
            && z.announced == if a.state.Announcing? then 4 - a.start else 3
    ensures Delays(a, EventsLeft(a)) == Plan(a)
    decreases EventsLeft(a)
  {
    hide Healthy, Plan, Fire, FireAll, Delays, ProbedFirst, EventsLeft;
    var b := Fire(a, false);
    OneEvent(a, f);
    PlanStep(a, f);
    UnfoldEvents(a, EventsLeft(b));
    if b.timer.Some? {
      RunsToTheEnd(b, f);
    } else {
      NoPlan(b);
      NoEvents(b);
    }
  }

  lemma NoPlan(a: Ann)
    requires a.state.Established?
    ensures Plan(a) == [] && EventsLeft(a) == 0
  {
  }

  /**
   From the beginning, outside a pending group: an entry that must be probed for sends three probes at 0, 250 and 500
   ms and announces at 750, 1750 and 3750 ms, one that need not be announces at 0, 1000 and 3000 ms, and one that is not
   to be announced does nothing.
   */
  lemma FromTheBeginning(f: Flags, probes: nat)
    ensures var a := Began(InitialState(f, false), probes);
            if f.unique && !f.noProbe then Delays(a, 6) == [0, 250, 250, 250, 1000, 2000] && FireAll(a, 6).timer.None? &&
                                          FireAll(a, 6).probes == 3 && FireAll(a, 6).announced == 3
            else if f.noAnnounce then a.timer.None? && a.state.Established?
            else Delays(a, 3) == [0, 1000, 2000] && FireAll(a, 3).timer.None? && FireAll(a, 3).announced == 3
  {
    var a := Began(InitialState(f, false), probes);
    InitialHealthy(f, false, probes);
    if a.timer.Some? {
      RunsToTheEnd(a, f);
      hide FireAll, Delays;
    }
  }

  /** In a pending group an entry that must be probed for probes, and any other waits, unless it is not to be announced. */
  lemma InPendingGroup(f: Flags, probes: nat)
    ensures var a := Began(InitialState(f, true), probes);
            if f.unique && !f.noProbe then a.state.Probing? && a.timer == Some(0) && a.probes == 0
            else a.timer.None? && (a.state.Waiting? <==> !f.noAnnounce)
  {
  }

  /** Released by its group, an announcer has announced once and does so twice more, or does so four times from now on. */
  lemma AfterRelease(a: Ann, f: Flags, immediately: bool)
    requires Healthy(a, f, true) && a.state.Waiting?
    ensures var b, n := Released(a, immediately), if immediately then 2 else 4;
            && Delays(b, n) == (if immediately then [1000, 2000] else [0, 1000, 2000, 4000])
            && FireAll(b, n).timer.None? && FireAll(b, n).announced == if immediately then 3 else 4
  {
    hide FireAll, Delays;
    ReleasedHealthy(a, f, immediately);
    RunsToTheEnd(Released(a, immediately), f);
  }

  /** Reannounced, an announcer that was probing, or waits after probing, probes three times anew. */
  lemma ReannouncedProbesAgain(a: Ann, f: Flags, waits: bool)
    requires Healthy(a, f, waits)
    ensures var b := Began(ReannouncedState(a.state, f), a.probes);
            && (b.state.Probing? <==> f.unique && !f.noProbe && (a.state.Probing? || a.state.Waiting?))
            && (b.state.Probing? ==> b.probes == 0 && b.timer == Some(0))
            && (b.state.Waiting? <==> a.state.Waiting? && !(f.unique && !f.noProbe))
            && (b.state.Announcing? <==> !f.noAnnounce && (a.state.Announcing? || a.state.Established?))
            && (b.state.Announcing? ==> Delays(b, 3) == [0, 1000, 2000])
  {
    var b := Began(ReannouncedState(a.state, f), a.probes);
    if b.state.Announcing? {
      hide Delays;
      ReannouncedHealthy(a, f, waits);
      OutOfGroup(b, f, waits);
      RunsToTheEnd(b, f);
    }
  }

  lemma OutOfGroup(a: Ann, f: Flags, waits: bool)
    requires Healthy(a, f, waits) && a.state.Announcing?
    ensures Healthy(a, f, false)
  {
  }
}
