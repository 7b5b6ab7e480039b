/** The life of one cached record: when it is refreshed, and when it goes. */
module CacheLives {
  import opened Bytes
  import opened TimeVals

  datatype State =
    | ValidState
    | Expiry1
    | Expiry2
    | Expiry3
    | ExpiryFinal
    | Poof
    | PoofFinal
    | GoodbyeFinal
    | ReplaceFinal

  datatype Life = Life(state: State, ttl: nat, timestamp: TimeVal, expiry: TimeVal)

  /** Where in its TTL, in percent, an entry of this state expires; None for an entry that goes in one second. */
  function Percent(s: State): Option<nat> {
    match s
    case ValidState | Poof => Some(80)
    case Expiry1 => Some(85)
    case Expiry2 => Some(90)
    case Expiry3 => Some(95)
    case ExpiryFinal => Some(100)
    case PoofFinal | GoodbyeFinal | ReplaceFinal => None
  }

  function Age(l: Life): int {
    Micros(l.expiry) - Micros(l.timestamp)
  }

  /** The expiry lies within two percent of the TTL after the point its state fixes. */
  predicate InWindow(l: Life) {
    match Percent(l.state)
    case None => true
    case Some(p) => l.ttl * 10000 * p <= Age(l) < l.ttl * 10000 * (p + 2)
  }

  /** next_expiry: the jitter is the fraction rand / (RAND_MAX + 1) of two percent, rounded down. */
  function NextExpiry(timestamp: TimeVal, ttl: nat, percent: nat, rand: nat): TimeVal {
    var left := ttl * 10000 * percent;
    var right := ttl * 10000 * (percent + 2);
    Add(timestamp, left + (right - left) * rand / (RAND_MAX + 1))
  }

  lemma NextExpiryInWindow(timestamp: TimeVal, ttl: nat, percent: nat, rand: nat)
    requires ttl > 0 && rand <= RAND_MAX
    ensures var age := Micros(NextExpiry(timestamp, ttl, percent, rand)) - Micros(timestamp);
            ttl * 10000 * percent <= age < ttl * 10000 * (percent + 2)
  {
    var left := ttl * 10000 * percent;
    var right := ttl * 10000 * (percent + 2);
    var width := right - left;
    assert width == ttl * 20000;
    AddIsExact(timestamp, left + width * rand / (RAND_MAX + 1));
    FractionBelow(width, rand, RAND_MAX + 1);
  }

  /** elapse_func: the next state, with a new expiry, or None when the entry is removed. */
  function Elapsed(l: Life, rand: nat): Option<Life> {
    match l.state
    case ValidState | Poof => Some(Life(Expiry1, l.ttl, l.timestamp, NextExpiry(l.timestamp, l.ttl, 85, rand)))
    case Expiry1 => Some(Life(Expiry2, l.ttl, l.timestamp, NextExpiry(l.timestamp, l.ttl, 90, rand)))
    case Expiry2 => Some(Life(Expiry3, l.ttl, l.timestamp, NextExpiry(l.timestamp, l.ttl, 95, rand)))
    case Expiry3 => Some(Life(ExpiryFinal, l.ttl, l.timestamp, NextExpiry(l.timestamp, l.ttl, 100, rand)))
    case _ => None
  }

  /** Each step leads into the next window, so the expiry is strictly later than the one that has just passed. */
  lemma ElapsedIsLater(l: Life, rand: nat)
    requires l.ttl > 0 && rand <= RAND_MAX && InWindow(l) && Elapsed(l, rand).Some?
    ensures var n := Elapsed(l, rand).value;
            && InWindow(n) && n.timestamp == l.timestamp && n.ttl == l.ttl
            && Percent(n.state).Some? && Percent(n.state).value >= Percent(l.state).value + 5
            && Micros(n.expiry) > Micros(l.expiry)
  {
    var n := Elapsed(l, rand).value;
    var p := Percent(n.state).value;
    NextExpiryInWindow(l.timestamp, l.ttl, p, rand);
    Apart(l.ttl * 10000, Percent(l.state).value + 2, p);
  }

  lemma Apart(unit: nat, a: nat, b: nat)
    requires a <= b
    ensures unit * a <= unit * b
  {
  }

  /** An entry that runs out of its own accord has been kept for its full TTL. */
  lemma KeptForFullTtl(l: Life, rand: nat, now: TimeVal)
    requires InWindow(l) && Elapsed(l, rand).None? && Micros(now) >= Micros(l.expiry)
    ensures Percent(l.state).Some? ==> Micros(now) - Micros(l.timestamp) >= l.ttl * 1000000
  {
  }

  /** What an undisturbed entry goes through, one random number for each time it elapses. */
  function Run(l: Life, rands: seq<nat>): (lives: seq<Life>)
    ensures |lives| >= 1 && lives[0] == l
    decreases |rands|
  {
    if rands == [] || Elapsed(l, rands[0]).None? then [l]
    else [l] + Run(Elapsed(l, rands[0]).value, rands[1..])
  }

  lemma RunStep(l: Life, rands: seq<nat>)
    requires rands != [] && Elapsed(l, rands[0]).Some?
    ensures Run(l, rands) == [l] + Run(Elapsed(l, rands[0]).value, rands[1..])
  {
  }

  /** How many more times an entry of this state elapses before it goes. */
  function StepsLeft(s: State): nat {
    match s
    case ValidState | Poof => 4
    case Expiry1 => 3
    case Expiry2 => 2
    case Expiry3 => 1
    case _ => 0
  }

  /**
   An undisturbed entry gets exactly as many refresh points as its state leaves (four from the start), at
   strictly increasing times, and has then lived for its full TTL.
   */
  lemma {:induction false} RefreshPoints(l: Life, rands: seq<nat>)
    requires l.ttl > 0 && InWindow(l) && Percent(l.state).Some?
    requires |rands| >= StepsLeft(l.state) && forall i :: 0 <= i < |rands| ==> rands[i] <= RAND_MAX
    ensures var lives := Run(l, rands);
            && |lives| == StepsLeft(l.state) + 1
            && (forall i, j :: 0 <= i < j < |lives| ==> Micros(lives[i].expiry) < Micros(lives[j].expiry))
            && lives[|lives| - 1].state == ExpiryFinal
            && lives[|lives| - 1].timestamp == l.timestamp
            && Age(lives[|lives| - 1]) >= l.ttl * 1000000
    decreases StepsLeft(l.state)
  {
    if StepsLeft(l.state) > 0 {
      ElapsedIsLater(l, rands[0]);
      var n := Elapsed(l, rands[0]).value;
      RefreshPoints(n, rands[1..]);
      RunStep(l, rands);
      var rest := Run(n, rands[1..]);
      var lives := [l] + rest;
      assert lives[|lives| - 1] == rest[|rest| - 1];
      forall i, j | 0 <= i < j < |lives|
        ensures Micros(lives[i].expiry) < Micros(lives[j].expiry)
      {
        if i == 0 {
          assert j == 1 || Micros(rest[0].expiry) < Micros(rest[j - 1].expiry);
        } else {
          assert lives[i] == rest[i - 1] && lives[j] == rest[j - 1];
        }
      }
    }
  }

  // ---------- The same in numbers ----------

  /** The expiry is at least `from` and less than `to` percent of the TTL after the timestamp. */
  predicate Between(l: Life, from: nat, to: nat) {
    from * l.ttl * 10000 <= Micros(l.expiry) - Micros(l.timestamp) < to * l.ttl * 10000
  }

  /** Where in its TTL an entry of each state expires, those that go in one second apart. */
  lemma WindowsInNumbers(l: Life)
    requires l.ttl > 0 && InWindow(l)
    ensures l.state.ValidState? || l.state.Poof? ==> Between(l, 80, 82)
    ensures l.state.Expiry1? ==> Between(l, 85, 87)
    ensures l.state.Expiry2? ==> Between(l, 90, 92)
    ensures l.state.Expiry3? ==> Between(l, 95, 97)
    ensures l.state.ExpiryFinal? ==> Between(l, 100, 102)
  {
  }

  lemma InFirstWindow(l: Life)
    requires l.state.ValidState? && Between(l, 80, 82)
    ensures InWindow(l)
  {
  }

  /** An entry elapses through the states in order, and then it is removed. */
  lemma StatesInOrder(l: Life, rand: nat)
    ensures var n := Elapsed(l, rand);
            match l.state
            case ValidState | Poof => n.Some? && n.value.state.Expiry1?
            case Expiry1 => n.Some? && n.value.state.Expiry2?
            case Expiry2 => n.Some? && n.value.state.Expiry3?
            case Expiry3 => n.Some? && n.value.state.ExpiryFinal?
            case _ => n.None?
    ensures var n := Elapsed(l, rand); n.Some? ==> n.value.ttl == l.ttl && n.value.timestamp == l.timestamp
  {
  }

  /**
   The life of an undisturbed entry, from the moment it is valid: it is refreshed four times, at 80, 85, 90 and 95
   percent of its TTL, and goes at 100, each time less than two percent later.
   */
  lemma LifeInNumbers(l: Life, rands: seq<nat>)
    requires l.ttl > 0 && l.state.ValidState? && Between(l, 80, 82)
    requires |rands| == 4 && forall i :: 0 <= i < 4 ==> rands[i] <= RAND_MAX
    ensures var lives := Run(l, rands);
            && |lives| == 5
            && Between(lives[0], 80, 82) && lives[1].state.Expiry1? && Between(lives[1], 85, 87)
            && lives[2].state.Expiry2? && Between(lives[2], 90, 92) && lives[3].state.Expiry3? && Between(lives[3], 95, 97)
            && lives[4].state.ExpiryFinal? && Between(lives[4], 100, 102)
            && (forall i :: 0 <= i < 5 ==> lives[i].ttl == l.ttl && lives[i].timestamp == l.timestamp)
            && forall rand :: Elapsed(lives[4], rand).None?
  {
    hide InWindow, Elapsed, Between;
    InFirstWindow(l);
    var a := Next(l, rands[0]);
    var b := Next(a, rands[1]);
    var c := Next(b, rands[2]);
    var d := Next(c, rands[3]);
    RunStep(l, rands);
    RunStep(a, rands[1..]);
    RunStep(b, rands[2..]);
    RunStep(c, rands[3..]);
    assert rands[1..][1..] == rands[2..] && rands[2..][1..] == rands[3..] && rands[3..][1..] == rands[4..] == [];
    assert Run(d, []) == [d];
    assert Run(l, rands) == [l] + ([a] + ([b] + ([c] + [d])));
    forall rand
      ensures Elapsed(d, rand).None?
    {
      StatesInOrder(d, rand);
    }
  }

  /** One step of a life, in the window of its state. */
  lemma Next(l: Life, rand: nat) returns (n: Life)
    requires l.ttl > 0 && rand <= RAND_MAX && InWindow(l)
    requires l.state.ValidState? || l.state.Expiry1? || l.state.Expiry2? || l.state.Expiry3?
    ensures Elapsed(l, rand) == Some(n) && InWindow(n) && n.ttl == l.ttl && n.timestamp == l.timestamp
    ensures l.state.ValidState? ==> n.state.Expiry1? && Between(n, 85, 87)
    ensures l.state.Expiry1? ==> n.state.Expiry2? && Between(n, 90, 92)
    ensures l.state.Expiry2? ==> n.state.Expiry3? && Between(n, 95, 97)
    ensures l.state.Expiry3? ==> n.state.ExpiryFinal? && Between(n, 100, 102)
  {
    StatesInOrder(l, rand);
    n := Elapsed(l, rand).value;
    ElapsedIsLater(l, rand);
    WindowsInNumbers(n);
  }

  // ---------- Passive observation of failure ----------

  datatype PoofLife = PoofLife(state: State, num: nat, since: TimeVal, address: Text)

  /** start_poof_callback: a query for the entry was seen at `now` from `address`. */
  function Observed(p: PoofLife, now: TimeVal, address: Text): PoofLife {
    match p.state
    case ValidState => PoofLife(Poof, 0, now, address)
    case Poof =>
      if Diff(now, p.since) < 1000000 then p
      else PoofLife(if p.num + 1 > 3 then PoofFinal else Poof, p.num + 1, now, address)
    case _ => p
  }

  function ObservedAll(p: PoofLife, times: seq<TimeVal>, address: Text): PoofLife {
    if times == [] then p
    else Observed(ObservedAll(p, times[..|times| - 1], address), times[|times| - 1], address)
  }

  /**
   A valid entry is given up only after queries that went unanswered over at least four seconds: the count is at
   most the seconds since the first query, and stands at four when the entry goes.
   */
  lemma {:induction false} PoofIsPatient(p: PoofLife, times: seq<TimeVal>, address: Text)
    requires p.state == ValidState && times != []
    ensures var q := ObservedAll(p, times, address);
            && (q.state == Poof || q.state == PoofFinal)
            && (q.state == PoofFinal <==> q.num == 4) && q.num <= 4
            && Micros(q.since) - Micros(times[0]) >= q.num * 1000000
            && q.since in times
    decreases |times|
  {
    var before, now := times[..|times| - 1], times[|times| - 1];
    if before != [] {
      PoofIsPatient(p, before, address);
      DiffIsExact(now, ObservedAll(p, before, address).since);
    } else {
      assert ObservedAll(p, before, address) == p;
    }
  }

  /**
   Queries a second or more apart that go unanswered are counted from the second one on, and with the fifth the entry is
   given up.
   */
  lemma {:induction false} PoofGivesUp(p: PoofLife, times: seq<TimeVal>, address: Text)
    requires p.state.ValidState? && times != []
    requires forall i :: 0 < i < |times| ==> Micros(times[i]) - Micros(times[i - 1]) >= 1000000
    ensures var q := ObservedAll(p, times, address);
            if |times| >= 5 then q.state.PoofFinal?
            else q.state.Poof? && q.num == |times| - 1 && q.since == times[|times| - 1]
    decreases |times|
  {
    var before, now := times[..|times| - 1], times[|times| - 1];
    if before != [] {
      PoofGivesUp(p, before, address);
      DiffIsExact(now, ObservedAll(p, before, address).since);
    } else {
      assert ObservedAll(p, before, address) == p;
    }
  }
}
