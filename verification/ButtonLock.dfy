/** The power button: an interrupt records it, and the loop runs the unlock gesture over what was recorded. */
module ButtonLock {
  const WRAP := 0x1_0000_0000
  const UNLOCK_MSEC := 10000

  /** millis() and every time taken from it wrap around after 2^32 ms. */
  type uint32 = x: int | 0 <= x < WRAP

  function Millis(t: nat): uint32 {
    t % WRAP
  }

  /** Subtraction of 32-bit times. */
  function Since(now: uint32, before: uint32): uint32 {
    (now - before) % WRAP
  }

  datatype Lock =
    | LockedWait4Release
    | LockedIdle
    | UnlockingHold
    | UnlockingWait4Release
    | UnlockingReleaseDelay
    | UnlockingWait4Ack
    | UnlockedIdle

  datatype Info = Info(pressTime: uint32, releaseTime: uint32, presses: uint32, pressed: bool)

  datatype Button = Button(info: Info, lock: Lock, prevPresses: uint32, request: bool)

  const BOOT := Button(Info(0, 0, 0, false), LockedIdle, 0, false)

  /** _buttonISR; the pin is low while the button is pressed. */
  function Interrupt(b: Button, high: bool, now: uint32): Button {
    var i := b.info;
    b.(info := if high then i.(releaseTime := now, pressed := false)
               else i.(pressTime := now, presses := (i.presses + 1) % WRAP, pressed := true))
  }

  /** The state machine of _buttonLoop. */
  function NextLock(lock: Lock, i: Info, now: uint32): Lock {
    match lock
    case LockedWait4Release => if !i.pressed then LockedIdle else lock
    case LockedIdle => if i.pressed then UnlockingHold else lock
    case UnlockingHold =>
      if !i.pressed then LockedIdle
      else if Since(now, i.pressTime) >= 1000 then UnlockingWait4Release
      else lock
    case UnlockingWait4Release =>
      if !i.pressed then UnlockingReleaseDelay
      else if Since(now, i.pressTime) >= 2000 then LockedWait4Release
      else lock
    case UnlockingReleaseDelay =>
      if i.pressed then LockedWait4Release
      else if Since(now, i.releaseTime) >= 1000 then UnlockingWait4Ack
      else lock
    case UnlockingWait4Ack =>
      if i.pressed then UnlockedIdle
      else if Since(now, i.releaseTime) >= 2000 then LockedIdle
      else lock
    case UnlockedIdle =>
      if Since(now, i.releaseTime) >= UNLOCK_MSEC && Since(now, i.pressTime) >= UNLOCK_MSEC then LockedWait4Release
      else lock
  }

  /** _buttonLoop */
  function Pass(b: Button, now: uint32): Button {
    var lock := NextLock(b.lock, b.info, now);
    var toggles := b.info.presses != b.prevPresses && lock.UnlockedIdle? && Since(now, b.info.releaseTime) > 250;
    Button(b.info, lock, b.info.presses, if toggles then !b.request else b.request)
  }

  class Switch {
    var pressTime: uint32
    var releaseTime: uint32
    var presses: uint32
    var pressed: bool
    var lock: Lock
    var prevPresses: uint32
    var request: bool

    constructor ()
      ensures Value() == BOOT
    {
      pressTime, releaseTime, presses, pressed := 0, 0, 0, false;
      lock, prevPresses, request := LockedIdle, 0, false;
    }

    function Value(): Button
      reads this
    {
      Button(Info(pressTime, releaseTime, presses, pressed), lock, prevPresses, request)
    }

    method ButtonIsr(high: bool, now: uint32)
      modifies this
      ensures Value() == Interrupt(old(Value()), high, now)
    {
      if high {
        releaseTime := now;
      } else {
        pressTime := now;
        presses := if presses == WRAP - 1 then 0 else presses + 1;
      }
      pressed := !high;
    }

    method ButtonLoop(now: uint32) returns (on: bool)
      modifies this
      ensures Value() == Pass(old(Value()), now) && on == request
    {
      match lock {
        case LockedWait4Release =>
          if !pressed {
            lock := LockedIdle;
          }
        case LockedIdle =>
          if pressed {
            lock := UnlockingHold;
          }
        case UnlockingHold =>
          if !pressed {
            lock := LockedIdle;
          } else if Since(now, pressTime) >= 1000 {
            lock := UnlockingWait4Release;
          }
        case UnlockingWait4Release =>
          if !pressed {
            lock := UnlockingReleaseDelay;
          } else if Since(now, pressTime) >= 2000 {
            lock := LockedWait4Release;
          }
        case UnlockingReleaseDelay =>
          if pressed {
            lock := LockedWait4Release;
          } else if Since(now, releaseTime) >= 1000 {
            lock := UnlockingWait4Ack;
          }
        case UnlockingWait4Ack =>
          if pressed {
            lock := UnlockedIdle;
          } else if Since(now, releaseTime) >= 2000 {
            lock := LockedIdle;
          }
        case UnlockedIdle =>
          if Since(now, releaseTime) >= UNLOCK_MSEC && Since(now, pressTime) >= UNLOCK_MSEC {
            lock := LockedWait4Release;
          }
      }
      if presses != prevPresses && lock.UnlockedIdle? && Since(now, releaseTime) > 250 {
        request := !request;
      }
      prevPresses := presses;
      on := request;
    }
  }

  // ---------- All interleavings of interrupts and loop passes ----------

  /** At the real time `t`, in ms since the start: an interrupt with the level it read, or a pass of the loop. */
  datatype Event =
    | Edge(t: nat, high: bool)
    | Loop(t: nat)

  predicate InOrder(trace: seq<Event>) {
    forall i, j :: 0 <= i < j < |trace| ==> trace[i].t <= trace[j].t
  }

  function Apply(b: Button, e: Event): Button {
    match e
    case Edge(t, high) => Interrupt(b, high, Millis(t))
    case Loop(t) => Pass(b, Millis(t))
  }

  /** The button after the first n events. */
  function After(trace: seq<Event>, n: nat): Button
    requires n <= |trace|
  {
    if n == 0 then BOOT else Apply(After(trace, n - 1), trace[n - 1])
  }

  /** From the interrupt at index i to the loop pass at index j the level did not change, and that took `msec` or more. */
  predicate Unbroken(trace: seq<Event>, i: nat, j: nat, high: bool, msec: nat) {
    && i < j < |trace| && trace[i].Edge? && trace[i].high == high && trace[j].Loop?
    && (forall k :: i < k < j ==> trace[k].Loop?)
    && trace[j].t - trace[i].t >= msec
  }

  /** The last interrupt before event n, or -1. */
  function LastEdge(trace: seq<Event>, n: nat): (i: int)
    requires n <= |trace|
    ensures -1 <= i < n
    ensures i >= 0 ==> trace[i].Edge?
    ensures forall k :: i < k < n ==> trace[k].Loop?
  {
    if n == 0 then -1 else if trace[n - 1].Edge? then n - 1 else LastEdge(trace, n - 1)
  }

  /** What the button info says is what the last interrupt read. */
  lemma {:induction false} InfoIsLastEdge(trace: seq<Event>, n: nat)
    requires n <= |trace|
    ensures var i, info := LastEdge(trace, n), After(trace, n).info;
            if i < 0 then info == BOOT.info
            else info.pressed == !trace[i].high &&
                 (if trace[i].high then info.releaseTime else info.pressTime) == Millis(trace[i].t)
  {
    if n > 0 {
      InfoIsLastEdge(trace, n - 1);
    }
  }

  /** A wrapped time difference never exceeds the real one, and equals it for 2^32 ms. */
  lemma SinceIsAtMostReal(now: nat, before: nat)
    requires before <= now
    ensures Since(Millis(now), Millis(before)) == (now - before) % WRAP <= now - before
  {
    var a, b := now / WRAP, before / WRAP;
    var x := Millis(now) - Millis(before);
    assert x == (now - before) + WRAP * (b - a);
    SameRemainder(x, now - before, b - a);
  }

  lemma ExactSince(now: nat, before: nat)
    requires before <= now < before + WRAP
    ensures Since(Millis(now), Millis(before)) == now - before
  {
    SinceIsAtMostReal(now, before);
  }

  lemma SameRemainder(x: int, d: nat, k: int)
    requires x == d + WRAP * k
    ensures x % WRAP == d % WRAP
  {
  }

  /** Where in a trace the parts of the unlock gesture are. */
  datatype Gesture = Gesture(press: nat, held: nat, release: nat, rested: nat, ack: nat)

  /** The button was held. */
  predicate Held(trace: seq<Event>, n: nat, g: Gesture) {
    g.press < g.held < n && Unbroken(trace, g.press, g.held, false, 1000)
  }

  /** And then it was let go. */
  predicate Rested(trace: seq<Event>, n: nat, g: Gesture) {
    g.held < g.release < g.rested < n && Unbroken(trace, g.release, g.rested, true, 1000)
  }

  /** And then it was pressed again. */
  predicate Acknowledged(trace: seq<Event>, n: nat, g: Gesture)
    requires n <= |trace|
  {
    g.rested < g.ack < n && trace[g.ack].Edge? && !trace[g.ack].high
  }

  /** A later interrupt with the other level is not part of what was unbroken. */
  lemma LaterEdge(trace: seq<Event>, i: nat, j: nat, high: bool, msec: nat, n: nat)
    requires n <= |trace| && j < n && Unbroken(trace, i, j, high, msec)
    ensures var last := LastEdge(trace, n); last >= 0 && (trace[last].high != high ==> last > j)
  {
  }

  /** A pass that sees the button in one state for long enough sees an unbroken stretch of it. */
  lemma LongEnough(trace: seq<Event>, n: nat, msec: nat)
    requires InOrder(trace) && n < |trace| && trace[n].Loop? && LastEdge(trace, n) >= 0
    requires var info := After(trace, n).info;
             Since(Millis(trace[n].t), if info.pressed then info.pressTime else info.releaseTime) >= msec
    ensures var i := LastEdge(trace, n); 0 <= i < n && Unbroken(trace, i, n, trace[i].high, msec)
  {
    var i := LastEdge(trace, n);
    InfoIsLastEdge(trace, n);
    SinceIsAtMostReal(trace[n].t, trace[i].t);
  }

  /**
   Whatever the interleaving and however often the clock has wrapped around: the button is unlocked only after an
   unbroken press of at least a second, then an unbroken release of at least a second, and then a press.
   */
  lemma {:induction false} UnlockedByGesture(trace: seq<Event>, n: nat) returns (g: Gesture)
    requires InOrder(trace) && n <= |trace|
    ensures var lock := After(trace, n).lock;
            && (lock.UnlockingWait4Release? || lock.UnlockingReleaseDelay? ==> Held(trace, n, g))
            && (lock.UnlockingWait4Ack? ==> Held(trace, n, g) && Rested(trace, n, g))
            && (lock.UnlockedIdle? ==> Held(trace, n, g) && Rested(trace, n, g) && Acknowledged(trace, n, g))
  {
    hide Unbroken, LastEdge, InOrder, Since;
    g := Gesture(0, 0, 0, 0, 0);
    if n > 0 {
      g := UnlockedByGesture(trace, n - 1);
      var k := n - 1;
      if trace[k].Loop? {
        var before, after, i := After(trace, k), After(trace, n), LastEdge(trace, k);
        InfoIsLastEdge(trace, k);
        if before.lock.UnlockingHold? && after.lock.UnlockingWait4Release? {
          LongEnough(trace, k, 1000);
          g := Gesture(i, k, 0, 0, 0);
        } else if before.lock.UnlockingReleaseDelay? && after.lock.UnlockingWait4Ack? {
          LaterEdge(trace, g.press, g.held, false, 1000, k);
          LongEnough(trace, k, 1000);
          g := g.(release := i, rested := k);
        } else if before.lock.UnlockingWait4Ack? && after.lock.UnlockedIdle? {
          LaterEdge(trace, g.release, g.rested, true, 1000, k);
          g := g.(ack := i);
        }
      }
    }
  }

  /** The press counter only moves with an interrupt that read a press. */
  lemma {:induction false} CounterCountsPresses(trace: seq<Event>, m: nat, n: nat)
    requires m <= n <= |trace|
    requires forall k :: m <= k < n ==> !(trace[k].Edge? && !trace[k].high)
    ensures After(trace, n).info.presses == After(trace, m).info.presses
  {
    if m < n {
      CounterCountsPresses(trace, m, n - 1);
    }
  }

  /**
   A pass changes the power request only while the button is unlocked, only if the button was pressed since the
   pass before, and only when the last release was more than 250 ms ago.
   */
  lemma TogglesOnlyUnlocked(trace: seq<Event>, n: nat)
    requires n < |trace| && After(trace, n + 1).request != After(trace, n).request
    ensures trace[n].Loop? && After(trace, n + 1).lock.UnlockedIdle?
    ensures After(trace, n + 1).request == !After(trace, n).request
    ensures After(trace, n).info.presses != After(trace, n).prevPresses
    ensures Since(Millis(trace[n].t), After(trace, n).info.releaseTime) > 250
  {
  }

  /** The counter value a pass compares with is that of the pass before it. */
  lemma {:induction false} PressedSinceLastPass(trace: seq<Event>, m: nat, n: nat)
    requires m < n < |trace| && trace[m].Loop? && trace[n].Loop?
    requires forall k :: m < k < n ==> trace[k].Edge?
    requires After(trace, n + 1).request != After(trace, n).request
    ensures exists k :: m < k < n && trace[k].Edge? && !trace[k].high
  {
    PrevIsLastPass(trace, m, n);
    if forall k :: m < k < n ==> trace[k].high {
      CounterCountsPresses(trace, m + 1, n);
    }
  }

  lemma {:induction false} PrevIsLastPass(trace: seq<Event>, m: nat, n: nat)
    requires m < n <= |trace| && trace[m].Loop?
    requires forall k :: m < k < n ==> trace[k].Edge?
    ensures After(trace, n).prevPresses == After(trace, m + 1).prevPresses == After(trace, m + 1).info.presses
  {
    if m + 1 < n {
      PrevIsLastPass(trace, m, n - 1);
    }
  }

  /** The button locks itself again only when nothing was pressed or released for ten seconds. */
  lemma LocksWhenIdle(trace: seq<Event>, n: nat)
    requires InOrder(trace) && n < |trace|
    requires After(trace, n).lock.UnlockedIdle? && !After(trace, n + 1).lock.UnlockedIdle?
    ensures LastEdge(trace, n) >= 0 ==> trace[n].t - trace[LastEdge(trace, n)].t >= UNLOCK_MSEC
  {
    InfoIsLastEdge(trace, n);
    var i := LastEdge(trace, n);
    if i >= 0 {
      SinceIsAtMostReal(trace[n].t, trace[i].t);
    }
  }

  // ---------- What the button does for its user ----------

  /** An interrupt of this level at index i, and then passes alone up to index n. */
  predicate ThenPasses(trace: seq<Event>, i: nat, n: nat, high: bool) {
    i < n <= |trace| && trace[i].Edge? && trace[i].high == high && forall k :: i < k < n ==> trace[k].Loop?
  }

  /** Since interrupt i, two passes or more; the last one saw its level for at least 1000 ms, but not for 2000 ms. */
  predicate ForASecond(trace: seq<Event>, i: nat, n: nat) {
    i + 3 <= n <= |trace| && 1000 <= trace[n - 1].t - trace[i].t < 2000
  }

  /** The locked button while it is pressed, up to 2000 ms. */
  lemma {:induction false} WhilePressed(trace: seq<Event>, i: nat, n: nat)
    requires InOrder(trace) && ThenPasses(trace, i, n, false) && trace[n - 1].t - trace[i].t < 2000
    requires After(trace, i).lock.LockedIdle?
    ensures var b := After(trace, n);
            && b.info.pressed && b.info.pressTime == Millis(trace[i].t)
            && b.lock == if n == i + 1 then LockedIdle else if ForASecond(trace, i, n) then UnlockingWait4Release else UnlockingHold
  {
    if n > i + 1 {
      WhilePressed(trace, i, n - 1);
      SinceIsAtMostReal(trace[n - 1].t, trace[i].t);
      hide Since;
    }
  }

  /** The button while it is released after that, up to 2000 ms. */
  lemma {:induction false} WhileReleased(trace: seq<Event>, i: nat, n: nat)
    requires InOrder(trace) && ThenPasses(trace, i, n, true) && trace[n - 1].t - trace[i].t < 2000
    requires After(trace, i).lock.UnlockingWait4Release?
    ensures var b := After(trace, n);
            && !b.info.pressed && b.info.releaseTime == Millis(trace[i].t)
            && b.lock == if n == i + 1 then UnlockingWait4Release
                         else if ForASecond(trace, i, n) then UnlockingWait4Ack else UnlockingReleaseDelay
  {
    if n > i + 1 {
      WhileReleased(trace, i, n - 1);
      SinceIsAtMostReal(trace[n - 1].t, trace[i].t);
      hide Since;
    }
  }

  /**
   The gesture unlocks a locked button: a press that passes see for between one and two seconds, then a release that
   passes see for between one and two seconds, then a press that a pass sees.
   */
  lemma GestureUnlocks(trace: seq<Event>, press: nat, release: nat, ack: nat)
    requires InOrder(trace) && press < release < ack && ack + 1 < |trace| && After(trace, press).lock.LockedIdle?
    requires ThenPasses(trace, press, release, false) && ForASecond(trace, press, release)
    requires ThenPasses(trace, release, ack, true) && ForASecond(trace, release, ack)
    requires ThenPasses(trace, ack, ack + 2, false)
    ensures After(trace, ack + 2).lock.UnlockedIdle?
  {
    WhilePressed(trace, press, release);
    WhileReleased(trace, release, ack);
  }

  /** When the button was last pressed, or released, in real time; the start counts as both. */
  function LastTime(trace: seq<Event>, n: nat, high: bool): nat
    requires n <= |trace|
  {
    if n == 0 then 0
    else if trace[n - 1].Edge? && trace[n - 1].high == high then trace[n - 1].t
    else LastTime(trace, n - 1, high)
  }

  lemma {:induction false} InfoTimes(trace: seq<Event>, n: nat)
    requires n <= |trace|
    ensures After(trace, n).info.pressTime == Millis(LastTime(trace, n, false))
    ensures After(trace, n).info.releaseTime == Millis(LastTime(trace, n, true))
  {
    if n > 0 {
      InfoTimes(trace, n - 1);
    }
  }

  lemma {:induction false} LastTimeIsPast(trace: seq<Event>, n: nat, m: nat, high: bool)
    requires InOrder(trace) && n <= m < |trace|
    ensures LastTime(trace, n, high) <= trace[m].t
  {
    if n > 0 {
      LastTimeIsPast(trace, n - 1, m, high);
    }
  }

  /** The times since the last press and release, as a pass sees them, are exact for 2^32 ms. */
  lemma SeenTimes(trace: seq<Event>, n: nat, high: bool)
    requires InOrder(trace) && n < |trace| && trace[n].t - LastTime(trace, n, high) < WRAP
    ensures var i := After(trace, n).info;
            Since(Millis(trace[n].t), if high then i.releaseTime else i.pressTime) == trace[n].t - LastTime(trace, n, high)
  {
    InfoTimes(trace, n);
    LastTimeIsPast(trace, n, n, high);
    ExactSince(trace[n].t, LastTime(trace, n, high));
    hide Since, LastTime;
  }

  /** The first pass ten seconds after the last press and the last release locks the button again, and no other does. */
  lemma LocksExactlyWhenIdle(trace: seq<Event>, n: nat)
    requires InOrder(trace) && n < |trace| && trace[n].Loop? && After(trace, n).lock.UnlockedIdle?
    requires trace[n].t - LastTime(trace, n, true) < WRAP && trace[n].t - LastTime(trace, n, false) < WRAP
    ensures After(trace, n + 1).lock ==
            if trace[n].t - LastTime(trace, n, true) >= 10000 && trace[n].t - LastTime(trace, n, false) >= 10000
            then LockedWait4Release else UnlockedIdle
  {
    SeenTimes(trace, n, true);
    SeenTimes(trace, n, false);
    hide Since;
  }

  /** The last interrupt read a press. */
  function IsPressed(trace: seq<Event>, n: nat): bool
    requires n <= |trace|
  {
    if n == 0 then false else if trace[n - 1].Edge? then !trace[n - 1].high else IsPressed(trace, n - 1)
  }

  lemma {:induction false} InfoLevel(trace: seq<Event>, n: nat)
    requires n <= |trace|
    ensures After(trace, n).info.pressed == IsPressed(trace, n)
  {
    if n > 0 {
      InfoLevel(trace, n - 1);
    }
  }

  /**
   What breaks the gesture: a release before the second is over, a press that lasts for two, a press before the rest is
   over, and a rest of two seconds. The button is then locked, and idle once it is seen released.
   */
  lemma BrokenGesture(trace: seq<Event>, n: nat)
    requires InOrder(trace) && n < |trace| && trace[n].Loop?
    requires trace[n].t - LastTime(trace, n, true) < WRAP && trace[n].t - LastTime(trace, n, false) < WRAP
    ensures var before, after, pressed := After(trace, n).lock, After(trace, n + 1).lock, IsPressed(trace, n);
            var press, release := trace[n].t - LastTime(trace, n, false), trace[n].t - LastTime(trace, n, true);
            && (before.LockedWait4Release? ==> after == if pressed then LockedWait4Release else LockedIdle)
            && (before.LockedIdle? && !pressed ==> after.LockedIdle?)
            && (before.UnlockingHold? && !pressed ==> after.LockedIdle?)
            && (before.UnlockingWait4Release? && pressed && press >= 2000 ==> after.LockedWait4Release?)
            && (before.UnlockingReleaseDelay? && pressed ==> after.LockedWait4Release?)
            && (before.UnlockingWait4Ack? && !pressed && release >= 2000 ==> after.LockedIdle?)
  {
    InfoLevel(trace, n);
    SeenTimes(trace, n, true);
    SeenTimes(trace, n, false);
    hide Since;
  }

  /** How often the button was pressed between two events. */
  function Presses(trace: seq<Event>, m: nat, n: nat): (c: nat)
    requires m <= n <= |trace|
    ensures c <= n - m
    ensures c > 0 <==> exists k :: m <= k < n && trace[k].Edge? && !trace[k].high
  {
    if m == n then 0
    else Presses(trace, m, n - 1) + if trace[n - 1].Edge? && !trace[n - 1].high then 1 else 0
  }

  lemma {:induction false} CounterIsPresses(trace: seq<Event>, m: nat, n: nat)
    requires m <= n <= |trace|
    ensures After(trace, n).info.presses == (After(trace, m).info.presses + Presses(trace, m, n)) % WRAP
  {
    if m < n {
      CounterIsPresses(trace, m, n - 1);
      OneMore(After(trace, m).info.presses + Presses(trace, m, n - 1));
    }
  }

  lemma OneMore(x: nat)
    ensures (x % WRAP + 1) % WRAP == (x + 1) % WRAP
  {
  }

  /** Since the pass before event m, or the start, there were interrupts alone. */
  predicate InterruptsSince(trace: seq<Event>, m: nat, n: nat) {
    m <= n < |trace| && (m == 0 || trace[m - 1].Loop?) && forall k :: m <= k < n ==> trace[k].Edge?
  }

  lemma {:induction false} PrevIsThen(trace: seq<Event>, m: nat, n: nat)
    requires InterruptsSince(trace, m, n)
    ensures After(trace, n).prevPresses == After(trace, m).info.presses
  {
    if m < n {
      PrevIsThen(trace, m, n - 1);
    }
  }

  /**
   A pass changes the power request exactly if it leaves the button unlocked, the button was pressed since the pass
   before, and it was last released more than 250 ms ago.
   */
  lemma TogglesExactly(trace: seq<Event>, m: nat, n: nat)
    requires InOrder(trace) && InterruptsSince(trace, m, n) && trace[n].Loop? && n - m < WRAP
    requires trace[n].t - LastTime(trace, n, true) < WRAP
    ensures After(trace, n + 1).request != After(trace, n).request <==>
            && After(trace, n + 1).lock.UnlockedIdle?
            && (exists k :: m <= k < n && !trace[k].high)
            && trace[n].t - LastTime(trace, n, true) > 250
  {
    SeenTimes(trace, n, true);
    PrevIsThen(trace, m, n);
    CounterIsPresses(trace, m, n);
    var before, c := After(trace, m).info.presses, Presses(trace, m, n);
    CountedApart(before, c);
    hide Since;
  }

  lemma CountedApart(before: uint32, c: nat)
    requires c < WRAP
    ensures (before + c) % WRAP == before <==> c == 0
  {
  }

  /** While the button is unlocked, every press toggles the request, unless it comes too soon after a release. */
  lemma PressToggles(trace: seq<Event>, m: nat, n: nat)
    requires InOrder(trace) && InterruptsSince(trace, m, n) && trace[n].Loop? && n - m < WRAP
    requires After(trace, n).lock.UnlockedIdle? && exists k :: m <= k < n && !trace[k].high
    requires trace[n].t - LastTime(trace, n, false) < 10000 && 250 < trace[n].t - LastTime(trace, n, true) < WRAP
    ensures After(trace, n + 1).lock.UnlockedIdle? && After(trace, n + 1).request == !After(trace, n).request
  {
    LocksExactlyWhenIdle(trace, n);
    TogglesExactly(trace, m, n);
  }

  /** A gesture from the start, with its passes. */
  const GESTURE: seq<Event> := [Edge(1000, false), Loop(1001), Loop(2001), Edge(2500, true), Loop(2501), Loop(3600),
                                Edge(3700, false), Loop(3701)]

  lemma GestureWorks()
    ensures InOrder(GESTURE) && After(GESTURE, 8).lock.UnlockedIdle? && After(GESTURE, 8).request
  {
    assert After(GESTURE, 0).lock.LockedIdle?;
    GestureUnlocks(GESTURE, 0, 3, 6);
    assert !GESTURE[6].high;
    assert LastTime(GESTURE, 7, true) == LastTime(GESTURE, 6, true) == LastTime(GESTURE, 5, true) == LastTime(GESTURE, 4, true);
    NotYetRequested(7);
    TogglesExactly(GESTURE, 6, 7);
  }

  /** Nothing is requested while that gesture is made. */
  lemma {:induction false} NotYetRequested(n: nat)
    requires n <= 7
    ensures !After(GESTURE, n).request
  {
    if n > 0 {
      NotYetRequested(n - 1);
    }
  }
}
