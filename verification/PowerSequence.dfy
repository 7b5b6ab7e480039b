/** Switching the consumers on and off: the main relay, and the mount, camera and heaters behind it. */
module PowerSequence {
  import opened ButtonLock

  const PC_OFF_CURRENT := 0.2
  const BAT_MIN_TURN_ON_VOLTAGE := -1.0
  const SHUTDOWN_MSEC := 3600000

  datatype Stage =
    | OffIdle
    | OffPrepareActivation
    | OnSubsOff
    | OnSubsActivation
    | OnIdle
    | OnPreparePowerDown
    | OnWait4PcShutdown

  /** What was last commanded, and when the stage last changed. */
  datatype Power = Power(stage: Stage, lastChange: uint32, relay: bool, mount: bool, camera: bool, heater0: nat, heater1: nat)

  /** All pins are low after a reset; the mount relay is normally closed. */
  const COLD := Power(OffIdle, 0, false, true, false, 0, 0)

  /** One pass of the loop: the request, the real times at its start and its end, and what the sensors say. */
  datatype Input = Input(requested: bool, t: nat, tEnd: nat, voltage: real, current: real)

  /** The pins after a pass. */
  function Commanded(p: Power, requested: bool, elapsed: uint32): Power {
    match p.stage
    case OffIdle =>
      if requested then p else p.(relay := false, mount := true, camera := false, heater0 := 0, heater1 := 0)
    case OffPrepareActivation => p.(mount := false, camera := false, heater0 := 0, heater1 := 0)
    case OnSubsOff => p.(relay := true)
    case OnSubsActivation => p.(camera := true, mount := p.mount || elapsed >= 500)
    case OnIdle => p
    case OnPreparePowerDown => p.(mount := false)
    case OnWait4PcShutdown => p
  }

  function NextStage(stage: Stage, i: Input, elapsed: uint32): Stage {
    match stage
    case OffIdle => if i.requested then OffPrepareActivation else stage
    case OffPrepareActivation => if elapsed > 200 then OnSubsOff else stage
    case OnSubsOff =>
      if elapsed > 100 && i.voltage >= BAT_MIN_TURN_ON_VOLTAGE then OnSubsActivation
      else if elapsed > 3000 then OffIdle
      else stage
    case OnSubsActivation => if elapsed >= 1000 then OnIdle else stage
    case OnIdle => if !i.requested then OnPreparePowerDown else stage
    case OnPreparePowerDown => if elapsed > 200 then OnWait4PcShutdown else stage
    case OnWait4PcShutdown =>
      if i.requested then OnSubsActivation
      else if i.current < PC_OFF_CURRENT || elapsed > SHUTDOWN_MSEC then OffIdle
      else stage
  }

  /** _consumerPowerLoop */
  function Step(p: Power, i: Input): Power {
    var elapsed := Since(Millis(i.t), p.lastChange);
    var stage := NextStage(p.stage, i, elapsed);
    Commanded(p, i.requested, elapsed).(stage := stage,
                                        lastChange := if stage != p.stage then Millis(i.tEnd) else p.lastChange)
  }

  class Consumers {
    var stage: Stage
    var lastChange: uint32
    var relay: bool
    var mount: bool
    var camera: bool
    var heater0: nat
    var heater1: nat

    constructor ()
      ensures Value() == COLD
    {
      stage, lastChange := OffIdle, 0;
      relay, mount, camera, heater0, heater1 := false, true, false, 0, 0;
    }

    function Value(): Power
      reads this
    {
      Power(stage, lastChange, relay, mount, camera, heater0, heater1)
    }

    method PowerLoop(i: Input)
      modifies this
      ensures Value() == Step(old(Value()), i)
    {
      var prev := stage;
      var elapsed := Since(Millis(i.t), lastChange);
      match stage {
        case OffIdle =>
          if i.requested {
            stage := OffPrepareActivation;
          } else {
            relay, mount, camera, heater0, heater1 := false, true, false, 0, 0;
          }
        case OffPrepareActivation =>
          mount, camera, heater0, heater1 := false, false, 0, 0;
          if elapsed > 200 {
            stage := OnSubsOff;
          }
        case OnSubsOff =>
          relay := true;
          if elapsed > 100 && i.voltage >= BAT_MIN_TURN_ON_VOLTAGE {
            stage := OnSubsActivation;
          } else if elapsed > 3000 {
            stage := OffIdle;
          }
        case OnSubsActivation =>
          camera := true;
          if elapsed >= 500 {
            mount := true;
          }
          if elapsed >= 1000 {
            stage := OnIdle;
          }
        case OnIdle =>
          if !i.requested {
            stage := OnPreparePowerDown;
          }
        case OnPreparePowerDown =>
          mount := false;
          if elapsed > 200 {
            stage := OnWait4PcShutdown;
          }
        case OnWait4PcShutdown =>
          if i.requested {
            stage := OnSubsActivation;
          } else if i.current < PC_OFF_CURRENT || elapsed > SHUTDOWN_MSEC {
            stage := OffIdle;
          }
      }
      if stage != prev {
        lastChange := Millis(i.tEnd);
      }
    }
  }

  // ---------- All runs ----------

  predicate InTime(run: seq<Input>) {
    && (forall k :: 0 <= k < |run| ==> run[k].t <= run[k].tEnd)
    && (forall j, k :: 0 <= j < k < |run| ==> run[j].tEnd <= run[k].t)
  }

  /** The state after the first n passes. */
  function At(run: seq<Input>, n: nat): Power
    requires n <= |run|
  {
    if n == 0 then COLD else Step(At(run, n - 1), run[n - 1])
  }

  predicate AllOff(p: Power) {
    !p.mount && !p.camera && p.heater0 == 0 && p.heater1 == 0
  }

  /** Pass k switched everything off, and it has stayed off until after pass n. */
  predicate OffSince(run: seq<Input>, k: nat, n: nat) {
    && k <= n < |run| && At(run, k).stage.OffPrepareActivation?
    && forall i :: k < i <= n + 1 ==> AllOff(At(run, i))
  }

  /** Before the stage in which the relay is switched on, everything behind it was switched off and stayed off. */
  lemma {:induction false} OffBeforeRelay(run: seq<Input>, n: nat) returns (k: nat)
    requires n <= |run| && At(run, n).stage.OnSubsOff?
    ensures k < n && OffSince(run, k, n - 1)
  {
    assert n > 0;
    if At(run, n - 1).stage.OffPrepareActivation? {
      k := n - 1;
    } else {
      k := OffBeforeRelay(run, n - 1);
    }
  }

  /**
   The main relay rises only in a pass before which mount, camera and both heaters were commanded off; they have
   stayed off since and are off after the pass.
   */
  lemma RisesOnlyWithAllOff(run: seq<Input>, n: nat) returns (k: nat)
    requires n < |run| && !At(run, n).relay && At(run, n + 1).relay
    ensures k < n && OffSince(run, k, n)
  {
    k := OffBeforeRelay(run, n);
  }

  /** The stages of a system that is up, or going down in order. */
  predicate Up(s: Stage) {
    s.OnIdle? || s.OnSubsActivation? || s.OnPreparePowerDown? || s.OnWait4PcShutdown?
  }

  /**
   The system goes down in order: pass m prepares for it and switches the mount off, passes m + 1 to w wait for the
   PC, and pass w finds its current low, or has waited for more than an hour of real time.
   */
  predicate ShutDown(run: seq<Input>, m: nat, w: nat) {
    && m < w < |run|
    && At(run, m).stage.OnPreparePowerDown?
    && (forall i :: m < i <= w ==> At(run, i).stage.OnWait4PcShutdown? && !At(run, i).mount)
    && At(run, w + 1).stage.OffIdle? && !run[w].requested
    && (run[w].current < PC_OFF_CURRENT || run[w].t - run[m].tEnd > SHUTDOWN_MSEC)
  }

  /** Waiting for the PC is always preceded by the preparation for power down. */
  lemma {:induction false} WaitsAfterPreparing(run: seq<Input>, w: nat) returns (m: nat)
    requires w <= |run| && At(run, w).stage.OnWait4PcShutdown?
    ensures m < w && At(run, m).stage.OnPreparePowerDown? && At(run, w).lastChange == Millis(run[m].tEnd)
    ensures forall i :: m < i <= w ==> At(run, i).stage.OnWait4PcShutdown? && !At(run, i).mount
  {
    assert w > 0;
    if At(run, w - 1).stage.OnWait4PcShutdown? {
      m := WaitsAfterPreparing(run, w - 1);
    } else {
      m := w - 1;
    }
  }

  lemma LeavesInOrder(run: seq<Input>, w: nat) returns (m: nat)
    requires InTime(run) && w < |run| && Up(At(run, w).stage) && !Up(At(run, w + 1).stage)
    ensures ShutDown(run, m, w)
  {
    m := WaitsAfterPreparing(run, w);
    SinceIsAtMostReal(run[w].t, run[m].tEnd);
  }

  /** From the moment the system was up it is up, or it has been shut down in order since. */
  lemma {:induction false} UpOrShutDown(run: seq<Input>, j: nat, n: nat) returns (m: nat, w: nat)
    requires InTime(run) && j <= n <= |run| && Up(At(run, j).stage)
    ensures Up(At(run, n).stage) || (j <= w < n && ShutDown(run, m, w))
  {
    m, w := 0, 0;
    if j < n {
      m, w := UpOrShutDown(run, j, n - 1);
      if Up(At(run, n - 1).stage) && !Up(At(run, n).stage) {
        m := LeavesInOrder(run, n - 1);
        w := n - 1;
      }
    }
  }

  /** While the system is up the main relay is on. */
  lemma {:induction false} UpMeansOn(run: seq<Input>, n: nat)
    requires n <= |run| && Up(At(run, n).stage)
    ensures At(run, n).relay
  {
    assert n > 0;
    if Up(At(run, n - 1).stage) {
      UpMeansOn(run, n - 1);
    }
  }

  /**
   Once the system was up and idle, the main relay falls only after the preparation for power down, and after the PC
   drew less than 0.2 A or more than an hour of waiting for that.
   */
  lemma FallsOnlyAfterShutdown(run: seq<Input>, j: nat, n: nat) returns (m: nat, w: nat)
    requires InTime(run) && j <= n < |run| && At(run, j).stage.OnIdle?
    requires At(run, n).relay && !At(run, n + 1).relay
    ensures j < m < w < n && ShutDown(run, m, w)
  {
    m, w := UpOrShutDown(run, j, n);
  }

  // ---------- The way up ----------

  /** The stages in which the camera is to be on, and that of a system that has come up. */
  lemma {:induction false} CameraAndMountOn(run: seq<Input>, n: nat)
    requires n <= |run|
    ensures At(run, n).stage.OnIdle? ==> At(run, n).relay && At(run, n).camera && At(run, n).mount
    ensures At(run, n).stage.OnPreparePowerDown? || At(run, n).stage.OnWait4PcShutdown? ==> At(run, n).camera
  {
    if n > 0 {
      CameraAndMountOn(run, n - 1);
      if At(run, n).stage.OnIdle? {
        UpMeansOn(run, n);
      }
    }
  }

  /** While the system is off and nobody wants it on, everything is as it is without power: the mount's relay rests closed. */
  lemma {:induction false} RestsWhenOff(run: seq<Input>, n: nat)
    requires n < |run| && At(run, n).stage.OffIdle? && !run[n].requested
    ensures var p := At(run, n + 1);
            p.stage.OffIdle? && !p.relay && p.mount && !p.camera && p.heater0 == 0 && p.heater1 == 0
  {
  }

  /** When the stage last changed, in real time. */
  function Entered(run: seq<Input>, n: nat): nat
    requires n <= |run|
  {
    if n == 0 then 0
    else if At(run, n).stage != At(run, n - 1).stage then run[n - 1].tEnd
    else Entered(run, n - 1)
  }

  lemma {:induction false} EnteredIsLastChange(run: seq<Input>, n: nat)
    requires n <= |run|
    ensures At(run, n).lastChange == Millis(Entered(run, n))
  {
    if n > 0 {
      EnteredIsLastChange(run, n - 1);
    }
  }

  lemma {:induction false} EnteredBefore(run: seq<Input>, n: nat, m: nat)
    requires InTime(run) && n <= m < |run|
    ensures Entered(run, n) <= run[m].t
  {
    if n > 0 {
      EnteredBefore(run, n - 1, m);
    }
  }

  /** How long the stage has lasted when pass n begins, which is exact for 2^32 ms. */
  lemma Lasted(run: seq<Input>, n: nat)
    requires InTime(run) && n < |run| && run[n].t - Entered(run, n) < WRAP
    ensures Since(Millis(run[n].t), At(run, n).lastChange) == run[n].t - Entered(run, n)
  {
    EnteredIsLastChange(run, n);
    EnteredBefore(run, n, n);
    ExactSince(run[n].t, Entered(run, n));
    hide Since, At, Entered;
  }

  /**
   A system that is wanted comes up, stage by stage: each is left by the first pass that finds it old enough. First
   everything behind the relay is off for 200 ms, then the relay rises, the battery is found good after 100 ms or bad
   after 3 s, and a second later camera and mount are on.
   */
  lemma ComesUp(run: seq<Input>, n: nat)
    requires InTime(run) && n < |run| && run[n].requested && run[n].t - Entered(run, n) < WRAP
    ensures var s, z, age := At(run, n).stage, At(run, n + 1), run[n].t - Entered(run, n);
            && (s.OffIdle? ==> z.stage.OffPrepareActivation?)
            && (s.OffPrepareActivation? ==> AllOff(z) && (z.stage.OnSubsOff? <==> age > 200))
            && (s.OnSubsOff? ==> z.relay && (z.stage.OnSubsActivation? <==> age > 100 && run[n].voltage >= -1.0)
                                 && (z.stage.OffIdle? <==> age > 3000 && run[n].voltage < -1.0))
            && (s.OnSubsActivation? ==> z.camera && (age >= 500 ==> z.mount) && (z.stage.OnIdle? <==> age >= 1000))
            && (s.OnIdle? ==> z.stage.OnIdle?)
            && (s.OnWait4PcShutdown? ==> z.stage.OnSubsActivation?)
  {
    Lasted(run, n);
    hide Since;
  }

  /** A system that is no longer wanted goes down: the mount first, then the relay, when the PC is off or an hour has passed. */
  lemma GoesDown(run: seq<Input>, n: nat)
    requires InTime(run) && n < |run| && !run[n].requested && run[n].t - Entered(run, n) < WRAP
    ensures var s, z, age := At(run, n).stage, At(run, n + 1), run[n].t - Entered(run, n);
            && (s.OnIdle? ==> z.stage.OnPreparePowerDown?)
            && (s.OnPreparePowerDown? ==> !z.mount && (z.stage.OnWait4PcShutdown? <==> age > 200))
            && (s.OnWait4PcShutdown? ==> (z.stage.OffIdle? <==> run[n].current < 0.2 || age > 3600000))
            && (s.OffIdle? ==> !z.relay)
  {
    Lasted(run, n);
    hide Since;
  }
}
