/** Power management of components/sys/power_mgmt.c, with the periodic events of system_loop.c. */
module Power {

  /** In milliseconds. */
  const SAVE_TIMEOUT := 300_000

  datatype PowerState = Unknown | NormalBoot | Standby | Active | Save | DeepSleep | Waken

  datatype Mode = Performance | Normal | LowEnergy

  /** The save timer: absent, or due at some time. */
  datatype Timer = NoTimer | Armed(deadline: nat)

  datatype Ctx = Ctx(state: PowerState, mode: Mode, nextMode: Mode, ble: bool,
                     timer: Timer, noSleep: bool, active: bool)

  // ----- the operations as functions -----

  function ArmTimer(c: Ctx, now: nat): Ctx
  {
    c.(timer := Armed(now + SAVE_TIMEOUT))
  }

  function ResetTimer(c: Ctx, now: nat): Ctx
  {
    if c.timer.Armed? then c.(timer := Armed(now + SAVE_TIMEOUT)) else c
  }

  function EnterStandby(c: Ctx, now: nat): Ctx
  {
    var d := c.(ble := if c.mode == LowEnergy then false else true, state := Standby);
    if c.mode != Performance then ArmTimer(d, now) else d.(timer := NoTimer)
  }

  function EnterActive(c: Ctx): Ctx
  {
    c.(ble := false, state := Active)
  }

  function SwitchMode(c: Ctx, now: nat): Ctx
  {
    if c.nextMode == c.mode then c
    else match c.nextMode
      case Performance => c.(mode := Performance, timer := NoTimer)
      case Normal => ArmTimer(c.(mode := Normal), now)
      case LowEnergy => ArmTimer(c.(mode := LowEnergy, ble := false), now)
  }

  /** While this holds the device is meant to stay awake. */
  predicate Busy(c: Ctx)
  {
    c.state == Active || (c.state == Standby && c.noSleep)
  }

  function OnPowerEvent(c: Ctx, now: nat): Ctx
  {
    var d := SwitchMode(c, now);
    if Busy(d) then ResetTimer(d, now) else d
  }

  function OnModeChange(c: Ctx, now: nat): Ctx
  {
    if c.active then EnterActive(c).(noSleep := true) else EnterStandby(c, now).(noSleep := false)
  }

  // ----- the module's variables and handlers -----

  datatype EventId = PowerMgmtEvent | ModeChangeEvent | OtaEvent | OtherEvent

  datatype BootOutcome = Running | SleepsAgain | Restarts

  class Manager {
    var state: PowerState
    var mode: Mode
    var nextMode: Mode
    var bleEnabled: bool
    var timer: Timer
    var noSleep: bool
    var initialized: bool
    var active: bool

    ghost function Abs(): Ctx
      reads this
    {
      Ctx(state, mode, nextMode, bleEnabled, timer, noSleep, active)
    }

    constructor ()
      ensures !initialized && !noSleep && !active
    {
      state, mode, nextMode := NormalBoot, Normal, Normal;
      bleEnabled, timer, noSleep, initialized, active := false, NoTimer, false, false, false;
    }

    /** power_mgmt_init, after a reset that kept only the variables in RTC memory. */
    method Init() returns (ok: bool)
      modifies this
      ensures ok == (!old(initialized) || old(state) == DeepSleep)
      ensures initialized && !bleEnabled && timer == NoTimer && !active
      ensures noSleep == old(noSleep)
      ensures state == if !ok then Unknown else if old(initialized) then Waken else NormalBoot
      ensures ok ==> nextMode == mode && mode == if old(initialized) then old(mode) else Normal
      ensures !ok ==> mode == old(mode) && nextMode == old(nextMode)
    {
      timer := NoTimer;
      active := false;
      bleEnabled := false;
      if initialized {
        if state == DeepSleep {
          state := Waken;
          nextMode := mode;
          return true;
        } else {
          state := Unknown;
          return false;
        }
      }
      initialized := true;
      state := NormalBoot;
      mode := Normal;
      nextMode := mode;
      ok := true;
    }

    method ArmPowerSaveTimer(now: nat)
      modifies this`timer
      ensures Abs() == ArmTimer(old(Abs()), now)
    {
      if timer == NoTimer {
        timer := Armed(now + SAVE_TIMEOUT);
      } else {
        timer := Armed(now + SAVE_TIMEOUT);
      }
    }

    method DisarmPowerSaveTimer()
      modifies this`timer
      ensures Abs() == old(Abs()).(timer := NoTimer)
    {
      if timer != NoTimer {
        timer := NoTimer;
      }
    }

    method ResetPowerSaveTimer(now: nat)
      modifies this`timer
      ensures Abs() == ResetTimer(old(Abs()), now)
    {
      if timer != NoTimer {
        timer := Armed(now + SAVE_TIMEOUT);
      }
    }

    method OnEnterStandby(now: nat)
      modifies this
      ensures Abs() == EnterStandby(old(Abs()), now) && initialized == old(initialized)
    {
      if !bleEnabled && mode != LowEnergy {
        bleEnabled := true;
      } else if mode == LowEnergy {
        bleEnabled := false;
      }
      if mode != Performance {
        ArmPowerSaveTimer(now);
      } else {
        DisarmPowerSaveTimer();
      }
      state := Standby;
    }

    method OnEnterActive()
      modifies this
      ensures Abs() == EnterActive(old(Abs())) && initialized == old(initialized)
    {
      if bleEnabled {
        bleEnabled := false;
      }
      state := Active;
    }

    method HandleModeTransition(now: nat)
      modifies this
      ensures Abs() == SwitchMode(old(Abs()), now) && initialized == old(initialized)
    {
      if nextMode != mode {
        match nextMode {
          case Performance =>
            mode := Performance;
            DisarmPowerSaveTimer();
          case Normal =>
            mode := Normal;
            ArmPowerSaveTimer(now);
          case LowEnergy =>
            mode := LowEnergy;
            if bleEnabled {
              bleEnabled := false;
            }
            ArmPowerSaveTimer(now);
        }
      }
    }

    method Handler(id: EventId, now: nat)
      modifies this
      ensures initialized == old(initialized)
      ensures Abs() == match id
                       case PowerMgmtEvent => OnPowerEvent(old(Abs()), now)
                       case ModeChangeEvent => OnModeChange(old(Abs()), now)
                       case OtaEvent => old(Abs()).(noSleep := true)
                       case OtherEvent => old(Abs())
    {
      match id {
        case PowerMgmtEvent =>
          HandleModeTransition(now);
          match state {
            case Standby =>
              if noSleep {
                ResetPowerSaveTimer(now);
              }
            case Active =>
              ResetPowerSaveTimer(now);
            case _ =>
          }
        case ModeChangeEvent =>
          if active {
            OnEnterActive();
            noSleep := true;
          } else {
            OnEnterStandby(now);
            noSleep := false;
          }
        case OtaEvent =>
          noSleep := true;
        case OtherEvent =>
      }
    }

    /** The boot path of app_main; `button` tells a wake-up by the button from one by the timer. */
    method Boot(now: nat, button: bool) returns (outcome: BootOutcome)
      modifies this
      ensures outcome == if !old(initialized) then Running
                         else if old(state) != DeepSleep then Restarts
                         else if button then Running else SleepsAgain
      ensures outcome == Running ==>
                Abs() == Booted(if old(initialized) then old(mode) else Normal, old(noSleep), now)
      ensures outcome != Running ==>
                && state == (if outcome == SleepsAgain then DeepSleep else Unknown)
                && timer == NoTimer && !bleEnabled && noSleep == old(noSleep) && mode == old(mode)
    {
      var ok := Init();
      if state == Waken {
        if !button {
          state := DeepSleep;
          return SleepsAgain;
        }
      } else if state == Unknown {
        return Restarts;
      }
      OnEnterStandby(now);
      outcome := Running;
    }
  }

  /** After a boot. The sleep inhibition is whatever RTC memory still held. */
  function Booted(mode: Mode, noSleep: bool, now: nat): Ctx
  {
    EnterStandby(Ctx(NormalBoot, mode, mode, false, NoTimer, noSleep, false), now)
  }

  // ----- timed runs -----

  /** Events of the system loop and of the FreeRTOS tasks that touch the same variables. */
  datatype Event =
    | PowerTick(k: nat)           // the k-th event of the periodic timer
    | PowerExtra                  // a power event posted for another reason
    | ModeChange
    | Ota
    | SetActive(on: bool)         // sys_set_operation_mode
    | RequestMode(mode: Mode)     // a new power mode is asked for
    | SetNoSleep(on: bool)        // debug streaming, or a failed OTA
    | Touch                       // any HTTP request
    | Expire                      // the save timer fires
    | LongPress

  datatype Timed = Timed(time: nat, event: Event)

  function Apply(c: Ctx, e: Timed): Ctx
  {
    match e.event
    case PowerTick(_) => OnPowerEvent(c, e.time)
    case PowerExtra => OnPowerEvent(c, e.time)
    case ModeChange => OnModeChange(c, e.time)
    case Ota => c.(noSleep := true)
    case SetActive(on) => c.(active := on)
    case RequestMode(mode) => c.(nextMode := mode)
    case SetNoSleep(on) => c.(noSleep := on)
    case Touch => ResetTimer(c, e.time)
    case Expire => c.(state := DeepSleep)
    case LongPress => c.(state := DeepSleep)
  }

  /** The timer fires only when it is due; nothing happens any more in deep sleep. */
  predicate CanHappen(c: Ctx, e: Timed)
  {
    && c.state != DeepSleep
    && (e.event.Expire? ==> c.timer.Armed? && c.timer.deadline <= e.time)
  }

  ghost predicate IsRun(c: Ctx, es: seq<Timed>)
    decreases |es|
  {
    es != [] ==> CanHappen(c, es[0]) && IsRun(Apply(c, es[0]), es[1..])
  }

  function Final(c: Ctx, es: seq<Timed>): Ctx
    decreases |es|
  {
    if es == [] then c else Final(Apply(c, es[0]), es[1..])
  }

  // ----- Bluetooth and the timer follow state and mode -----

  ghost predicate Consistent(c: Ctx)
  {
    && (c.ble ==> c.state == Standby && c.mode != LowEnergy)
    && (c.timer.Armed? <==> c.mode != Performance)
    && (c.state == Standby || c.state == Active)
  }

  lemma PowerEventConsistent(c: Ctx, now: nat)
    requires Consistent(c)
    ensures Consistent(OnPowerEvent(c, now))
  {
    assert Consistent(SwitchMode(c, now));
  }

  lemma ModeChangeConsistent(c: Ctx, now: nat)
    requires Consistent(c)
    ensures Consistent(OnModeChange(c, now))
  {
  }

  lemma StepConsistent(c: Ctx, e: Timed)
    requires Consistent(c) && Apply(c, e).state != DeepSleep
    ensures Consistent(Apply(c, e))
  {
    match e.event
    case PowerTick(_) => PowerEventConsistent(c, e.time);
    case PowerExtra => PowerEventConsistent(c, e.time);
    case ModeChange => ModeChangeConsistent(c, e.time);
    case _ =>
  }

  lemma {:induction false} RunConsistent(c: Ctx, es: seq<Timed>)
    requires Consistent(c) && IsRun(c, es)
    ensures Final(c, es).state != DeepSleep ==> Consistent(Final(c, es))
    decreases |es|
  {
    if es != [] {
      var d := Apply(c, es[0]);
      if d.state == DeepSleep {
        assert es[1..] == [];
      } else {
        StepConsistent(c, es[0]);
        RunConsistent(d, es[1..]);
      }
    }
  }

  /** After any boot and any events, outside deep sleep. */
  lemma BleAndTimerFollowMode(mode: Mode, noSleep: bool, now: nat, es: seq<Timed>)
    requires IsRun(Booted(mode, noSleep, now), es)
    ensures var c := Final(Booted(mode, noSleep, now), es);
            c.state != DeepSleep ==>
              && (c.ble ==> c.state == Standby && c.mode != LowEnergy)
              && (c.timer.Armed? <==> c.mode != Performance)
  {
    RunConsistent(Booted(mode, noSleep, now), es);
  }

  /** When the timer is due after it has been set at `now`. */
  ghost predicate DueIn300s(t: Timer, now: nat)
  {
    t == Armed(now + 300_000)
  }

  /** A device that has booted advertises exactly outside the low-energy mode, and is to sleep in 300 s if it may. */
  lemma BootedState(mode: Mode, noSleep: bool, now: nat)
    ensures var c := Booted(mode, noSleep, now);
            && c.state == Standby && c.mode == mode == c.nextMode && c.noSleep == noSleep && !c.active
            && (c.ble <==> mode != LowEnergy)
            && (if mode == Performance then c.timer == NoTimer else DueIn300s(c.timer, now))
  {
  }

  /** What a change between recording and standby leaves. */
  lemma ModeChangeState(c: Ctx, now: nat)
    ensures var d := OnModeChange(c, now);
            && d.mode == c.mode && d.nextMode == c.nextMode && d.active == c.active && d.noSleep == c.active
            && (c.active ==> d.state == Active && !d.ble && d.timer == c.timer)
            && (!c.active ==>
                  && d.state == Standby && (d.ble <==> c.mode != LowEnergy)
                  && (if c.mode == Performance then d.timer == NoTimer else DueIn300s(d.timer, now)))
  {
  }

  /**
  A power event puts the requested mode into force, with its timer and, in low energy, without BLE;
  a busy device, or one that changes its mode, gets 300 s more, and the timer of an idle one runs on.
  */
  lemma PowerEventState(c: Ctx, now: nat)
    ensures var d := OnPowerEvent(c, now);
            && d.mode == c.nextMode == d.nextMode
            && d.state == c.state && d.noSleep == c.noSleep && d.active == c.active
            && (d.ble <==> c.ble && !(c.mode != LowEnergy && c.nextMode == LowEnergy))
            && (c.mode != c.nextMode ==>
                  if c.nextMode == Performance then d.timer == NoTimer else DueIn300s(d.timer, now))
            && (c.mode == c.nextMode ==>
                  if c.timer.Armed? && (c.state == Active || (c.state == Standby && c.noSleep))
                  then DueIn300s(d.timer, now) else d.timer == c.timer)
  {
  }

  /** Events that leave an idle device alone. */
  predicate Idles(e: Event)
  {
    e.PowerTick? || e.PowerExtra? || e.SetActive?
  }

  ghost predicate AllIdle(es: seq<Timed>)
  {
    forall i :: 0 <= i < |es| ==> Idles(es[i].event)
  }

  lemma {:induction false} IdleKeeps(c: Ctx, es: seq<Timed>)
    requires c.state == Standby && !c.noSleep && c.nextMode == c.mode && AllIdle(es)
    ensures Final(c, es).timer == c.timer && Final(c, es).ble == c.ble && Final(c, es).state == Standby
    decreases |es|
  {
    if es != [] {
      assert Idles(es[0].event);
      assert forall i :: 0 <= i < |es[1..]| ==> es[1..][i] == es[i + 1];
      IdleKeeps(Apply(c, es[0]), es[1..]);
    }
  }

  /**
  A device that goes to standby and is left alone advertises exactly outside the low-energy mode, and
  can fall asleep from 300 s after that on and no sooner, however many power events it handles meanwhile.
  */
  lemma IdleDeviceSleeps(c: Ctx, now: nat, es: seq<Timed>, time: nat)
    requires !c.active && c.nextMode == c.mode && AllIdle(es)
    ensures var d := Final(OnModeChange(c, now), es);
            && (d.ble <==> c.mode != LowEnergy)
            && (CanHappen(d, Timed(time, Expire)) <==> c.mode != Performance && time >= now + 300_000)
  {
    ModeChangeState(c, now);
    IdleKeeps(OnModeChange(c, now), es);
  }

  // ----- a busy device never sleeps by itself -----

  /**
  After tick k, times do not decrease, tick k + 1 is the next one, tick j is handled
  at or after its due time of j * 20 s and before that time plus delay, and nothing happens at or
  after that bound while the tick is still to come.
  */
  ghost predicate OnSchedule(k: nat, last: nat, es: seq<Timed>, delay: nat)
    decreases |es|
  {
    es != [] ==>
      var e := es[0];
      && last <= e.time < (k + 1) * 20_000 + delay
      && (e.event.PowerTick? ==> e.event.k == k + 1 && (k + 1) * 20_000 <= e.time)
      && OnSchedule(if e.event.PowerTick? then k + 1 else k, e.time, es[1..], delay)
  }

  /** The device stays busy throughout, except that the run may end with deep sleep. */
  ghost predicate BusyThroughout(c: Ctx, es: seq<Timed>)
    decreases |es|
  {
    && Busy(c)
    && (es != [] && !es[0].event.Expire? && !es[0].event.LongPress? ==> BusyThroughout(Apply(c, es[0]), es[1..]))
  }

  ghost predicate NoExpiry(es: seq<Timed>)
  {
    forall i :: 0 <= i < |es| ==> !es[i].event.Expire?
  }

  ghost predicate NotDueBefore(c: Ctx, bound: nat)
  {
    c.timer.Armed? ==> c.timer.deadline >= bound
  }

  lemma {:induction false} NoExpiryAfterTick(c: Ctx, k: nat, last: nat, es: seq<Timed>)
    requires IsRun(c, es) && BusyThroughout(c, es)
    requires OnSchedule(k, last, es, 280_000)
    requires k * 20_000 <= last && NotDueBefore(c, k * 20_000 + 300_000)
    ensures NoExpiry(es)
    decreases |es|
  {
    if es != [] {
      var e := es[0];
      assert !e.event.Expire?;
      var d := Apply(c, e);
      if e.event.LongPress? {
        assert es[1..] == [];
      } else {
        NoExpiryAfterTick(d, if e.event.PowerTick? then k + 1 else k, e.time, es[1..]);
      }
      assert forall i :: 0 < i < |es| ==> es[i] == es[1..][i - 1];
    }
  }

  /**
  Once tick k has been handled on a busy device, the save timer does not expire while
  the device stays busy, if each tick is handled less than 280 s after it is due.
  */
  lemma BusyDeviceStaysAwake(c: Ctx, k: nat, time: nat, es: seq<Timed>)
    requires Busy(c) && k * 20_000 <= time
    requires var d := Apply(c, Timed(time, PowerTick(k)));
             IsRun(d, es) && BusyThroughout(d, es) && OnSchedule(k, time, es, 280_000)
    ensures NoExpiry(es)
  {
    NoExpiryAfterTick(Apply(c, Timed(time, PowerTick(k))), k, time, es);
  }

  /** The bound is exact: one millisecond more and the timer can win. */
  lemma BoundIsExact(c: Ctx)
    requires c.state == Active && c.mode != Performance && c.nextMode == c.mode && c.timer.Armed?
    ensures var d := Apply(c, Timed(0, PowerTick(0)));
            var es := [Timed(300_000, Expire)];
            && IsRun(d, es) && BusyThroughout(d, es)
            && OnSchedule(0, 0, es, 280_001) && !NoExpiry(es)
  {
  }

  // ----- what deep sleep does not reset -----

  /** A device that has just booted is busy exactly when RTC memory still holds the sleep inhibition. */
  lemma BootsBusyIff(mode: Mode, noSleep: bool, now: nat)
    ensures Busy(Booted(mode, noSleep, now)) <==> noSleep
  {
  }

  /** The events that can end the sleep inhibition in standby: a mode change, or switching it off. */
  predicate MayRelease(e: Event)
  {
    e.ModeChange? || e == SetNoSleep(false)
  }

  predicate Sleeps(e: Event)
  {
    e.Expire? || e.LongPress?
  }

  /** What ends being busy in standby, event by event. */
  lemma StandbyReleasedIff(c: Ctx, e: Timed)
    requires c.state == Standby && c.noSleep
    ensures !Busy(Apply(c, e)) <==>
            Sleeps(e.event) || e.event == SetNoSleep(false) || (e.event.ModeChange? && !c.active)
  {
  }

  ghost predicate NotReleased(es: seq<Timed>)
  {
    forall i :: 0 <= i < |es| ==> !MayRelease(es[i].event)
  }

  ghost predicate NoSleepEvent(es: seq<Timed>)
  {
    forall i :: 0 <= i < |es| ==> !Sleeps(es[i].event)
  }

  lemma {:induction false} StandbyStaysBusy(c: Ctx, es: seq<Timed>)
    requires c.state == Standby && c.noSleep && NotReleased(es) && IsRun(c, es)
    ensures BusyThroughout(c, es)
    ensures NoSleepEvent(es) ==> Busy(Final(c, es))
    decreases |es|
  {
    if es != [] {
      var e := es[0];
      assert !MayRelease(e.event);
      StandbyReleasedIff(c, e);
      assert forall i :: 0 <= i < |es[1..]| ==> es[1..][i] == es[i + 1];
      if Sleeps(e.event) {
        assert es[1..] == [];
      } else {
        StandbyStaysBusy(Apply(c, e), es[1..]);
      }
    }
  }

  /**
  A device that boots with the sleep inhibition set stays busy, and its save timer does
  not expire, in every run on schedule without a mode change and without switching the
  inhibition off, however long it lasts.
  */
  lemma BootedBusyStaysAwake(mode: Mode, now: nat, k: nat, es: seq<Timed>)
    requires IsRun(Booted(mode, true, now), es) && NotReleased(es)
    requires k * 20_000 <= now && OnSchedule(k, now, es, 280_000)
    ensures BusyThroughout(Booted(mode, true, now), es) && NoExpiry(es)
    ensures NoSleepEvent(es) ==> Busy(Final(Booted(mode, true, now), es))
  {
    StandbyStaysBusy(Booted(mode, true, now), es);
    NoExpiryAfterTick(Booted(mode, true, now), k, now, es);
  }

  /** Entering ACTIVE sets the inhibition, and only switching it off clears it there. */
  ghost predicate ActiveInhibits(c: Ctx)
  {
    c.state == Active ==> c.noSleep
  }

  ghost predicate NeverSwitchedOff(es: seq<Timed>)
  {
    forall i :: 0 <= i < |es| ==> es[i].event != SetNoSleep(false)
  }

  lemma {:induction false} RunInhibits(c: Ctx, es: seq<Timed>)
    requires ActiveInhibits(c) && NeverSwitchedOff(es)
    ensures ActiveInhibits(Final(c, es))
    decreases |es|
  {
    if es != [] {
      assert es[0].event != SetNoSleep(false);
      assert forall i :: 0 <= i < |es[1..]| ==> es[1..][i] == es[i + 1];
      RunInhibits(Apply(c, es[0]), es[1..]);
    }
  }

  /** After any boot and any such run, going to deep sleep from ACTIVE makes the next boot busy. */
  lemma WakesBusyAfterActive(mode: Mode, noSleep: bool, now: nat, es: seq<Timed>, last: Timed, later: nat)
    requires NeverSwitchedOff(es) && Sleeps(last.event)
    requires Final(Booted(mode, noSleep, now), es).state == Active
    ensures var asleep := Apply(Final(Booted(mode, noSleep, now), es), last);
            asleep.state == DeepSleep && Busy(Booted(asleep.mode, asleep.noSleep, later))
  {
    RunInhibits(Booted(mode, noSleep, now), es);
  }

  /** Going to deep sleep from STANDBY does so exactly when the inhibition is still set there. */
  lemma WakesBusyAfterStandbyIff(c: Ctx, last: Timed, later: nat)
    requires c.state == Standby && Sleeps(last.event)
    ensures Busy(Booted(Apply(c, last).mode, Apply(c, last).noSleep, later)) <==> Busy(c)
  {
  }
}
