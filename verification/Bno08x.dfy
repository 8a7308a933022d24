/**
The hint interrupt of lib/bno08x/bno08x_driver.c. Its service routine, the SPI task
and one user thread share the interrupt enable, the report bits, the task
notification and the event bits; every access is a step of its own.
*/
module Bno08x {

  type Report = nat

  /** The service routine: masking the interrupt and notifying are two steps. */
  datatype Isr = Resting | Masked

  datatype Spi = Top | Unmasking | Waiting | Serving

  /** What a wait of the user thread belongs to. */
  datatype Goal =
    | EnableTx(r: Report)
    | DisableTx(r: Report)
    | SoftResetTx
    | HardResetRx(left: nat)
    | Flush(left: nat)
    | OnlyTx
    | OnlyRx
    | OnlyData

  datatype User =
    | Idle
    | WaitTop(goal: Goal)          // about to look at the report bits
    | WaitUnmask(goal: Goal)       // saw none: about to enable the interrupt
    | WaitBits(goal: Goal)         // blocked on an event bit, with a timeout
    | SetBit(r: Report)
    | TestAlone(r: Report, first: bool)      // `first`: no report was on before; the code does not look at it
    | UnmaskFirst(r: Report, first: bool)
    | ClearBit(r: Report)
    | TestNone
    | MaskLast
    | ClearAll(soft: bool)

  /** Packets to send are numbered from 0 as they are made; `queue` has room for one. */
  datatype State = State(reports: set<Report>, unmasked: bool, notified: nat,
                         isr: Isr, spi: Spi, user: User,
                         made: nat, queue: seq<nat>, sent: seq<nat>,
                         txDone: bool, rxDone: bool, parsed: bool)

  datatype Step =
    | HintFires | HintNotifies
    | SpiLooks | SpiUnmasks | SpiTakes | SpiServes(length: nat)
    | CallEnable(r: Report) | CallDisable(r: Report) | CallReset(soft: bool) | CallWait(goal: Goal)
    | UserMoves | WaitSucceeds | WaitTimesOut
    | PacketParsed

  /** The event bit a wait is for. */
  predicate WaitsForTx(g: Goal)
  {
    g.EnableTx? || g.DisableTx? || g.SoftResetTx? || g.OnlyTx?
  }

  predicate Enabled(s: State, step: Step)
  {
    match step
    case HintFires => s.isr.Resting? && s.unmasked
    case HintNotifies => s.isr.Masked?
    case SpiLooks => s.spi.Top?
    case SpiUnmasks => s.spi.Unmasking?
    case SpiTakes => s.spi.Waiting? && s.notified > 0
    case SpiServes(_) => s.spi.Serving?
    case CallEnable(_) => s.user.Idle?
    case CallDisable(_) => s.user.Idle?
    case CallReset(_) => s.user.Idle?
    case CallWait(goal) => s.user.Idle? && (goal.OnlyTx? || goal.OnlyRx? || goal.OnlyData?)
    case UserMoves => !s.user.Idle? && !s.user.WaitBits?
    case WaitSucceeds => s.user.WaitBits? && (if WaitsForTx(s.user.goal) then s.txDone else s.rxDone)
    case WaitTimesOut => s.user.WaitBits?
    case PacketParsed => true
  }

  /** Where the thread goes after a wait. */
  function AfterWait(g: Goal, success: bool): User
  {
    match g
    case EnableTx(r) => if success then SetBit(r) else WaitTop(Flush(3))
    case DisableTx(r) => if success then ClearBit(r) else Idle
    case SoftResetTx => WaitTop(Flush(3))
    case HardResetRx(left) => if success && left > 1 then WaitTop(HardResetRx(left - 1)) else Idle
    case Flush(left) => if left > 1 then WaitTop(Flush(left - 1)) else Idle
    case _ => Idle
  }

  /** A packet that finds the queue full is lost: the code does not wait for room. */
  function QueuePacket(s: State): State
  {
    s.(made := s.made + 1, queue := if s.queue == [] then [s.made] else s.queue)
  }

  function MoveUser(s: State): State
  {
    match s.user
    case WaitTop(g) => s.(user := if s.reports == {} then WaitUnmask(g) else WaitBits(g))
    case WaitUnmask(g) => s.(unmasked := true, user := WaitBits(g))
    case SetBit(r) => s.(reports := s.reports + {r}, user := TestAlone(r, s.reports == {}))
    case TestAlone(r, first) =>
      s.(user := if s.reports - {r} == {} then UnmaskFirst(r, first) else WaitTop(Flush(3)))
    case UnmaskFirst(_, _) => s.(unmasked := true, user := WaitTop(Flush(3)))
    case ClearBit(r) => s.(reports := s.reports - {r}, user := TestNone)
    case TestNone => s.(user := if s.reports == {} then MaskLast else Idle)
    case MaskLast => s.(unmasked := false, user := Idle)
    case ClearAll(soft) =>
      (if soft then QueuePacket(s) else s).(
         reports := {}, user := WaitTop(if soft then SoftResetTx else HardResetRx(2)))
    case Idle => s
    case WaitBits(_) => s
  }

  function Apply(s: State, step: Step): State
  {
    match step
    case HintFires => s.(unmasked := false, isr := Masked)
    case HintNotifies => s.(notified := s.notified + 1, isr := Resting)
    case SpiLooks => s.(spi := if s.reports != {} then Unmasking else Waiting)
    case SpiUnmasks => s.(unmasked := true, spi := Waiting)
    case SpiTakes => s.(notified := 0, spi := Serving)
    case SpiServes(length) =>
      if s.queue != [] then
        s.(queue := s.queue[1..], sent := s.sent + [s.queue[0]], txDone := true, spi := Top)
      else s.(rxDone := s.rxDone || length != 0, spi := Top)
    case CallEnable(r) => QueuePacket(s).(user := WaitTop(EnableTx(r)))
    case CallDisable(r) => QueuePacket(s).(user := WaitTop(DisableTx(r)))
    case CallReset(soft) => s.(user := ClearAll(soft))
    case CallWait(goal) => (if goal.OnlyTx? then QueuePacket(s) else s).(user := WaitTop(goal))
    case UserMoves => MoveUser(s)
    case WaitSucceeds => EndWait(if WaitsForTx(Waited(s)) then s.(txDone := false) else s.(rxDone := false), true)
    case WaitTimesOut => EndWait(s, s.txDone || s.rxDone || s.parsed)
    case PacketParsed => s.(parsed := true)
  }

  /** The goal of the wait in progress. */
  function Waited(s: State): Goal
  {
    if s.user.WaitBits? then s.user.goal else OnlyRx
  }

  /**
  A wait that times out returns the event bits as they are, and any bit counts as
  success; wait_for_data clears the packet bits when it returns.
  */
  function EndWait(s: State, success: bool): State
  {
    s.(user := AfterWait(Waited(s), success), parsed := s.parsed && !Waited(s).OnlyData?)
  }

  /** The interrupt starts disabled, with no reports, and the SPI task at the top of its loop. */
  ghost predicate Init(s: State)
  {
    && s.reports == {} && !s.unmasked && s.notified == 0 && s.isr.Resting? && s.spi.Top? && s.user.Idle?
    && s.made == 0 && s.queue == [] && s.sent == [] && !s.txDone && !s.rxDone
  }

  ghost predicate IsRun(s: State, steps: seq<Step>)
    decreases |steps|
  {
    steps != [] ==> Enabled(s, steps[0]) && IsRun(Apply(s, steps[0]), steps[1..])
  }

  function Final(s: State, steps: seq<Step>): State
    decreases |steps|
  {
    if steps == [] then s else Final(Apply(s, steps[0]), steps[1..])
  }

  // ----- the interrupt is never lost -----

  /** The thread has set the first bit of an empty set and not yet enabled the interrupt for it. */
  predicate FirstReportPending(s: State)
  {
    (s.user.TestAlone? || s.user.UnmaskFirst?) && s.user.first && s.reports == {s.user.r}
  }

  /** The SPI task is blocked with nothing on the way to wake it. */
  predicate Blocked(s: State)
  {
    s.spi.Waiting? && s.notified == 0 && s.isr.Resting?
  }

  ghost predicate Inv(s: State)
  {
    && (s.user.MaskLast? ==> s.reports == {})
    && (s.reports != {} && Blocked(s) && !FirstReportPending(s) ==> s.unmasked)
  }

  lemma MoveInv(s: State)
    requires Inv(s) && Enabled(s, UserMoves)
    ensures Inv(MoveUser(s))
  {
    match s.user
    case SetBit(r) =>
    case TestAlone(_, _) =>
    case ClearBit(r) =>
    case _ =>
  }

  lemma StepInv(s: State, step: Step)
    requires Inv(s) && Enabled(s, step)
    ensures Inv(Apply(s, step))
  {
    if step.UserMoves? {
      MoveInv(s);
    }
  }

  lemma {:induction false} RunInv(s: State, steps: seq<Step>)
    requires Inv(s) && IsRun(s, steps)
    ensures Inv(Final(s, steps))
    decreases |steps|
  {
    if steps != [] {
      StepInv(s, steps[0]);
      RunInv(Apply(s, steps[0]), steps[1..]);
    }
  }

  /**
  In every interleaving: while a report is enabled, the SPI task cannot be blocked with
  the interrupt off, except inside a call that enables a report when none was on.
  */
  lemma ReportingNeverStalls(s: State, steps: seq<Step>)
    requires Init(s) && IsRun(s, steps)
    ensures var t := Final(s, steps);
            t.reports != {} && Blocked(t) && !FirstReportPending(t) ==> t.unmasked
  {
    RunInv(s, steps);
  }

  // ----- and reporting resumes without help from the user thread -----

  /** Steps of the service routine and the SPI task that need no new hint. */
  predicate Internal(step: Step)
  {
    step.HintNotifies? || step.SpiLooks? || step.SpiUnmasks? || step.SpiTakes? || step.SpiServes?
  }

  function Work(s: State): nat
  {
    (match s.spi case Serving => 3 case Top => 2 case Unmasking => 1 case Waiting => 0)
    + (if s.notified > 0 then 4 else 0)
    + (if s.isr.Masked? then 5 else 0)
  }

  ghost predicate AllInternal(steps: seq<Step>)
  {
    forall i :: 0 <= i < |steps| ==> Internal(steps[i])
  }

  lemma InternalStepEnds(s: State, step: Step)
    requires Internal(step) && Enabled(s, step)
    ensures Work(Apply(s, step)) < Work(s)
    ensures Apply(s, step).reports == s.reports && Apply(s, step).user == s.user
  {
  }

  lemma {:induction false} InternalRunsEnd(s: State, steps: seq<Step>)
    requires IsRun(s, steps) && AllInternal(steps)
    ensures |steps| + Work(Final(s, steps)) <= Work(s)
    ensures Final(s, steps).reports == s.reports && Final(s, steps).user == s.user
    decreases |steps|
  {
    if steps != [] {
      InternalStepEnds(s, steps[0]);
      InternalRunsEnd(Apply(s, steps[0]), steps[1..]);
    }
  }

  /**
  From every reachable state with a report enabled, at most twelve steps of the
  service routine and the SPI task are possible before the next hint; when none is
  left the SPI task is blocked with the interrupt on.
  */
  lemma ReportingResumes(s: State, steps: seq<Step>, more: seq<Step>)
    requires Init(s) && IsRun(s, steps)
    requires Final(s, steps).reports != {} && !FirstReportPending(Final(s, steps))
    requires IsRun(Final(s, steps), more) && AllInternal(more)
    ensures |more| <= 12
    ensures var t := Final(Final(s, steps), more);
            (forall step :: Internal(step) ==> !Enabled(t, step)) ==> Blocked(t) && t.unmasked
  {
    RunInv(s, steps);
    var mid := Final(s, steps);
    InternalRunsEnd(mid, more);
    RunInv(mid, more);
    var t := Final(mid, more);
    if forall step :: Internal(step) ==> !Enabled(t, step) {
      assert Internal(HintNotifies) && Internal(SpiLooks) && Internal(SpiUnmasks);
      assert Internal(SpiTakes) && Internal(SpiServes(0));
      assert Blocked(t);
    }
  }

  // ----- the interrupt is off when it should be -----

  predicate UserEnables(s: State, step: Step)
  {
    step.UserMoves? && (s.user.WaitUnmask? || s.user.UnmaskFirst?)
  }

  /** How often the steps switch the interrupt on. */
  function Enables(s: State, steps: seq<Step>): nat
    decreases |steps|
  {
    if steps == [] then 0
    else (if steps[0].SpiUnmasks? || UserEnables(s, steps[0]) then 1 else 0) + Enables(Apply(s, steps[0]), steps[1..])
  }

  function Hints(steps: seq<Step>): nat
  {
    if steps == [] then 0 else (if steps[0].HintFires? then 1 else 0) + Hints(steps[1..])
  }

  lemma StepNeedsEnable(s: State, step: Step)
    requires Enabled(s, step)
    ensures step.HintFires? ==> s.unmasked && !Apply(s, step).unmasked
    ensures Apply(s, step).unmasked ==> s.unmasked || step.SpiUnmasks? || UserEnables(s, step)
  {
  }

  lemma {:induction false} HintsNeedEnables(s: State, steps: seq<Step>)
    requires IsRun(s, steps)
    ensures Hints(steps) + (if Final(s, steps).unmasked then 1 else 0)
            <= Enables(s, steps) + (if s.unmasked then 1 else 0)
    decreases |steps|
  {
    if steps != [] {
      StepNeedsEnable(s, steps[0]);
      HintsNeedEnables(Apply(s, steps[0]), steps[1..]);
    }
  }

  /** Every hint that is served was preceded by an enable of its own. */
  lemma HintsAreEnabled(s: State, steps: seq<Step>)
    requires Init(s) && IsRun(s, steps)
    ensures Hints(steps) <= Enables(s, steps)
  {
    HintsNeedEnables(s, steps);
  }

  /** After a hint there is no other, and the interrupt stays off, until something switches it on. */
  lemma OneHintPerEnable(s: State, steps: seq<Step>)
    requires Enabled(s, HintFires) && IsRun(Apply(s, HintFires), steps)
    requires Enables(Apply(s, HintFires), steps) == 0
    ensures Hints(steps) == 0 && !Final(Apply(s, HintFires), steps).unmasked
    ensures !Enabled(Final(Apply(s, HintFires), steps), HintFires)
  {
    HintsNeedEnables(Apply(s, HintFires), steps);
  }

  /** None of the steps is an enable of the user thread or the end of an SPI transaction. */
  ghost predicate Undisturbed(s: State, steps: seq<Step>)
    decreases |steps|
  {
    steps != [] ==>
      !UserEnables(s, steps[0]) && !steps[0].SpiServes? && Undisturbed(Apply(s, steps[0]), steps[1..])
  }

  lemma StepStaysOff(s: State, step: Step)
    requires !s.unmasked && (s.spi.Waiting? || s.spi.Serving?) && Enabled(s, step)
    requires !UserEnables(s, step) && !step.SpiServes?
    ensures var t := Apply(s, step); !t.unmasked && (t.spi.Waiting? || t.spi.Serving?)
  {
  }

  lemma {:induction false} OffWhileServing(s: State, steps: seq<Step>)
    requires !s.unmasked && (s.spi.Waiting? || s.spi.Serving?) && IsRun(s, steps) && Undisturbed(s, steps)
    ensures !Final(s, steps).unmasked
    decreases |steps|
  {
    if steps != [] {
      StepStaysOff(s, steps[0]);
      OffWhileServing(Apply(s, steps[0]), steps[1..]);
    }
  }

  /**
  A hint that reaches the SPI task while that is blocked keeps the interrupt off until the transaction
  it asked for is over, unless the user thread switches it on for a wait or a first report.
  */
  lemma MaskedUntilServed(s: State, steps: seq<Step>)
    requires s.spi.Waiting? && Enabled(s, HintFires) && IsRun(Apply(s, HintFires), steps)
    requires Undisturbed(Apply(s, HintFires), steps)
    ensures !Final(Apply(s, HintFires), steps).unmasked
  {
    OffWhileServing(Apply(s, HintFires), steps);
  }

  predicate IsCall(step: Step)
  {
    step.CallEnable? || step.CallDisable? || step.CallReset? || step.CallWait?
  }

  ghost predicate NoCalls(steps: seq<Step>)
  {
    forall i :: 0 <= i < |steps| ==> !IsCall(steps[i])
  }

  lemma {:induction false} IdleStaysOff(s: State, steps: seq<Step>)
    requires !s.unmasked && s.reports == {} && !s.spi.Unmasking? && s.user.Idle?
    requires IsRun(s, steps) && NoCalls(steps)
    ensures !Final(s, steps).unmasked && Hints(steps) == 0
    decreases |steps|
  {
    if steps != [] {
      assert !IsCall(steps[0]);
      IdleStaysOff(Apply(s, steps[0]), steps[1..]);
    }
  }

  /**
  Disabling the last report leaves the interrupt off until the next call, except when the SPI task
  has looked at the report bits before they were cleared and switches it on again.
  */
  lemma OffAfterLastReportIff(s: State, steps: seq<Step>)
    requires Init(s) && IsRun(s, steps) && Final(s, steps).user.MaskLast?
    ensures var t := Apply(Final(s, steps), UserMoves);
            && !t.unmasked && t.reports == {} && t.user.Idle?
            && (Final(s, steps).spi.Unmasking?
                <==> exists more: seq<Step> :: IsRun(t, more) && NoCalls(more) && Final(t, more).unmasked)
  {
    RunInv(s, steps);
    var mid := Final(s, steps);
    var t := Apply(mid, UserMoves);
    if mid.spi.Unmasking? {
      var more := [SpiUnmasks];
      assert more[1..] == [] && IsRun(Apply(t, SpiUnmasks), []);
      assert IsRun(t, more) && NoCalls(more) && Final(t, more).unmasked;
    }
    forall more: seq<Step> | !mid.spi.Unmasking? && IsRun(t, more) && NoCalls(more)
      ensures !Final(t, more).unmasked
    {
      IdleStaysOff(t, more);
    }
  }

  /** Behind the clearing of the last report bit: about to switch the interrupt off, or done with it. */
  predicate Masking(s: State)
  {
    && s.reports == {} && !s.spi.Unmasking?
    && (s.user.TestNone? || s.user.MaskLast? || (s.user.Idle? && !s.unmasked))
  }

  lemma StepMasking(s: State, step: Step)
    requires Masking(s) && Enabled(s, step) && !IsCall(step)
    ensures Masking(Apply(s, step))
  {
  }

  /**
  A disabling call that leaves no report on returns with the interrupt off, if the SPI task was not
  about to switch it on when the report bits became empty.
  */
  lemma {:induction false} LastDisableMasks(s: State, steps: seq<Step>)
    requires Masking(s) && IsRun(s, steps) && NoCalls(steps)
    ensures Masking(Final(s, steps))
    ensures Final(s, steps).user.Idle? ==> !Final(s, steps).unmasked
    decreases |steps|
  {
    if steps != [] {
      assert !IsCall(steps[0]);
      StepMasking(s, steps[0]);
      LastDisableMasks(Apply(s, steps[0]), steps[1..]);
    }
  }

  /** The thread enables the interrupt for a wait with no report on, or for the only report. */
  ghost predicate EnableInv(s: State)
  {
    && (s.user.WaitUnmask? ==> s.reports == {})
    && (s.user.UnmaskFirst? ==> s.reports == {s.user.r})
    && (s.user.TestAlone? ==> s.user.r in s.reports)
  }

  lemma MoveEnableInv(s: State)
    requires EnableInv(s) && Enabled(s, UserMoves)
    ensures EnableInv(MoveUser(s))
  {
    match s.user
    case TestAlone(r, _) => assert s.reports - {r} == {} ==> s.reports == {r};
    case _ =>
  }

  lemma StepEnableInv(s: State, step: Step)
    requires EnableInv(s) && Enabled(s, step)
    ensures EnableInv(Apply(s, step))
  {
    if step.UserMoves? {
      MoveEnableInv(s);
    }
  }

  lemma {:induction false} RunEnableInv(s: State, steps: seq<Step>)
    requires EnableInv(s) && IsRun(s, steps)
    ensures EnableInv(Final(s, steps))
    decreases |steps|
  {
    if steps != [] {
      StepEnableInv(s, steps[0]);
      RunEnableInv(Apply(s, steps[0]), steps[1..]);
    }
  }

  /** In every run the thread leaves the interrupt to the SPI task while another report is on. */
  lemma EnablesOnlyAlone(s: State, steps: seq<Step>)
    requires Init(s) && IsRun(s, steps) && UserEnables(Final(s, steps), UserMoves)
    ensures var t := Final(s, steps);
            if t.user.WaitUnmask? then t.reports == {} else t.reports == {t.user.r}
  {
    RunEnableInv(s, steps);
  }

  predicate InWait(u: User)
  {
    u.WaitTop? || u.WaitUnmask? || u.WaitBits?
  }

  lemma StepStaysOn(s: State, step: Step)
    requires s.unmasked && Enabled(s, step) && !step.HintFires? && !s.user.MaskLast?
    ensures Apply(s, step).unmasked
  {
  }

  lemma {:induction false} WaitStaysOn(s: State, steps: seq<Step>, g: Goal)
    requires s.unmasked && s.user == WaitBits(g) && IsRun(s, steps) && Hints(steps) == 0
    requires Waits(steps) == 0
    ensures Final(s, steps).unmasked && Final(s, steps).user == WaitBits(g)
    decreases |steps|
  {
    if steps != [] {
      StepStaysOn(s, steps[0]);
      WaitStaysOn(Apply(s, steps[0]), steps[1..], g);
    }
  }

  /** A wait that found no report on listens: the interrupt is on until a hint fires or the wait ends. */
  lemma WaitListens(s: State, steps: seq<Step>)
    requires s.user.WaitTop? && s.reports == {}
    requires var t := Apply(Apply(s, UserMoves), UserMoves); IsRun(t, steps) && Hints(steps) == 0 && Waits(steps) == 0
    ensures Enabled(s, UserMoves) && Enabled(Apply(s, UserMoves), UserMoves)
    ensures Final(Apply(Apply(s, UserMoves), UserMoves), steps).unmasked
  {
    WaitStaysOn(Apply(Apply(s, UserMoves), UserMoves), steps, s.user.goal);
  }

  // ----- what a call does -----

  predicate EndsWait(step: Step)
  {
    step.WaitSucceeds? || step.WaitTimesOut?
  }

  /** How many waits of the user thread the steps end. */
  function Waits(steps: seq<Step>): nat
  {
    if steps == [] then 0
    else (if EndsWait(steps[0]) then 1 else 0) + Waits(steps[1..])
  }

  function WaitsOfGoal(g: Goal): nat
  {
    match g
    case EnableTx(_) => 4
    case SoftResetTx => 4
    case HardResetRx(left) => left
    case Flush(left) => if left > 1 then left else 1
    case _ => 1
  }

  /** How many waits are yet to end before the call in progress returns; of a hard reset, at most. */
  function WaitsLeft(u: User): nat
  {
    match u
    case WaitTop(g) => WaitsOfGoal(g)
    case WaitUnmask(g) => WaitsOfGoal(g)
    case WaitBits(g) => WaitsOfGoal(g)
    case SetBit(_) => 3
    case TestAlone(_, _) => 3
    case UnmaskFirst(_, _) => 3
    case ClearAll(soft) => if soft then 4 else 2
    case _ => 0
  }

  predicate InHardReset(u: User)
  {
    match u
    case WaitTop(g) => g.HardResetRx?
    case WaitUnmask(g) => g.HardResetRx?
    case WaitBits(g) => g.HardResetRx?
    case ClearAll(soft) => !soft
    case _ => false
  }

  lemma MoveCountsWaits(s: State)
    requires !InHardReset(s.user) && Enabled(s, UserMoves)
    ensures !InHardReset(MoveUser(s).user) && WaitsLeft(MoveUser(s).user) == WaitsLeft(s.user)
  {
    match s.user
    case WaitTop(g) =>
    case WaitUnmask(g) =>
    case TestAlone(_, _) =>
    case ClearAll(_) =>
    case _ =>
  }

  lemma EndCountsWaits(g: Goal, success: bool)
    requires !g.HardResetRx?
    ensures !InHardReset(AfterWait(g, success)) && WaitsLeft(AfterWait(g, success)) + 1 == WaitsOfGoal(g)
  {
  }

  lemma StepCountsWaits(s: State, step: Step)
    requires Enabled(s, step) && !IsCall(step) && !InHardReset(s.user)
    ensures !InHardReset(Apply(s, step).user)
    ensures WaitsLeft(Apply(s, step).user) + (if EndsWait(step) then 1 else 0) == WaitsLeft(s.user)
  {
    if step.UserMoves? {
      MoveCountsWaits(s);
    } else if EndsWait(step) {
      EndCountsWaits(s.user.goal, step.WaitSucceeds? || s.txDone || s.rxDone || s.parsed);
    }
  }

  lemma {:induction false} RunCountsWaits(s: State, steps: seq<Step>)
    requires IsRun(s, steps) && NoCalls(steps) && !InHardReset(s.user)
    ensures WaitsLeft(Final(s, steps).user) + Waits(steps) == WaitsLeft(s.user)
    decreases |steps|
  {
    if steps != [] {
      assert !IsCall(steps[0]);
      StepCountsWaits(s, steps[0]);
      RunCountsWaits(Apply(s, steps[0]), steps[1..]);
    }
  }

  /** The reports that are on when the call in progress returns, once its outcome is decided. */
  function Target(s: State): set<Report>
  {
    match s.user
    case SetBit(r) => s.reports + {r}
    case ClearBit(r) => s.reports - {r}
    case ClearAll(_) => {}
    case _ => s.reports
  }

  predicate Decided(u: User)
  {
    InWait(u) ==> !u.goal.EnableTx? && !u.goal.DisableTx?
  }

  lemma MoveKeepsTarget(s: State)
    requires Enabled(s, UserMoves) && Decided(s.user)
    ensures Decided(MoveUser(s).user) && Target(MoveUser(s)) == Target(s)
  {
    match s.user
    case WaitTop(g) =>
    case WaitUnmask(g) =>
    case SetBit(r) => assert MoveUser(s).reports == s.reports + {r};
    case TestAlone(_, _) =>
    case ClearBit(r) => assert MoveUser(s).reports == s.reports - {r};
    case ClearAll(_) =>
    case _ =>
  }

  lemma EndKeepsTarget(g: Goal, success: bool)
    requires !g.EnableTx? && !g.DisableTx?
    ensures var u := AfterWait(g, success);
            Decided(u) && !u.SetBit? && !u.ClearBit? && !u.ClearAll?
  {
  }

  lemma StepKeepsTarget(s: State, step: Step)
    requires Enabled(s, step) && !IsCall(step) && Decided(s.user)
    ensures Decided(Apply(s, step).user) && Target(Apply(s, step)) == Target(s)
  {
    if step.UserMoves? {
      MoveKeepsTarget(s);
    } else if EndsWait(step) {
      EndKeepsTarget(s.user.goal, step.WaitSucceeds? || s.txDone || s.rxDone || s.parsed);
    }
  }

  lemma {:induction false} RunKeepsTarget(s: State, steps: seq<Step>)
    requires IsRun(s, steps) && NoCalls(steps) && Decided(s.user)
    ensures Target(Final(s, steps)) == Target(s)
    decreases |steps|
  {
    if steps != [] {
      assert !IsCall(steps[0]);
      StepKeepsTarget(s, steps[0]);
      RunKeepsTarget(Apply(s, steps[0]), steps[1..]);
    }
  }

  /** The result of the first wait that the steps end: success on its bit, or on any bit when it times out. */
  function FirstWait(s: State, steps: seq<Step>): bool
    decreases |steps|
  {
    if steps == [] then false
    else if steps[0].WaitSucceeds? then true
    else if steps[0].WaitTimesOut? then s.txDone || s.rxDone || s.parsed
    else FirstWait(Apply(s, steps[0]), steps[1..])
  }

  lemma WaitGoesOn(s: State, step: Step)
    requires InWait(s.user) && Enabled(s, step) && !EndsWait(step) && !IsCall(step)
    ensures var t := Apply(s, step); t.reports == s.reports && InWait(t.user) && t.user.goal == s.user.goal
  {
  }

  lemma WaitDecides(s: State, step: Step)
    requires InWait(s.user) && Enabled(s, step) && EndsWait(step)
    requires s.user.goal.EnableTx? || s.user.goal.DisableTx?
    ensures var t, g := Apply(s, step), s.user.goal;
            && Decided(t.user)
            && Target(t) == if !(step.WaitSucceeds? || s.txDone || s.rxDone || s.parsed) then s.reports
                            else if g.EnableTx? then s.reports + {g.r} else s.reports - {g.r}
  {
  }

  lemma {:induction false} ReportsAfter(s: State, steps: seq<Step>, g: Goal, r: Report)
    requires InWait(s.user) && s.user.goal == g && (g == EnableTx(r) || g == DisableTx(r))
    requires IsRun(s, steps) && NoCalls(steps) && Final(s, steps).user.Idle?
    ensures Final(s, steps).reports == if !FirstWait(s, steps) then s.reports
                                       else if g.EnableTx? then s.reports + {r} else s.reports - {r}
    decreases |steps|
  {
    var step, t := steps[0], Apply(s, steps[0]);
    assert !IsCall(step);
    if EndsWait(step) {
      WaitDecides(s, step);
      RunKeepsTarget(t, steps[1..]);
    } else {
      WaitGoesOn(s, step);
      ReportsAfter(t, steps[1..], g, r);
    }
  }

  /** A hard reset waits a second time exactly when the first wait succeeded. */
  lemma {:induction false} HardResetWaits(s: State, steps: seq<Step>, left: nat)
    requires InWait(s.user) && s.user.goal == HardResetRx(left) && 1 <= left <= 2
    requires IsRun(s, steps) && NoCalls(steps) && Final(s, steps).user.Idle?
    ensures Waits(steps) == if left == 2 && FirstWait(s, steps) then 2 else 1
    decreases |steps|
  {
    var step, t := steps[0], Apply(s, steps[0]);
    assert !IsCall(step);
    if !EndsWait(step) {
      WaitGoesOn(s, step);
      HardResetWaits(t, steps[1..], left);
    } else if left == 2 && FirstWait(s, steps) {
      HardResetWaits(t, steps[1..], 1);
    } else {
      RunCountsWaits(t, steps[1..]);
    }
  }

  lemma {:induction false} ResetBegins(s: State, steps: seq<Step>)
    requires s.user == ClearAll(false) && IsRun(s, steps) && NoCalls(steps) && Final(s, steps).user.Idle?
    ensures Waits(steps) == if FirstWait(s, steps) then 2 else 1
    decreases |steps|
  {
    assert !IsCall(steps[0]) && !EndsWait(steps[0]);
    var t, more := Apply(s, steps[0]), steps[1..];
    assert Waits(steps) == Waits(more) && FirstWait(s, steps) == FirstWait(t, more);
    if steps[0].UserMoves? {
      HardResetWaits(t, more, 2);
    } else {
      assert t.user == s.user;
      ResetBegins(t, more);
    }
  }

  /** What each call has done when it returns, whatever the other tasks did meanwhile. */
  lemma CallOutcome(s: State, call: Step, steps: seq<Step>)
    requires IsCall(call) && Enabled(s, call)
    requires var t := Apply(s, call); IsRun(t, steps) && NoCalls(steps) && Final(t, steps).user.Idle?
    ensures var t := Apply(s, call);
            var success, reports := FirstWait(t, steps), Final(t, steps).reports;
            match call
            case CallEnable(r) => Waits(steps) == 4 && reports == if success then s.reports + {r} else s.reports
            case CallDisable(r) => Waits(steps) == 1 && reports == if success then s.reports - {r} else s.reports
            case CallReset(soft) => reports == {} && Waits(steps) == if soft then 4 else if success then 2 else 1
            case _ => Waits(steps) == 1 && reports == s.reports
  {
    var t := Apply(s, call);
    match call
    case CallEnable(r) =>
      ReportsAfter(t, steps, EnableTx(r), r);
      RunCountsWaits(t, steps);
    case CallDisable(r) =>
      ReportsAfter(t, steps, DisableTx(r), r);
      RunCountsWaits(t, steps);
    case CallReset(soft) =>
      RunKeepsTarget(t, steps);
      if soft {
        RunCountsWaits(t, steps);
      } else {
        assert !IsCall(steps[0]);
        ResetBegins(t, steps);
      }
    case _ =>
      RunKeepsTarget(t, steps);
      RunCountsWaits(t, steps);
  }

  // ----- packets to send -----

  /** Those that went out and the one that will. */
  function Accepted(s: State): seq<nat>
  {
    s.sent + s.queue
  }

  predicate Makes(step: Step, s: State)
  {
    match step
    case CallEnable(_) => true
    case CallDisable(_) => true
    case CallWait(goal) => goal.OnlyTx?
    case UserMoves => s.user == ClearAll(true)
    case _ => false
  }

  lemma Untouched(s: State, step: Step)
    requires Enabled(s, step) && !Makes(step, s) && !step.SpiServes?
    ensures var t := Apply(s, step); t.made == s.made && t.queue == s.queue && t.sent == s.sent
  {
    if step.UserMoves? {
      match s.user
      case ClearAll(soft) => assert !soft;
      case _ =>
    }
  }

  lemma Made(s: State, step: Step)
    requires Enabled(s, step) && Makes(step, s)
    ensures var t := Apply(s, step);
            && t.made == s.made + 1 && t.sent == s.sent
            && t.queue == if s.queue == [] then [s.made] else s.queue
  {
  }

  /** A packet is accepted exactly when the one before it has been taken; nothing accepted is lost or reordered. */
  lemma StepOnPackets(s: State, step: Step)
    requires Enabled(s, step)
    ensures var t := Apply(s, step);
            && t.made == s.made + (if Makes(step, s) then 1 else 0)
            && Accepted(t) == Accepted(s) + (if Makes(step, s) && s.queue == [] then [s.made] else [])
  {
    if step.SpiServes? {
      if s.queue != [] {
        assert s.queue == [s.queue[0]] + s.queue[1..];
      }
    } else if Makes(step, s) {
      Made(s, step);
    } else {
      Untouched(s, step);
    }
  }

  /** Increasing numbers below n. */
  ghost predicate Rising(a: seq<nat>, n: nat)
  {
    && (forall i :: 0 <= i < |a| ==> a[i] < n)
    && (forall i, j :: 0 <= i < j < |a| ==> a[i] < a[j])
  }

  ghost predicate PacketsOk(s: State)
  {
    |s.queue| <= 1 && Rising(Accepted(s), s.made)
  }

  lemma RisingGrows(a: seq<nat>, n: nat)
    requires Rising(a, n)
    ensures Rising(a, n + 1) && Rising(a + [n], n + 1)
  {
  }

  lemma StepKeepsPackets(s: State, step: Step)
    requires Enabled(s, step) && PacketsOk(s)
    ensures PacketsOk(Apply(s, step))
  {
    StepOnPackets(s, step);
    RisingGrows(Accepted(s), s.made);
    assert Accepted(s) + [] == Accepted(s);
  }

  /** Everything accepted later has a number that was not yet given. */
  ghost predicate Extends(s: State, t: State)
  {
    && Accepted(s) <= Accepted(t) && s.made <= t.made
    && forall n :: n < s.made && n in Accepted(t) ==> n in Accepted(s)
  }

  lemma StepExtends(s: State, step: Step)
    requires Enabled(s, step)
    ensures Extends(s, Apply(s, step))
  {
    StepOnPackets(s, step);
  }

  lemma ExtendsTransitive(s: State, t: State, u: State)
    requires Extends(s, t) && Extends(t, u)
    ensures Extends(s, u)
  {
  }

  lemma {:induction false} RunOnPackets(s: State, steps: seq<Step>)
    requires IsRun(s, steps) && PacketsOk(s)
    ensures PacketsOk(Final(s, steps)) && Extends(s, Final(s, steps))
    decreases |steps|
  {
    if steps != [] {
      StepKeepsPackets(s, steps[0]);
      StepExtends(s, steps[0]);
      RunOnPackets(Apply(s, steps[0]), steps[1..]);
      ExtendsTransitive(s, Apply(s, steps[0]), Final(s, steps));
    }
  }

  /** Packets go out in the order they are made, none twice, whatever the interleaving. */
  lemma PacketsInOrder(s: State, steps: seq<Step>)
    requires Init(s) && IsRun(s, steps)
    ensures var t := Final(s, steps);
            |t.queue| <= 1 && forall i, j :: 0 <= i < j < |t.sent| ==> t.sent[i] < t.sent[j] < t.made
  {
    RunOnPackets(s, steps);
    var t := Final(s, steps);
    assert forall i :: 0 <= i < |t.sent| ==> t.sent[i] == Accepted(t)[i];
  }

  /** A packet is lost, whatever happens later, if and only if it found the queue full. */
  lemma PacketIsLostIff(s: State, steps: seq<Step>, step: Step, more: seq<Step>)
    requires Init(s) && IsRun(s, steps) && Enabled(Final(s, steps), step) && Makes(step, Final(s, steps))
    requires IsRun(Apply(Final(s, steps), step), more)
    ensures var mid, t := Final(s, steps), Final(Apply(Final(s, steps), step), more);
            mid.made in t.sent + t.queue <==> mid.queue == []
  {
    var mid := Final(s, steps);
    RunOnPackets(s, steps);
    LostInStep(mid, step);
    StepKeepsPackets(mid, step);
    RunOnPackets(Apply(mid, step), more);
  }

  lemma LostInStep(s: State, step: Step)
    requires PacketsOk(s) && Enabled(s, step) && Makes(step, s)
    ensures s.made < Apply(s, step).made
    ensures s.made in Accepted(Apply(s, step)) <==> s.queue == []
  {
    StepOnPackets(s, step);
  }

  // ----- what a successful wait tells -----

  /** How many waits the steps end on the transmit bit, or on the receive bit. */
  function Successes(s: State, steps: seq<Step>, tx: bool): nat
    decreases |steps|
  {
    if steps == [] then 0
    else (if steps[0].WaitSucceeds? && s.user.WaitBits? && WaitsForTx(s.user.goal) == tx then 1 else 0)
         + Successes(Apply(s, steps[0]), steps[1..], tx)
  }

  /** How many packets the steps send, or how many that are not empty they receive. */
  function Transfers(s: State, steps: seq<Step>, tx: bool): nat
    decreases |steps|
  {
    if steps == [] then 0
    else (if steps[0].SpiServes? && (s.queue != []) == tx && (tx || steps[0].length != 0) then 1 else 0)
         + Transfers(Apply(s, steps[0]), steps[1..], tx)
  }

  predicate Bit(s: State, tx: bool)
  {
    if tx then s.txDone else s.rxDone
  }

  /** The bits are set by transfers only, and a wait that succeeds takes its bit and leaves the other. */
  lemma StepOnBits(s: State, step: Step, tx: bool)
    requires Enabled(s, step)
    ensures Bit(Apply(s, step), tx)
            == if step.SpiServes? && (s.queue != []) == tx && (tx || step.length != 0) then true
               else if step.WaitSucceeds? && WaitsForTx(s.user.goal) == tx then false
               else Bit(s, tx)
    ensures step.WaitSucceeds? ==> Bit(s, WaitsForTx(s.user.goal))
    ensures Apply(s, step).parsed <==>
            step.PacketParsed? || (s.parsed && !(EndsWait(step) && s.user.goal.OnlyData?))
  {
    if step.UserMoves? {
      MoveKeepsBits(s);
    }
  }

  lemma MoveKeepsBits(s: State)
    ensures var t := MoveUser(s); t.txDone == s.txDone && t.rxDone == s.rxDone && t.parsed == s.parsed
  {
  }

  lemma {:induction false} SuccessesNeedTransfers(s: State, steps: seq<Step>, tx: bool)
    requires IsRun(s, steps)
    ensures Successes(s, steps, tx) + (if Bit(Final(s, steps), tx) then 1 else 0)
            <= Transfers(s, steps, tx) + (if Bit(s, tx) then 1 else 0)
    decreases |steps|
  {
    if steps != [] {
      StepOnBits(s, steps[0], tx);
      SuccessesNeedTransfers(Apply(s, steps[0]), steps[1..], tx);
    }
  }

  /** Every transfer ends at most one wait, and no wait succeeds without one of its kind. */
  lemma OneWaitPerTransfer(s: State, steps: seq<Step>, tx: bool)
    requires Init(s) && IsRun(s, steps)
    ensures Successes(s, steps, tx) <= Transfers(s, steps, tx)
  {
    SuccessesNeedTransfers(s, steps, tx);
  }

  /** Which bit each wait needs and takes; it leaves the other one. */
  lemma WaitTakesItsBit(s: State)
    requires Enabled(s, WaitSucceeds)
    ensures var t := Apply(s, WaitSucceeds);
            match s.user.goal
            case EnableTx(_) => s.txDone && !t.txDone && t.rxDone == s.rxDone
            case DisableTx(_) => s.txDone && !t.txDone && t.rxDone == s.rxDone
            case SoftResetTx => s.txDone && !t.txDone && t.rxDone == s.rxDone
            case OnlyTx => s.txDone && !t.txDone && t.rxDone == s.rxDone
            case HardResetRx(_) => s.rxDone && !t.rxDone && t.txDone == s.txDone
            case Flush(_) => s.rxDone && !t.rxDone && t.txDone == s.txDone
            case OnlyRx => s.rxDone && !t.rxDone && t.txDone == s.txDone
            case OnlyData => s.rxDone && !t.rxDone && t.txDone == s.txDone && !t.parsed
  {
  }
}
