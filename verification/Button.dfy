/** The button of components/sys/button.c: edge interrupts, an event queue and a daemon. */
module Button {
  import opened Arith

  /** Durations in ticks, for a tick of `period` milliseconds. */
  function LongPressTicks(period: nat): nat
    requires period > 0
  {
    1000 / period
  }

  function DoubleClickTicks(period: nat): nat
    requires period > 0
  {
    500 / period
  }

  lemma ProductBelow(a: nat, b: nat, period: nat)
    requires period > 0 && a * period <= b
    ensures a <= b / period
  {
    var q := b / period;
    assert b == q * period + b % period;
    assert (a - q) * period == a * period - q * period;
    if a > q {
      MultipleAtLeast(a - q, period);
    }
  }

  /** Two double-click windows never exceed the shortest long press, whatever the tick. */
  lemma TwoWindowsFit(period: nat)
    requires period > 0
    ensures 2 * DoubleClickTicks(period) <= LongPressTicks(period)
  {
    var q := 500 / period;
    assert q * period <= 500;
    assert (2 * q) * period == 2 * (q * period);
    ProductBelow(2 * q, 1000, period);
  }

  // ----- the interrupt service routine -----

  datatype Kind = Click | LongPress

  datatype ButtonState = Idle | Pressed | Released

  /** An event with the tick at which it was queued. */
  datatype Event = Event(kind: Kind, time: nat)

  class Isr {
    var state: ButtonState
    var pressTimestamp: nat
    var releaseTimestamp: nat

    constructor ()
      ensures state == Idle
    {
      state := Idle;
      pressTimestamp, releaseTimestamp := 0, 0;
    }

    /** `tick` is the 32-bit tick counter; None means that nothing is queued. */
    method Edge(tick: nat, longPress: nat) returns (queued: bool, kind: Kind)
      requires tick < 0x1_0000_0000
      modifies this
      ensures queued == (old(state) != Idle)
      ensures !queued ==> state == Pressed && pressTimestamp == tick
      ensures queued ==> state == Idle
      ensures queued ==> kind == if (tick - old(pressTimestamp)) % 0x1_0000_0000 > longPress then LongPress else Click
    {
      match state {
        case Idle =>
          state := Pressed;
          pressTimestamp := tick;
        case Released =>
          state := Released;
          releaseTimestamp := tick;
        case Pressed =>
          state := Released;
          releaseTimestamp := tick;
      }
      queued, kind := false, Click;
      if state == Released {
        queued := true;
        if (releaseTimestamp - pressTimestamp) % WRAP > longPress {
          kind := LongPress;
        }
        state := Idle;
      }
    }

    /** Where the routine stands after the first k edges. */
    ghost predicate After(edges: seq<nat>, k: nat)
      requires k <= |edges|
      reads this
    {
      if k % 2 == 0 then state == Idle else state == Pressed && pressTimestamp == edges[k - 1] % 0x1_0000_0000
    }

    /** One edge of a trace, of whose unbounded time the routine sees the low 32 bits. */
    method NextEdge(edges: seq<nat>, k: nat, longPress: nat) returns (queued: seq<Event>)
      requires k < |edges| && TraceOk(edges) && After(edges, k)
      modifies this
      ensures After(edges, k + 1)
      ensures queued == EventAt(edges, k, longPress)
    {
      var now, kind := Edge(edges[k] % WRAP, longPress);
      queued := [];
      if now {
        WrapCancels(edges[k - 1], edges[k]);
        queued := [Event(kind, edges[k])];
      }
    }

    method Trace(edges: seq<nat>, longPress: nat) returns (events: seq<Event>)
      requires state == Idle && TraceOk(edges)
      modifies this
      ensures events == PressEvents(edges, longPress)
    {
      events := [];
      for k := 0 to |edges|
        invariant After(edges, k)
        invariant events == PressEvents(edges[..k], longPress)
      {
        var queued := NextEdge(edges, k, longPress);
        PressEventsGrow(edges, k, longPress);
        events := events + queued;
      }
      assert edges[..|edges|] == edges;
    }
  }

  /** The kind that a press of this duration gets: the routine sees its low 32 bits. */
  function KindOf(duration: nat, longPress: nat): Kind
  {
    if duration % WRAP > longPress then LongPress else Click
  }

  /** The kind is the true one exactly when the press is short or its low 32 bits are long, too. */
  lemma KindIsTrueIff(duration: nat, longPress: nat)
    ensures (KindOf(duration, longPress) == if duration > longPress then LongPress else Click)
            <==> duration <= longPress || duration % 0x1_0000_0000 > longPress
    ensures duration < 0x1_0000_0000 ==> (KindOf(duration, longPress).LongPress? <==> duration > longPress)
  {
    WrapsDown(duration);
  }

  lemma WrapsDown(duration: nat)
    ensures duration % WRAP <= duration
  {
  }

  /** What edge k queues: nothing for a press, the kind of the press for a release. */
  function EventAt(edges: seq<nat>, k: nat, longPress: nat): seq<Event>
    requires k < |edges| && forall i :: 0 < i < |edges| ==> edges[i - 1] <= edges[i]
  {
    if k % 2 == 0 then [] else [Event(KindOf(edges[k] - edges[k - 1], longPress), edges[k])]
  }

  ghost predicate TraceOk(edges: seq<nat>)
  {
    forall k :: 0 < k < |edges| ==> edges[k - 1] <= edges[k]
  }

  /** Edges come in pairs; the duration decides, and the release dates the event. */
  function PressEvents(edges: seq<nat>, longPress: nat): (es: seq<Event>)
    requires forall k :: 0 < k < |edges| ==> edges[k - 1] <= edges[k]
    ensures |es| == |edges| / 2
    ensures forall i :: 0 <= i < |es| ==>
              es[i] == Event(KindOf(edges[2 * i + 1] - edges[2 * i], longPress), edges[2 * i + 1])
  {
    seq(|edges| / 2, i requires 0 <= i < |edges| / 2 =>
      Event(KindOf(edges[2 * i + 1] - edges[2 * i], longPress), edges[2 * i + 1]))
  }

  lemma PressEventsGrow(edges: seq<nat>, k: nat, longPress: nat)
    requires TraceOk(edges) && k < |edges|
    ensures PressEvents(edges[..k + 1], longPress) == PressEvents(edges[..k], longPress) + EventAt(edges, k, longPress)
  {
  }

  lemma WrapCancels(a: nat, b: nat)
    requires a <= b
    ensures (b % 0x1_0000_0000 - a % 0x1_0000_0000) % 0x1_0000_0000 == (b - a) % 0x1_0000_0000
  {
  }

  // ----- the daemon -----

  datatype Action = Toggle(i: nat) | DoubleClick(i: nat) | Swallowed(i: nat) | Sleep(i: nat)

  /**
  Whether another event arrives while the daemon waits for the second half of a double
  click; the outer receive takes event i off the queue `lat[i]` ticks after it was queued.
  */
  predicate Followed(es: seq<Event>, lat: seq<nat>, window: nat, i: nat)
    requires |lat| == |es| && i < |es|
  {
    i + 1 < |es| && es[i + 1].time <= es[i].time + lat[i] + window
  }

  /** What the daemon does from event i on; it does not return from deep sleep. */
  function Actions(es: seq<Event>, lat: seq<nat>, window: nat, i: nat): seq<Action>
    requires |lat| == |es| && i <= |es|
    decreases |es| - i
  {
    if i == |es| then []
    else if es[i].kind.LongPress? then [Sleep(i)]
    else if !Followed(es, lat, window, i) then [Toggle(i)] + Actions(es, lat, window, i + 1)
    else [if es[i + 1].kind.Click? then DoubleClick(i) else Swallowed(i)] + Actions(es, lat, window, i + 2)
  }

  method Daemon(es: seq<Event>, lat: seq<nat>, window: nat, active: bool) returns (acts: seq<Action>, mode: bool)
    requires |lat| == |es|
    ensures acts == Actions(es, lat, window, 0)
    ensures mode == ModeAfter(active, acts)
  {
    acts, mode := [], active;
    var i := 0;
    while i < |es|
      invariant i <= |es|
      invariant acts + Actions(es, lat, window, i) == Actions(es, lat, window, 0)
      invariant mode == ModeAfter(active, acts)
    {
      match es[i].kind {
        case Click =>
          if Followed(es, lat, window, i) {
            var a := if es[i + 1].kind.Click? then DoubleClick(i) else Swallowed(i);
            ModeStep(active, acts, a);
            ActionsStep(es, lat, window, i, acts);
            acts := acts + [a];
            i := i + 2;
          } else {
            ModeStep(active, acts, Toggle(i));
            ActionsStep(es, lat, window, i, acts);
            mode := !mode;
            acts := acts + [Toggle(i)];
            i := i + 1;
          }
        case LongPress =>
          ModeStep(active, acts, Sleep(i));
          acts := acts + [Sleep(i)];
          return;
      }
    }
    assert acts + [] == acts;
  }

  /** Peel the next action off the rest. */
  lemma ActionsStep(es: seq<Event>, lat: seq<nat>, window: nat, i: nat, done: seq<Action>)
    requires |lat| == |es| && i < |es| && es[i].kind.Click?
    ensures var rest := Actions(es, lat, window, i);
            var after := Actions(es, lat, window, if Followed(es, lat, window, i) then i + 2 else i + 1);
            rest != [] && done + rest == done + [rest[0]] + after
  {
  }

  /** The operation mode flips once for each toggle. */
  function ModeAfter(active: bool, acts: seq<Action>): bool
  {
    if acts == [] then active
    else ModeAfter(active, acts[..|acts| - 1]) != acts[|acts| - 1].Toggle?
  }

  lemma ModeStep(active: bool, acts: seq<Action>, a: Action)
    ensures ModeAfter(active, acts + [a]) == (ModeAfter(active, acts) != a.Toggle?)
  {
    assert (acts + [a])[..|acts|] == acts;
  }

  // ----- long presses are always acted on -----

  /** A long press is queued more than its own duration after whatever was queued before it. */
  ghost predicate LongPressesComeLate(es: seq<Event>, longPress: nat)
  {
    forall i :: 0 < i < |es| && es[i].kind.LongPress? ==> es[i].time > es[i - 1].time + longPress
  }

  lemma PressesComeLate(edges: seq<nat>, longPress: nat)
    requires TraceOk(edges)
    ensures LongPressesComeLate(PressEvents(edges, longPress), longPress)
  {
  }

  /** The first long press, or the number of events. */
  function FirstLong(es: seq<Event>, i: nat): (f: nat)
    requires i <= |es|
    ensures i <= f <= |es|
    ensures forall j :: i <= j < f ==> es[j].kind.Click?
    ensures f < |es| ==> es[f].kind.LongPress?
    decreases |es| - i
  {
    if i == |es| || es[i].kind.LongPress? then i else FirstLong(es, i + 1)
  }

  ghost predicate NothingSwallowed(acts: seq<Action>)
  {
    forall k :: 0 <= k < |acts| ==> !acts[k].Swallowed?
  }

  /** A click that a long press follows is not waiting for a second half any more when that arrives. */
  lemma ClickIsSafe(es: seq<Event>, lat: seq<nat>, window: nat, i: nat)
    requires |lat| == |es| && i < |es| && es[i].kind.Click? && LongPressesComeLate(es, 2 * window)
    requires lat[i] <= window
    ensures var next := if Followed(es, lat, window, i) then i + 2 else i + 1;
            var acts := Actions(es, lat, window, i);
            && FirstLong(es, i) == FirstLong(es, next)
            && acts != [] && !acts[0].Swallowed? && acts[1..] == Actions(es, lat, window, next)
  {
  }

  lemma {:induction false} NeverSwallowed(es: seq<Event>, lat: seq<nat>, window: nat, i: nat)
    requires |lat| == |es| && i <= |es| && LongPressesComeLate(es, 2 * window)
    requires forall j :: 0 <= j < |es| ==> lat[j] <= window
    ensures var acts := Actions(es, lat, window, i);
            var f := FirstLong(es, i);
            NothingSwallowed(acts) && (f < |es| ==> acts != [] && acts[|acts| - 1] == Sleep(f))
    decreases |es| - i
  {
    if i < |es| && es[i].kind.Click? {
      ClickIsSafe(es, lat, window, i);
      NeverSwallowed(es, lat, window, if Followed(es, lat, window, i) then i + 2 else i + 1);
    }
  }

  /**
  Every long press before deep sleep is acted on, if the daemon takes each event
  within one double-click window: no click ever swallows it.
  */
  lemma LongPressIsActedOn(edges: seq<nat>, lat: seq<nat>, period: nat)
    requires period > 0 && TraceOk(edges)
    requires |lat| == |edges| / 2 && forall j :: 0 <= j < |lat| ==> lat[j] <= DoubleClickTicks(period)
    ensures var es := PressEvents(edges, LongPressTicks(period));
            var acts := Actions(es, lat, DoubleClickTicks(period), 0);
            var f := FirstLong(es, 0);
            NothingSwallowed(acts) && (f < |es| ==> acts != [] && acts[|acts| - 1] == Sleep(f))
  {
    TwoWindowsFit(period);
    PressesComeLate(edges, LongPressTicks(period));
    NeverSwallowed(PressEvents(edges, LongPressTicks(period)), lat, DoubleClickTicks(period), 0);
  }

  // ----- what becomes of each click, with the times written out -----

  /**
  Event i is taken by the outer receive: event i - 1 was not, or it was a click and the window
  after its receive was over before event i came.
  */
  predicate TakenFirst(es: seq<Event>, lat: seq<nat>, window: nat, i: nat)
    requires |lat| == |es| && i < |es|
  {
    i == 0 || !TakenFirst(es, lat, window, i - 1) || es[i].time > es[i - 1].time + lat[i - 1] + window
  }

  function IndexOf(a: Action): nat
  {
    match a
    case Toggle(i) => i
    case DoubleClick(i) => i
    case Swallowed(i) => i
    case Sleep(i) => i
  }

  lemma {:induction false} ActionsComeLater(es: seq<Event>, lat: seq<nat>, window: nat, from: nat)
    requires |lat| == |es| && from <= |es|
    ensures forall a :: a in Actions(es, lat, window, from) ==> IndexOf(a) >= from
    decreases |es| - from
  {
    if from < |es| && es[from].kind.Click? {
      ActionsComeLater(es, lat, window, if Followed(es, lat, window, from) then from + 2 else from + 1);
    }
  }

  /** The one action that is due to event i when it is taken first. */
  function Due(es: seq<Event>, lat: seq<nat>, window: nat, i: nat): Action
    requires |lat| == |es| && i < |es|
  {
    if es[i].kind.LongPress? then Sleep(i)
    else if i + 1 == |es| || es[i + 1].time > es[i].time + lat[i] + window then Toggle(i)
    else if es[i + 1].kind.Click? then DoubleClick(i)
    else Swallowed(i)
  }

  lemma FirstActionIsDue(es: seq<Event>, lat: seq<nat>, window: nat, from: nat)
    requires |lat| == |es| && from < |es|
    ensures var acts := Actions(es, lat, window, from);
            && acts != [] && acts[0] == Due(es, lat, window, from)
            && (es[from].kind.LongPress? ==> acts[1..] == [])
            && (es[from].kind.Click? ==>
                  acts[1..] == Actions(es, lat, window, if acts[0].Toggle? then from + 1 else from + 2))
  {
  }

  lemma {:induction false} DueFrom(es: seq<Event>, lat: seq<nat>, window: nat, from: nat, i: nat, a: Action)
    requires |lat| == |es| && from <= i < |es|
    requires TakenFirst(es, lat, window, from)
    requires i <= FirstLong(es, from) && IndexOf(a) == i
    ensures a in Actions(es, lat, window, from) <==>
            TakenFirst(es, lat, window, i) && a == Due(es, lat, window, i)
    decreases |es| - from
  {
    FirstActionIsDue(es, lat, window, from);
    var acts := Actions(es, lat, window, from);
    assert forall b :: b in acts <==> b == acts[0] || b in acts[1..];
    if es[from].kind.Click? {
      var next := if acts[0].Toggle? then from + 1 else from + 2;
      ActionsComeLater(es, lat, window, next);
      if next == from + 2 {
        assert !TakenFirst(es, lat, window, from + 1);
      }
      if i >= next {
        DueFrom(es, lat, window, next, i, a);
      }
    }
  }

  /** Up to the first long press, what is done about event i is what is due if it is taken first, else nothing. */
  lemma ActsExactly(es: seq<Event>, lat: seq<nat>, window: nat, i: nat, a: Action)
    requires |lat| == |es| && i < |es| && i <= FirstLong(es, 0) && IndexOf(a) == i
    ensures a in Actions(es, lat, window, 0) <==>
            TakenFirst(es, lat, window, i) && a == Due(es, lat, window, i)
  {
    DueFrom(es, lat, window, 0, i, a);
  }

  /**
  A click switches the mode exactly when it is taken first and no event comes within the window
  after it is taken; with another click there it is a double click.
  */
  lemma TogglesExactly(es: seq<Event>, lat: seq<nat>, window: nat, i: nat)
    requires |lat| == |es| && i < |es| && i <= FirstLong(es, 0)
    ensures var acts := Actions(es, lat, window, 0);
            var soon := i + 1 < |es| && es[i + 1].time <= es[i].time + lat[i] + window;
            && (Toggle(i) in acts <==> es[i].kind.Click? && TakenFirst(es, lat, window, i) && !soon)
            && (DoubleClick(i) in acts <==>
                  es[i].kind.Click? && TakenFirst(es, lat, window, i) && soon && es[i + 1].kind.Click?)
            && (Sleep(i) in acts <==> es[i].kind.LongPress? && TakenFirst(es, lat, window, i))
  {
    ActsExactly(es, lat, window, i, Toggle(i));
    ActsExactly(es, lat, window, i, DoubleClick(i));
    ActsExactly(es, lat, window, i, Sleep(i));
  }

  function Toggles(acts: seq<Action>): nat
  {
    if acts == [] then 0 else (if acts[0].Toggle? then 1 else 0) + Toggles(acts[1..])
  }

  lemma {:induction false} TogglesAppend(acts: seq<Action>, a: Action)
    ensures Toggles(acts + [a]) == Toggles(acts) + if a.Toggle? then 1 else 0
  {
    if acts == [] {
      assert acts + [a] == [a];
    } else {
      TogglesAppend(acts[1..], a);
      assert (acts + [a])[1..] == acts[1..] + [a];
    }
  }

  /** The mode ends changed exactly after an odd number of toggles; double clicks leave it as it was. */
  lemma {:induction false} ModeIsParity(active: bool, acts: seq<Action>)
    ensures ModeAfter(active, acts) == active <==> Toggles(acts) % 2 == 0
  {
    if acts != [] {
      var n := |acts| - 1;
      ModeIsParity(active, acts[..n]);
      TogglesAppend(acts[..n], acts[n]);
      assert acts[..n] + [acts[n]] == acts;
    }
  }

  // ----- from the edges of the button, in milliseconds -----

  lemma QuotientBelowIff(d: nat, limit: nat, period: nat)
    requires period > 0
    ensures d <= limit / period <==> d * period <= limit
  {
    if d * period <= limit {
      ProductBelow(d, limit, period);
    }
    if d <= limit / period {
      assert d * period <= (limit / period) * period by {
        if d < limit / period { SmallerProduct(d, limit / period, period); }
      }
    }
  }

  lemma SmallerProduct(a: nat, b: nat, c: nat)
    requires a <= b
    ensures a * c <= b * c
  {
    assert b * c == a * c + (b - a) * c;
  }

  /** A press is long exactly when it lasts more than a second, and a window lasts as much of half a second as fits. */
  lemma Milliseconds(d: nat, period: nat)
    requires period > 0
    ensures d > LongPressTicks(period) <==> d * period > 1000
    ensures d <= DoubleClickTicks(period) <==> d * period <= 500
  {
    QuotientBelowIff(d, 1000, period);
    QuotientBelowIff(d, 500, period);
  }

  /**
  Two presses of at most a second each, taken off the queue at once: one double click and nothing else
  when the releases are at most half a second apart, and two switches of the mode otherwise.
  */
  lemma TwoClicks(edges: seq<nat>, lat: seq<nat>, period: nat)
    requires period > 0 && |edges| == 4 && TraceOk(edges) && lat == [0, 0]
    requires (edges[1] - edges[0]) * period <= 1000 && (edges[3] - edges[2]) * period <= 1000
    ensures var acts := Actions(PressEvents(edges, LongPressTicks(period)), lat, DoubleClickTicks(period), 0);
            acts == if (edges[3] - edges[1]) * period <= 500 then [DoubleClick(0)] else [Toggle(0), Toggle(1)]
  {
    Milliseconds(edges[1] - edges[0], period);
    Milliseconds(edges[3] - edges[2], period);
    Milliseconds(edges[3] - edges[1], period);
    WrapsDown(edges[1] - edges[0]);
    WrapsDown(edges[3] - edges[2]);
    var es, window := PressEvents(edges, LongPressTicks(period)), DoubleClickTicks(period);
    assert es[0].kind.Click? && es[1].kind.Click?;
    assert Actions(es, lat, window, 2) == [];
    FirstActionIsDue(es, lat, window, 0);
    FirstActionIsDue(es, lat, window, 1);
    var acts := Actions(es, lat, window, 0);
    assert acts == [acts[0]] + acts[1..];
  }

  /** One press of at most a second switches the mode, and one that lasts longer, up to 2^32 ticks, sends to sleep. */
  lemma OnePress(edges: seq<nat>, latency: nat, period: nat)
    requires period > 0 && |edges| == 2 && TraceOk(edges) && edges[1] - edges[0] < 0x1_0000_0000
    ensures var acts := Actions(PressEvents(edges, LongPressTicks(period)), [latency], DoubleClickTicks(period), 0);
            acts == if (edges[1] - edges[0]) * period <= 1000 then [Toggle(0)] else [Sleep(0)]
  {
    Milliseconds(edges[1] - edges[0], period);
    var es, window := PressEvents(edges, LongPressTicks(period)), DoubleClickTicks(period);
    FirstActionIsDue(es, [latency], window, 0);
    var acts := Actions(es, [latency], window, 0);
    assert acts == [acts[0]] + acts[1..];
  }
}
