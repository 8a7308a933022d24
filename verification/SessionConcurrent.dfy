/**
The streaming session again, at the level of bytes: app_monitor and app_data_client run
concurrently on the unlocked ring, and every access to it is a step of its own.
*/
module SessionConcurrent {
  import opened Arith
  import opened Bytes
  import opened RingBuf
  import R = RingConcurrent
  import opened Datagram
  import Session

  /** The ring with both tasks, the client's cursor, and what it sent, with the origin of each packet. */
  datatype State = State(ring: R.State, curr: nat, sent: seq<Packet>, from: seq<Session.Origin>, live: bool)

  datatype Step =
    | OnRing(step: R.Step)   // a step of a push, or inside a peek
    | Look                   // compare the cursor with the head, and begin a peek if there is something to read
    | Skip                   // the peek was refused
    | Send(now: int, ok: bool) // the copy is complete: advance the cursor, make a packet of it and send it

  /** The number that a record carries. */
  function SeqOf(item: seq<byte>): nat
    requires |item| == WIDTH
  {
    FromBytes(item).seqNo
  }

  /** The monitor numbers its readings by the pushes so far. */
  predicate Enabled(s: State, size: nat, step: Step)
  {
    match step
    case OnRing(r) =>
      && !r.Ask? && !r.Leave? && R.Enabled(s.ring, size, WIDTH, r)
      && (r.BeginPush? ==> |r.item| == WIDTH && SeqOf(r.item) == |s.ring.log| % 0x1_0000_0000)
    case Look => s.live && s.ring.cons.Resting?
    case Skip => s.ring.cons.Refused?
    case Send(_, _) => s.ring.cons.Finished? && s.ring.cons.at >= 0 && |s.ring.cons.item| == WIDTH
  }

  function Apply(s: State, size: nat, step: Step): (t: State)
    requires size >= 1 && |s.ring.mem| == size * WIDTH && Enabled(s, size, step)
    ensures |t.ring.mem| == |s.ring.mem|
  {
    match step
    case OnRing(r) => s.(ring := R.Apply(s.ring, size, WIDTH, r))
    case Look =>
      if s.curr >= s.ring.head then s else s.(ring := R.Apply(s.ring, size, WIDTH, R.Ask(s.curr)))
    case Skip => s.(ring := R.Apply(s.ring, size, WIDTH, R.Leave))
    case Send(now, ok) =>
      var t := s.(ring := R.Apply(s.ring, size, WIDTH, R.Leave), curr := s.curr + 1);
      if ok then t.(sent := s.sent + [TagPacket(FromBytes(s.ring.cons.item), now)],
                    from := s.from + [Session.Origin(s.ring.cons.at, now)])
      else t.(live := false)
  }

  ghost predicate Init(s: State, size: nat)
  {
    R.Init(s.ring, size, WIDTH) && s.curr == 1 && s.sent == [] && s.from == [] && s.live
  }

  ghost predicate IsRun(s: State, size: nat, steps: seq<Step>)
    requires size >= 1 && |s.ring.mem| == size * WIDTH
    decreases |steps|
  {
    steps != [] ==> Enabled(s, size, steps[0]) && IsRun(Apply(s, size, steps[0]), size, steps[1..])
  }

  ghost function Final(s: State, size: nat, steps: seq<Step>): (t: State)
    requires size >= 1 && |s.ring.mem| == size * WIDTH && IsRun(s, size, steps)
    ensures |t.ring.mem| == |s.ring.mem|
    decreases |steps|
  {
    if steps == [] then s else Final(Apply(s, size, steps[0]), size, steps[1..])
  }

  // ----- what every step keeps -----

  ghost predicate Numbered(r: R.State)
  {
    && (forall i :: 0 <= i < |r.log| ==> |r.log[i]| == WIDTH && SeqOf(r.log[i]) == i % 0x1_0000_0000)
    && (!r.prod.Idle? ==> |r.prod.item| == WIDTH && SeqOf(r.prod.item) == |r.log| % 0x1_0000_0000)
  }

  /** How far a peek for the cursor has come: it falls back only if the cursor has left the window. */
  ghost predicate Cursor(r: R.State, size: nat, curr: nat)
  {
    match r.cons
    case Resting => true
    case Refused => true
    case Asked(index) => index == curr
    case BelowHead(index) => index == curr
    case FallingBack => r.head >= curr + size
    case Copying(at, seen, _) => at == curr || (at >= curr && seen >= curr + size)
    case Finished(at, seen, _, headAtEnd, _) => at == curr || (at >= curr && headAtEnd >= curr + size)
  }

  ghost predicate Books(s: State)
  {
    && 1 <= s.curr == 1 + |s.sent| + (if s.live then 0 else 1)
    && |s.from| == |s.sent|
    && forall k :: 0 <= k < |s.sent| ==> k + 1 <= s.from[k].index <= |s.ring.log|
  }

  ghost predicate Inv(s: State, size: nat)
  {
    && R.Inv(s.ring, size, WIDTH) && Numbered(s.ring) && Cursor(s.ring, size, s.curr) && Books(s)
    && (!s.live ==> s.ring.cons.Resting?)
  }

  lemma InitInv(s: State, size: nat)
    requires Init(s, size)
    ensures Inv(s, size)
  {
    R.InitInv(s.ring, size, WIDTH);
  }

  /** A step on the ring only ever appends to the log. */
  lemma LogGrows(r: R.State, size: nat, step: R.Step)
    requires size >= 1 && |r.mem| == size * WIDTH && R.Enabled(r, size, WIDTH, step)
    ensures r.log <= R.Apply(r, size, WIDTH, step).log
  {
  }

  lemma NumberedStep(r: R.State, size: nat, step: R.Step)
    requires size >= 1 && |r.mem| == size * WIDTH && R.Enabled(r, size, WIDTH, step) && Numbered(r)
    requires step.BeginPush? ==> |step.item| == WIDTH && SeqOf(step.item) == |r.log| % 0x1_0000_0000
    ensures Numbered(R.Apply(r, size, WIDTH, step))
  {
    var t := R.Apply(r, size, WIDTH, step);
    if step.BumpHead? {
      assert forall i :: 0 <= i < |r.log| ==> t.log[i] == r.log[i];
    }
  }

  lemma CursorStep(r: R.State, size: nat, step: R.Step, curr: nat)
    requires R.Inv(r, size, WIDTH) && R.Enabled(r, size, WIDTH, step) && Cursor(r, size, curr)
    requires curr >= 1 && !step.Ask?
    ensures Cursor(R.Apply(r, size, WIDTH, step), size, curr)
  {
  }

  lemma RingStepInv(s: State, size: nat, step: R.Step)
    requires Inv(s, size) && Enabled(s, size, OnRing(step))
    ensures Inv(Apply(s, size, OnRing(step)), size)
  {
    R.StepInv(s.ring, size, WIDTH, step);
    NumberedStep(s.ring, size, step);
    CursorStep(s.ring, size, step, s.curr);
    LogGrows(s.ring, size, step);
  }

  lemma StepInv(s: State, size: nat, step: Step)
    requires Inv(s, size) && Enabled(s, size, step)
    ensures Inv(Apply(s, size, step), size)
  {
    match step
    case OnRing(r) => RingStepInv(s, size, r);
    case Look =>
      R.StepInv(s.ring, size, WIDTH, R.Ask(s.curr));
    case Skip =>
      R.StepInv(s.ring, size, WIDTH, R.Leave);
    case Send(now, ok) =>
      R.StepInv(s.ring, size, WIDTH, R.Leave);
  }

  // ----- what is sent -----

  /** When a copy ends, its slot has not been overwritten. */
  ghost predicate Intact(s: State, size: nat, step: Step)
  {
    step == OnRing(R.Finish) && s.ring.cons.Copying? ==> !R.Overrun(s.ring, size, s.ring.cons.at)
  }

  /** When a copy ends, fewer than `size` pushes separate the client from the head. */
  ghost predicate Timely(s: State, size: nat, step: Step)
  {
    step == OnRing(R.Finish) ==> s.ring.head < s.curr + size
  }

  ghost predicate AllIntact(s: State, size: nat, steps: seq<Step>)
    requires size >= 1 && |s.ring.mem| == size * WIDTH && IsRun(s, size, steps)
    decreases |steps|
  {
    steps != [] ==> Intact(s, size, steps[0]) && AllIntact(Apply(s, size, steps[0]), size, steps[1..])
  }

  ghost predicate AllTimely(s: State, size: nat, steps: seq<Step>)
    requires size >= 1 && |s.ring.mem| == size * WIDTH && IsRun(s, size, steps)
    decreases |steps|
  {
    steps != [] ==> Timely(s, size, steps[0]) && AllTimely(Apply(s, size, steps[0]), size, steps[1..])
  }

  ghost predicate PacketOf(p: Packet, log: seq<seq<byte>>, o: Session.Origin)
  {
    1 <= o.index <= |log| && |log[o.index - 1]| == WIDTH && p == TagPacket(FromBytes(log[o.index - 1]), o.now)
  }

  ghost predicate PacketsOf(sent: seq<Packet>, log: seq<seq<byte>>, from: seq<Session.Origin>)
  {
    |from| == |sent| && forall k :: 0 <= k < |sent| ==> PacketOf(sent[k], log, from[k])
  }

  lemma PacketsOfLongerLog(sent: seq<Packet>, log: seq<seq<byte>>, longer: seq<seq<byte>>, from: seq<Session.Origin>)
    requires PacketsOf(sent, log, from) && log <= longer
    ensures PacketsOf(sent, longer, from)
  {
    forall k | 0 <= k < |sent| ensures PacketOf(sent[k], longer, from[k]) {
      assert PacketOf(sent[k], log, from[k]);
      assert log[from[k].index - 1] == longer[from[k].index - 1];
    }
  }

  ghost predicate CopyOf(r: R.State)
    requires r.cons.Finished?
  {
    1 <= r.cons.at <= |r.log| && r.cons.item == r.log[r.cons.at - 1]
  }

  /** Packet k is made of the record pushed with index from[k], and so will be the next one. */
  ghost predicate Authentic(s: State)
  {
    && PacketsOf(s.sent, s.ring.log, s.from)
    && (s.ring.cons.Finished? ==> CopyOf(s.ring))
  }

  ghost predicate InOrder(s: State)
  {
    && (forall k :: 0 <= k < |s.from| ==> s.from[k].index == k + 1)
    && (s.ring.cons.Finished? ==> s.ring.cons.at == s.curr)
  }

  lemma AuthenticRingStep(s: State, size: nat, step: R.Step)
    requires Inv(s, size) && Enabled(s, size, OnRing(step)) && Authentic(s) && Intact(s, size, OnRing(step))
    ensures Authentic(Apply(s, size, OnRing(step)))
  {
    var t := Apply(s, size, OnRing(step));
    assert t.ring == R.Apply(s.ring, size, WIDTH, step) && t.sent == s.sent && t.from == s.from;
    LogGrows(s.ring, size, step);
    PacketsOfLongerLog(s.sent, s.ring.log, t.ring.log, s.from);
    CopyIsAuthentic(s, size, step);
  }

  lemma CopyIsAuthentic(s: State, size: nat, step: R.Step)
    requires Inv(s, size) && Enabled(s, size, OnRing(step)) && Intact(s, size, OnRing(step))
    requires s.ring.cons.Finished? ==> CopyOf(s.ring)
    ensures Apply(s, size, OnRing(step)).ring.cons.Finished? ==> CopyOf(Apply(s, size, OnRing(step)).ring)
  {
    if step.Finish? {
      FinishedCopy(s.ring, size);
    } else {
      LogGrows(s.ring, size, step);
    }
  }

  lemma FinishedCopy(r: R.State, size: nat)
    requires R.Inv(r, size, WIDTH) && R.Enabled(r, size, WIDTH, R.Finish)
    requires 1 <= r.cons.at && !R.Overrun(r, size, r.cons.at)
    ensures CopyOf(R.Apply(r, size, WIDTH, R.Finish))
  {
    R.StepInv(r, size, WIDTH, R.Finish);
  }

  lemma SendIsAuthentic(s: State, size: nat, now: int, ok: bool)
    requires Inv(s, size) && Enabled(s, size, Send(now, ok)) && Authentic(s)
    ensures Authentic(Apply(s, size, Send(now, ok)))
  {
    var t := Apply(s, size, Send(now, ok));
    assert t.ring.log == s.ring.log && t.ring.cons == R.Resting;
    if ok {
      var o := Session.Origin(s.ring.cons.at, now);
      assert PacketOf(TagPacket(FromBytes(s.ring.cons.item), now), t.ring.log, o);
      assert t.sent == s.sent + [TagPacket(FromBytes(s.ring.cons.item), now)] && t.from == s.from + [o];
    }
  }

  lemma AuthenticStep(s: State, size: nat, step: Step)
    requires Inv(s, size) && Enabled(s, size, step) && Authentic(s) && Intact(s, size, step)
    ensures Authentic(Apply(s, size, step))
  {
    match step
    case OnRing(r) => AuthenticRingStep(s, size, r);
    case Send(now, ok) => SendIsAuthentic(s, size, now, ok);
    case _ =>
  }

  /** While the client is in time, it copies the entry at its cursor, and the slot stays intact. */
  lemma TimelyIsIntact(s: State, size: nat, step: Step)
    requires Inv(s, size) && Enabled(s, size, step) && Timely(s, size, step)
    ensures Intact(s, size, step)
    ensures InOrder(s) ==> InOrder(Apply(s, size, step))
  {
  }

  lemma {:induction false} RunFacts(s: State, size: nat, steps: seq<Step>)
    requires Inv(s, size) && Authentic(s) && IsRun(s, size, steps) && AllIntact(s, size, steps)
    ensures Inv(Final(s, size, steps), size) && Authentic(Final(s, size, steps))
    decreases |steps|
  {
    if steps != [] {
      StepInv(s, size, steps[0]);
      AuthenticStep(s, size, steps[0]);
      RunFacts(Apply(s, size, steps[0]), size, steps[1..]);
    }
  }

  lemma {:induction false} TimelyRun(s: State, size: nat, steps: seq<Step>)
    requires Inv(s, size) && InOrder(s) && IsRun(s, size, steps) && AllTimely(s, size, steps)
    ensures AllIntact(s, size, steps) && InOrder(Final(s, size, steps))
    decreases |steps|
  {
    if steps != [] {
      StepInv(s, size, steps[0]);
      TimelyIsIntact(s, size, steps[0]);
      TimelyRun(Apply(s, size, steps[0]), size, steps[1..]);
    }
  }

  /** The packet consists of the parts of the record that imu_dgram_t keeps at these offsets, and its age at `now`. */
  ghost predicate MadeOf(p: Packet, s: seq<byte>, n: nat, now: int)
  {
    && |s| == 104
    && p.acc == s[4..16] && p.gyr == s[16..28] && p.mag == s[28..40] && p.quat == s[52..68]
    && p.imuTs == s[72..76] && p.devTs == s[80..88] && p.tsfTs == s[88..96]
    && p.seqNo == n % 0x1_0000_0000 == U4(s[96..100])
    && (now - I8(s[80..88]) - p.devDelay) % 0x1_0000_0000 == 0
  }

  lemma PacketIsMadeOf(s: Record, n: nat, now: int)
    requires SeqOf(s) == n % 0x1_0000_0000
    ensures MadeOf(TagPacket(FromBytes(s), now), s, n, now)
  {
    var d := FromBytes(s);
    BytesInverse(d, s);
    TagPacketReports(d, now, TagPacket(d, now));
  }

  /** Every packet is made of a record that was pushed, and packet k of none older than the k-th. */
  ghost predicate Genuine(t: State)
  {
    && |t.from| == |t.sent|
    && forall k :: 0 <= k < |t.sent| ==>
         && k + 1 <= t.from[k].index <= |t.ring.log|
         && MadeOf(t.sent[k], t.ring.log[t.from[k].index - 1], t.from[k].index - 1, t.from[k].now)
  }

  lemma PacketsAreGenuine(t: State, size: nat)
    requires Inv(t, size) && Authentic(t)
    ensures Genuine(t)
  {
    forall k | 0 <= k < |t.sent|
      ensures MadeOf(t.sent[k], t.ring.log[t.from[k].index - 1], t.from[k].index - 1, t.from[k].now)
    {
      PacketIsMadeOf(t.ring.log[t.from[k].index - 1], t.from[k].index - 1, t.from[k].now);
    }
  }

  /**
  In every interleaving in which no copy is overrun, every packet is a reading that was
  pushed, with its own number, and none is older than the cursor was.
  */
  lemma SendsPushedReadings(s: State, size: nat, steps: seq<Step>)
    requires Init(s, size) && IsRun(s, size, steps) && AllIntact(s, size, steps)
    ensures Genuine(Final(s, size, steps))
  {
    InitInv(s, size);
    RunFacts(s, size, steps);
    PacketsAreGenuine(Final(s, size, steps), size);
  }

  /** The records pushed, from the first on, in order, once each; a packet that was lost ended the session. */
  ghost predicate Lossless(t: State)
  {
    && |t.sent| == |t.from| == t.curr - (if t.live then 1 else 2) && |t.sent| <= |t.ring.log|
    && forall k :: 0 <= k < |t.sent| ==> MadeOf(t.sent[k], t.ring.log[k], k, t.from[k].now)
  }

  lemma InOrderIsLossless(t: State, size: nat)
    requires Inv(t, size) && Authentic(t) && InOrder(t)
    ensures Lossless(t)
  {
    PacketsAreGenuine(t, size);
    assert |t.sent| > 0 ==> t.from[|t.sent| - 1].index == |t.sent|;
    assert forall k :: 0 <= k < |t.sent| ==> t.from[k].index == k + 1;
  }

  /**
  In every interleaving in which the lag is below the ring size whenever a copy ends, the
  packets are exactly the readings pushed, in order, once each.
  */
  lemma SessionIsLossless(s: State, size: nat, steps: seq<Step>)
    requires Init(s, size) && IsRun(s, size, steps) && AllTimely(s, size, steps)
    ensures Lossless(Final(s, size, steps))
  {
    InitInv(s, size);
    TimelyRun(s, size, steps);
    RunFacts(s, size, steps);
    InOrderIsLossless(Final(s, size, steps), size);
  }

  // ----- one turn after the other -----

  function OnRings(steps: seq<R.Step>): seq<Step>
  {
    if steps == [] then [] else [OnRing(steps[0])] + OnRings(steps[1..])
  }

  lemma FirstStep(s: State, size: nat, step: Step, rest: seq<Step>)
    requires size >= 1 && |s.ring.mem| == size * WIDTH && Enabled(s, size, step)
    requires IsRun(Apply(s, size, step), size, rest)
    ensures IsRun(s, size, [step] + rest)
    ensures Final(s, size, [step] + rest) == Final(Apply(s, size, step), size, rest)
  {
    assert ([step] + rest)[1..] == rest;
  }

  lemma StepOnRing(s: State, size: nat, steps: seq<R.Step>, t: R.State)
    requires size >= 1 && |s.ring.mem| == size * WIDTH && R.InPeek(steps) && steps != []
    requires R.Enabled(s.ring, size, WIDTH, steps[0]) && t == R.Apply(s.ring, size, WIDTH, steps[0])
    ensures Enabled(s, size, OnRing(steps[0])) && Apply(s, size, OnRing(steps[0])) == s.(ring := t)
    ensures R.InPeek(steps[1..])
  {
  }

  lemma {:induction false} StepsOnRing(s: State, size: nat, steps: seq<R.Step>, t: State, rest: seq<Step>)
    requires size >= 1 && |s.ring.mem| == size * WIDTH && R.InPeek(steps) && R.IsRun(s.ring, size, WIDTH, steps)
    requires t == s.(ring := R.Final(s.ring, size, WIDTH, steps)) && IsRun(t, size, rest)
    ensures IsRun(s, size, OnRings(steps) + rest)
    ensures Final(s, size, OnRings(steps) + rest) == Final(t, size, rest)
    decreases |steps|
  {
    if steps == [] {
      assert t == s && OnRings(steps) + rest == rest;
    } else {
      var next := R.Apply(s.ring, size, WIDTH, steps[0]);
      StepOnRing(s, size, steps, next);
      StepsOnRing(s.(ring := next), size, steps[1..], t, rest);
      assert [OnRing(steps[0])] + (OnRings(steps[1..]) + rest) == OnRings(steps) + rest;
      FirstStep(s, size, OnRing(steps[0]), OnRings(steps[1..]) + rest);
    }
  }

  /** All steps of one turn of the client that sends something. */
  function PollSteps(peek: seq<R.Step>, now: int): seq<Step>
  {
    [Look] + (OnRings(peek) + ([Send(now, true)] + []))
  }

  lemma SendRuns(s: State, size: nat, now: int)
    requires size >= 1 && |s.ring.mem| == size * WIDTH && Enabled(s, size, Send(now, true))
    ensures IsRun(s, size, [Send(now, true)] + [])
    ensures Final(s, size, [Send(now, true)] + []) == Apply(s, size, Send(now, true))
  {
    FirstStep(s, size, Send(now, true), []);
  }

  lemma PollRuns(s: State, size: nat, peek: seq<R.Step>, end: R.State, now: int)
    requires Inv(s, size) && s.live && s.ring.cons.Resting? && s.curr < s.ring.head && R.InPeek(peek)
    requires R.IsRun(s.ring.(cons := R.Asked(s.curr)), size, WIDTH, peek)
    requires end == R.Final(s.ring.(cons := R.Asked(s.curr)), size, WIDTH, peek)
    requires end.cons.Finished? && end.cons.at >= 0 && |end.cons.item| == WIDTH
    ensures IsRun(s, size, PollSteps(peek, now))
    ensures Final(s, size, PollSteps(peek, now)) == Apply(s.(ring := end), size, Send(now, true))
  {
    var looked := s.(ring := s.ring.(cons := R.Asked(s.curr)));
    SendRuns(s.(ring := end), size, now);
    assert looked.(ring := end) == s.(ring := end);
    StepsOnRing(looked, size, peek, s.(ring := end), [Send(now, true)] + []);
    FirstStep(s, size, Look, OnRings(peek) + ([Send(now, true)] + []));
  }

  /** What one turn of the client changes when it sends the record at log position i. */
  ghost predicate SentOne(s: State, t: State, i: int, now: int)
  {
    && 0 <= i < |s.ring.log| && t.ring == s.ring && t.live && t.curr == s.curr + 1
    && |t.sent| == |s.sent| + 1 && t.sent[..|s.sent|] == s.sent
    && MadeOf(t.sent[|s.sent|], s.ring.log[i], i, now)
  }

  /** The steps can be taken, and what they come to is that this record has been sent. */
  ghost predicate RunSends(s: State, size: nat, steps: seq<Step>, i: int, now: int)
    requires size >= 1 && |s.ring.mem| == size * WIDTH
  {
    IsRun(s, size, steps) && SentOne(s, Final(s, size, steps), i, now)
  }

  lemma SendsCopy(s: State, size: nat, end: R.State, i: nat, now: int)
    requires Inv(s, size) && s.live && s.ring.cons.Resting?
    requires R.Copied(s.ring.(cons := R.Asked(s.curr)), end, i + 1)
    ensures |end.mem| == size * WIDTH && Enabled(s.(ring := end), size, Send(now, true))
    ensures SentOne(s, Apply(s.(ring := end), size, Send(now, true)), i, now)
  {
    PacketIsMadeOf(s.ring.log[i], i, now);
    assert end.(cons := R.Resting) == s.ring;
  }

  lemma PollSends(s: State, size: nat, peek: seq<R.Step>, i: nat, now: int)
    requires Inv(s, size) && s.live && s.ring.cons.Resting? && s.curr < s.ring.head && R.InPeek(peek)
    requires R.IsRun(s.ring.(cons := R.Asked(s.curr)), size, WIDTH, peek)
    requires R.Copied(s.ring.(cons := R.Asked(s.curr)), R.Final(s.ring.(cons := R.Asked(s.curr)), size, WIDTH, peek),
                      i + 1)
    ensures RunSends(s, size, PollSteps(peek, now), i, now)
  {
    var end := R.Final(s.ring.(cons := R.Asked(s.curr)), size, WIDTH, peek);
    SendsCopy(s, size, end, i, now);
    PollRuns(s, size, peek, end, now);
  }

  /**
  Alone, a client that has something to read can run to its end, and what it sends is the record at
  its cursor or, when it lags by the ring size or more, the newest one.
  */
  lemma UninterruptedPoll(s: State, size: nat, now: int) returns (steps: seq<Step>)
    requires Inv(s, size) && s.live && s.ring.prod.Idle? && s.ring.cons.Resting? && s.curr < s.ring.head
    ensures RunSends(s, size, steps, if s.curr + size <= s.ring.head then |s.ring.log| - 1 else s.curr - 1, now)
  {
    var i := if s.curr + size <= s.ring.head then |s.ring.log| - 1 else s.curr - 1;
    var peek := R.PeekRuns(s.ring.(cons := R.Asked(s.curr)), size, WIDTH, s.curr);
    PollSends(s, size, peek, i, now);
    steps := PollSteps(peek, now);
  }
}
