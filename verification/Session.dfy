/**
One streaming session: app_monitor (components/apps/monitor.c) pushes readings into
the ring, app_data_client (components/apps/network.c) peeks and sends them.
*/
module Session {
  import opened Arith
  import opened RingBuf
  import opened Datagram

  // ----- the session as a state machine -----

  /** Which entry a packet came from, and when it was tagged. */
  datatype Origin = Origin(index: nat, now: int)

  /** What was pushed, the next index to ask for, and what was sent, with the origin of each packet. */
  datatype State = State(log: seq<Reading>, curr: nat, sent: seq<Packet>, from: seq<Origin>, live: bool)

  datatype Event =
    | Push(reading: Reading)            // a reading of the sensor, not yet numbered
    | Poll(now: int, sendOk: bool)

  const START := State([], 1, [], [], true)

  ghost predicate StateOk(s: State)
  {
    1 <= s.curr && |s.from| == |s.sent|
  }

  /** The reading that the next push stores: `seq` counts from 0 and wraps at 2^32. */
  function NextReading(s: State, reading: Reading): Reading
  {
    reading.(seqNo := |s.log| % WRAP)
  }

  /** The reading with this index goes out, and the cursor advances. */
  function Sent(s: State, index: nat, now: int): State
    requires StateOk(s) && 1 <= index <= |s.log|
  {
    s.(curr := s.curr + 1,
       sent := s.sent + [TagPacket(s.log[index - 1], now)], from := s.from + [Origin(index, now)])
  }

  function Next(s: State, size: nat, e: Event): (t: State)
    requires size >= 2 && StateOk(s)
    ensures StateOk(t)
  {
    match e
    case Push(reading) => s.(log := s.log + [NextReading(s, reading)])
    case Poll(now, sendOk) =>
      if !s.live || s.curr > |s.log| then s
      else
        var index := PeekIndex(|s.log| + 1, size, s.curr).index;
        if sendOk then Sent(s, index, now) else s.(curr := s.curr + 1, live := false)
  }

  class Streaming {
    const ring: Ring
    var seqNo: nat
    var curr: int
    var confirm: int
    var live: bool
    var sent: seq<Packet>
    ghost var from: seq<Origin>
    ghost var log: seq<Reading>

    ghost predicate Valid()
      reads this, ring, ring.buf
    {
      && ring.Valid() && ring.itemWidth == WIDTH
      && |log| == |ring.log| && seqNo == |log| % WRAP
      && 1 <= curr && |from| == |sent|
      && (forall i :: 0 <= i < |log| ==> ring.log[i] == ToBytes(log[i]))
    }

    ghost function Abs(): (s: State)
      requires Valid()
      reads this, ring, ring.buf
      ensures StateOk(s)
    {
      State(log, curr, sent, from, live)
    }

    /** Both tasks start their inner loops on a ring that has just been reset. */
    constructor (ring: Ring)
      requires ring.Valid() && ring.itemWidth == WIDTH && ring.log == []
      ensures Valid() && this.ring == ring && Abs() == START
    {
      this.ring := ring;
      seqNo, curr, confirm, live := 0, 1, -1, true;
      sent, from, log := [], [], [];
    }

    /** One turn of the monitor loop with a successful read. */
    method MonitorTurn(imuData: Reading)
      requires Valid()
      modifies this`seqNo, this`log, ring, ring.buf
      ensures ring.buf == old(ring.buf) && ring.size == old(ring.size)
      ensures Valid() && Abs() == Next(old(Abs()), ring.size, Push(imuData))
    {
      var reading := imuData.(seqNo := seqNo);
      SeqWraps(|log|);
      seqNo := (seqNo + 1) % WRAP;
      ring.Push(ToBytes(reading));
      log := log + [reading];
    }

    /** One turn of the client loop. */
    method ClientTurn(now: int, sendOk: bool)
      requires Valid() && live
      modifies this`curr, this`confirm, this`live, this`sent, this`from
      ensures Valid() && Abs() == Next(old(Abs()), ring.size, Poll(now, sendOk))
      ensures |from| > |old(from)| ==> confirm == from[|from| - 1].index
    {
      if curr >= ring.head {
        return;
      }
      var err, bytes, index := ring.Peek(curr);
      confirm := index;
      if err != Ok {
        return;
      }
      curr := curr + 1;
      assert bytes == ToBytes(log[index - 1]);
      BytesInverse(log[index - 1], bytes);
      var packet := TagPacket(FromBytes(bytes), now);
      if sendOk {
        sent := sent + [packet];
        from := from + [Origin(index, now)];
      } else {
        live := false;
      }
    }
  }

  lemma SeqWraps(n: nat)
    ensures (n % WRAP + 1) % WRAP == (n + 1) % WRAP
  {
  }

  // ----- whole sessions -----

  function Run(s: State, size: nat, es: seq<Event>): (t: State)
    requires size >= 2 && StateOk(s)
    ensures StateOk(t)
    decreases |es|
  {
    if es == [] then s else Run(Next(s, size, es[0]), size, es[1..])
  }

  /** At every poll fewer than `size` pushes separate the client from the head. */
  ghost predicate LagBelowSize(s: State, size: nat, es: seq<Event>)
    requires size >= 2 && StateOk(s)
    decreases |es|
  {
    es != [] ==>
      && (es[0].Poll? ==> |s.log| + 1 - s.curr < size)
      && LagBelowSize(Next(s, size, es[0]), size, es[1..])
  }

  /** Sequence numbers count the pushes. */
  ghost predicate Numbered(s: State)
  {
    forall i :: 0 <= i < |s.log| ==> s.log[i].seqNo == i % 0x1_0000_0000
  }

  /** Packet k is made of the reading pushed with index from[k], at the time noted there. */
  ghost predicate Authentic(s: State)
    requires StateOk(s)
  {
    forall k :: 0 <= k < |s.sent| ==>
      1 <= s.from[k].index <= |s.log| && s.sent[k] == TagPacket(s.log[s.from[k].index - 1], s.from[k].now)
  }

  /** The k-th packet is never older than the k-th reading; a lost packet ends the session. */
  ghost predicate NotOlder(s: State)
    requires StateOk(s)
  {
    && s.curr == 1 + |s.sent| + (if s.live then 0 else 1)
    && forall k :: 0 <= k < |s.sent| ==> k + 1 <= s.from[k].index
  }

  ghost predicate InOrder(s: State)
    requires StateOk(s)
  {
    forall k :: 0 <= k < |s.sent| ==> s.from[k].index == k + 1
  }

  ghost predicate SessionInv(s: State)
  {
    StateOk(s) && Numbered(s) && Authentic(s) && NotOlder(s)
  }

  lemma PushInv(s: State, size: nat, e: Event)
    requires size >= 2 && SessionInv(s) && e.Push?
    ensures SessionInv(Next(s, size, e))
    ensures InOrder(s) ==> InOrder(Next(s, size, e))
  {
    var t := Next(s, size, e);
    assert forall i :: 0 <= i < |s.log| ==> t.log[i] == s.log[i];
  }

  /** A poll settles on an entry not older than the cursor, and on the cursor itself within the lag. */
  lemma PollIndex(n: nat, size: nat, curr: nat)
    requires size >= 2 && 1 <= curr <= n
    ensures PeekIndex(n + 1, size, curr).Settled?
    ensures curr <= PeekIndex(n + 1, size, curr).index <= n
    ensures n + 1 - curr < size ==> PeekIndex(n + 1, size, curr).index == curr
  {
  }

  lemma SendInv(s: State, index: nat, now: int)
    requires SessionInv(s) && s.live && s.curr <= index <= |s.log|
    ensures SessionInv(Sent(s, index, now))
    ensures InOrder(s) && index == s.curr ==> InOrder(Sent(s, index, now))
  {
    assert s.log[index - 1].seqNo == (index - 1) % WRAP;
  }

  lemma LostInv(s: State)
    requires SessionInv(s) && s.live
    ensures SessionInv(s.(curr := s.curr + 1, live := false))
  {
  }

  lemma PollInv(s: State, size: nat, e: Event)
    requires size >= 2 && SessionInv(s) && e.Poll?
    ensures SessionInv(Next(s, size, e))
    ensures InOrder(s) && |s.log| + 1 - s.curr < size ==> InOrder(Next(s, size, e))
  {
    if s.live && s.curr <= |s.log| {
      PollIndex(|s.log|, size, s.curr);
      if e.sendOk {
        SendInv(s, PeekIndex(|s.log| + 1, size, s.curr).index, e.now);
      } else {
        LostInv(s);
      }
    }
  }

  lemma NextInv(s: State, size: nat, e: Event)
    requires size >= 2 && SessionInv(s)
    ensures SessionInv(Next(s, size, e))
    ensures InOrder(s) && (e.Poll? ==> |s.log| + 1 - s.curr < size) ==> InOrder(Next(s, size, e))
  {
    if e.Push? {
      PushInv(s, size, e);
    } else {
      PollInv(s, size, e);
    }
  }

  lemma {:induction false} RunInv(s: State, size: nat, es: seq<Event>)
    requires size >= 2 && SessionInv(s)
    ensures SessionInv(Run(s, size, es))
    ensures InOrder(s) && LagBelowSize(s, size, es) ==> InOrder(Run(s, size, es))
    decreases |es|
  {
    if es != [] {
      NextInv(s, size, es[0]);
      RunInv(Next(s, size, es[0]), size, es[1..]);
    }
  }

  /** The readings that the monitor took from the sensor, in order. */
  function Pushes(es: seq<Event>): seq<Reading>
  {
    if es == [] then [] else (if es[0].Push? then [es[0].reading] else []) + Pushes(es[1..])
  }

  /** The ring holds the readings as they were measured, numbered from 0. */
  ghost predicate Logged(log: seq<Reading>, pushes: seq<Reading>)
  {
    |log| == |pushes| && forall i :: 0 <= i < |log| ==> log[i] == pushes[i].(seqNo := i % 0x1_0000_0000)
  }

  lemma {:induction false} RunLogs(s: State, size: nat, es: seq<Event>, before: seq<Reading>)
    requires size >= 2 && StateOk(s) && Logged(s.log, before)
    ensures Logged(Run(s, size, es).log, before + Pushes(es))
    decreases |es|
  {
    if es == [] {
      assert before + Pushes(es) == before;
    } else {
      var one := if es[0].Push? then [es[0].reading] else [];
      RunLogs(Next(s, size, es[0]), size, es[1..], before + one);
      assert before + one + Pushes(es[1..]) == before + Pushes(es);
    }
  }

  /** The packet carries what was measured, under its number n modulo 2^32, as of clock time `now`. */
  ghost predicate Carries(p: Packet, measured: Reading, n: nat, now: int)
  {
    && p.acc == measured.acc && p.gyr == measured.gyr && p.mag == measured.mag && p.quat == measured.quat
    && p.imuTs == measured.imuTs && p.devTs == measured.devTs && p.tsfTs == measured.tsfTs
    && p.seqNo == n % 0x1_0000_0000
    && (now - I8(measured.devTs) - p.devDelay) % 0x1_0000_0000 == 0
  }

  lemma PacketCarries(t: State, pushes: seq<Reading>, k: nat)
    requires SessionInv(t) && Logged(t.log, pushes) && k < |t.sent|
    ensures var i := t.from[k].index - 1;
            0 <= i < |pushes| && Carries(t.sent[k], pushes[i], i, t.from[k].now)
  {
    var d := t.log[t.from[k].index - 1];
    TagPacketReports(d, t.from[k].now, t.sent[k]);
    BytesInverse(d, Zeros(WIDTH));
  }

  /** Every packet carries a reading that was measured, and packet k none older than the k-th. */
  ghost predicate Genuine(t: State, pushes: seq<Reading>)
    requires StateOk(t)
  {
    forall k :: 0 <= k < |t.sent| ==>
      && k + 1 <= t.from[k].index <= |pushes|
      && Carries(t.sent[k], pushes[t.from[k].index - 1], t.from[k].index - 1, t.from[k].now)
  }

  lemma PacketsAreGenuine(t: State, pushes: seq<Reading>)
    requires SessionInv(t) && Logged(t.log, pushes)
    ensures Genuine(t, pushes)
  {
    forall k | 0 <= k < |t.sent|
      ensures Carries(t.sent[k], pushes[t.from[k].index - 1], t.from[k].index - 1, t.from[k].now)
    {
      PacketCarries(t, pushes, k);
    }
  }

  /** Whatever the lag, only readings that were measured are sent, none older than the client's cursor then. */
  lemma SessionSendsPushedReadings(size: nat, es: seq<Event>)
    requires size >= 2
    ensures Genuine(Run(START, size, es), Pushes(es))
  {
    RunInv(START, size, es);
    RunLogs(START, size, es, []);
    assert [] + Pushes(es) == Pushes(es);
    PacketsAreGenuine(Run(START, size, es), Pushes(es));
  }

  /** The readings measured, from the first on, in order, once each; a packet that was lost ended the session. */
  ghost predicate Lossless(t: State, pushes: seq<Reading>)
    requires StateOk(t)
  {
    && |t.sent| == t.curr - (if t.live then 1 else 2)
    && |t.sent| <= |pushes|
    && forall k :: 0 <= k < |t.sent| ==> Carries(t.sent[k], pushes[k], k, t.from[k].now)
  }

  lemma InOrderIsLossless(t: State, pushes: seq<Reading>)
    requires SessionInv(t) && InOrder(t) && Logged(t.log, pushes)
    ensures Lossless(t, pushes)
  {
    assert |t.sent| > 0 ==> t.from[|t.sent| - 1].index == |t.sent|;
    forall k | 0 <= k < |t.sent|
      ensures Carries(t.sent[k], pushes[k], k, t.from[k].now)
    {
      PacketCarries(t, pushes, k);
      assert t.from[k].index == k + 1;
    }
  }

  /** With the lag below the ring size the packets are exactly the readings, without loss or repetition. */
  lemma SessionIsLossless(size: nat, es: seq<Event>)
    requires size >= 2 && LagBelowSize(START, size, es)
    ensures Lossless(Run(START, size, es), Pushes(es))
  {
    RunInv(START, size, es);
    RunLogs(START, size, es, []);
    assert [] + Pushes(es) == Pushes(es);
    InOrderIsLossless(Run(START, size, es), Pushes(es));
  }

  /**
  A poll of a client that has something to read sends one packet, of the reading at its cursor or,
  when it lags by the ring size or more, of the newest one.
  */
  lemma PollSends(s: State, size: nat, now: int)
    requires size >= 2 && StateOk(s) && s.live && s.curr <= |s.log|
    ensures var t := Next(s, size, Poll(now, true));
            && t.live && t.log == s.log && t.curr == s.curr + 1
            && |t.sent| == |s.sent| + 1 && t.sent[..|s.sent|] == s.sent
            && Reports(t.sent[|s.sent|], s.log[if s.curr + size <= |s.log| + 1 then |s.log| - 1 else s.curr - 1], now)
  {
    var d := s.log[if s.curr + size <= |s.log| + 1 then |s.log| - 1 else s.curr - 1];
    PollIndex(|s.log|, size, s.curr);
    TagPacketReports(d, now, TagPacket(d, now));
    BytesInverse(d, Zeros(WIDTH));
  }

  // ----- a client that goes on polling gets everything -----

  function Polls(nows: seq<int>): seq<Event>
  {
    if nows == [] then [] else [Poll(nows[0], true)] + Polls(nows[1..])
  }

  lemma {:induction false} PollsDrain(s: State, size: nat, nows: seq<int>)
    requires size >= 2 && SessionInv(s) && InOrder(s) && s.live
    requires s.curr + |nows| == |s.log| + 1 && |nows| < size
    ensures var t := Run(s, size, Polls(nows));
            && SessionInv(t) && InOrder(t) && t.live && t.log == s.log && t.curr == |s.log| + 1
    decreases |nows|
  {
    if nows != [] {
      var e := Poll(nows[0], true);
      NextInv(s, size, e);
      PollSends(s, size, nows[0]);
      assert Polls(nows)[1..] == Polls(nows[1..]);
      PollsDrain(Next(s, size, e), size, nows[1..]);
    }
  }

  /** As many polls as the client lags behind, and every reading measured has been sent, once each, in order. */
  lemma EverythingArrives(size: nat, es: seq<Event>, nows: seq<int>)
    requires size >= 2 && LagBelowSize(START, size, es) && Run(START, size, es).live
    requires |Run(START, size, es).sent| + |nows| == |Pushes(es)| && |nows| < size
    ensures var t := Run(Run(START, size, es), size, Polls(nows));
            Lossless(t, Pushes(es)) && |t.sent| == |Pushes(es)|
  {
    RunInv(START, size, es);
    RunLogs(START, size, es, []);
    assert [] + Pushes(es) == Pushes(es);
    PollsDrain(Run(START, size, es), size, nows);
    InOrderIsLossless(Run(Run(START, size, es), size, Polls(nows)), Pushes(es));
  }

  // ----- exactly when the packets are in order -----

  /** A poll that sends something while the client lags by the ring size or more. */
  predicate SendsLate(s: State, size: nat, e: Event)
  {
    e.Poll? && e.sendOk && s.live && s.curr <= |s.log| && |s.log| + 1 - s.curr >= size
  }

  ghost predicate NeverSendsLate(s: State, size: nat, es: seq<Event>)
    requires size >= 2 && StateOk(s)
    decreases |es|
  {
    es != [] ==> !SendsLate(s, size, es[0]) && NeverSendsLate(Next(s, size, es[0]), size, es[1..])
  }

  lemma OrderStep(s: State, size: nat, e: Event)
    requires size >= 2 && SessionInv(s)
    ensures InOrder(Next(s, size, e)) <==> InOrder(s) && !SendsLate(s, size, e)
  {
    var t := Next(s, size, e);
    if e.Poll? && s.live && s.curr <= |s.log| {
      PollIndex(|s.log|, size, s.curr);
      if e.sendOk {
        assert t.from == s.from + [Origin(PeekIndex(|s.log| + 1, size, s.curr).index, e.now)];
        assert t.from[|s.sent|].index == PeekIndex(|s.log| + 1, size, s.curr).index && s.curr == |s.sent| + 1;
      }
    }
    assert InOrder(t) ==> forall k :: 0 <= k < |s.sent| ==> t.from[k] == s.from[k];
  }

  lemma {:induction false} OrderOfRun(s: State, size: nat, es: seq<Event>)
    requires size >= 2 && SessionInv(s)
    ensures InOrder(Run(s, size, es)) <==> InOrder(s) && NeverSendsLate(s, size, es)
    decreases |es|
  {
    if es != [] {
      NextInv(s, size, es[0]);
      OrderStep(s, size, es[0]);
      OrderOfRun(Next(s, size, es[0]), size, es[1..]);
    }
  }

  /** The k-th packet carries the k-th reading, for all k, exactly when no packet was sent late. */
  lemma InOrderIff(size: nat, es: seq<Event>)
    requires size >= 2
    ensures InOrder(Run(START, size, es)) <==> NeverSendsLate(START, size, es)
    ensures NeverSendsLate(START, size, es) ==> Lossless(Run(START, size, es), Pushes(es))
  {
    OrderOfRun(START, size, es);
    RunInv(START, size, es);
    RunLogs(START, size, es, []);
    assert [] + Pushes(es) == Pushes(es);
    if NeverSendsLate(START, size, es) {
      InOrderIsLossless(Run(START, size, es), Pushes(es));
    }
  }
}
