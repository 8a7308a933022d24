/** The poll loop of lib/hi229/hi229.c: from the bytes on the wire to the readings of the device. */
module Hi229Device {
  import opened Bytes
  import opened Hi229Payload
  import opened Hi229Stream

  /** The results of the parser, and the copy that the poll loop makes of a delivered node. */
  datatype Readings = Readings(parsed: Parsed, snapshot: seq<Cell>, stamp: int, ready: bool)

  /** Nothing has been delivered, and every byte is zero. */
  const POWER_ON := Readings(CLEARED, CLEARED.imu, 0, false)

  /** `now` is the clock reading if the byte completes a frame. */
  function AfterByte(d: Readings, out: Output, cs: seq<Chunk>, now: int): Readings
  {
    if out.Frame? then
      var p := Updated(d.parsed, out, cs);
      Readings(p, p.imu, now, true)
    else d
  }

  /** What a byte leads to, what its payload prints if it completes a frame, and the clock. */
  datatype Input = Input(out: Output, cs: seq<Chunk>, now: int)

  function AfterBytes(d: Readings, ins: seq<Input>): Readings
    decreases |ins|
  {
    if ins == [] then d else AfterBytes(AfterByte(d, ins[0].out, ins[0].cs, ins[0].now), ins[1..])
  }

  /** The outputs of consecutive bytes, of which the first is byte `at` of the stream. */
  function Zip(outs: seq<Output>, css: seq<seq<Chunk>>, clock: nat -> int, at: nat): (ins: seq<Input>)
    requires |outs| <= |css|
    ensures |ins| == |outs|
    ensures forall i :: 0 <= i < |outs| ==> ins[i] == Input(outs[i], css[i], clock(at + i))
  {
    seq(|outs|, i requires 0 <= i < |outs| => Input(outs[i], css[i], clock(at + i)))
  }

  /** Every frame delivered is a print of at most eight items. */
  ghost predicate AllParsable(outs: seq<Output>, css: seq<seq<Chunk>>)
  {
    |css| == |outs| && forall i :: 0 <= i < |outs| ==> Parsable(outs[i], css[i])
  }

  lemma {:induction false} AfterConcat(d: Readings, a: seq<Input>, b: seq<Input>)
    ensures AfterBytes(d, a + b) == AfterBytes(AfterBytes(d, a), b)
    decreases |a|
  {
    if a == [] {
      assert a + b == b;
    } else {
      assert (a + b)[1..] == a[1..] + b;
      AfterConcat(AfterByte(d, a[0].out, a[0].cs, a[0].now), a[1..], b);
    }
  }

  lemma AfterOneMore(d: Readings, a: seq<Input>, x: Input)
    ensures AfterBytes(d, a + [x]) == AfterByte(AfterBytes(d, a), x.out, x.cs, x.now)
  {
    AfterConcat(d, a, [x]);
    assert [x][1..] == [];
  }

  class Device {
    const raw: Raw
    var snapshot: seq<Cell>
    var stamp: int
    var ready: bool

    ghost predicate Valid()
      reads this, raw, raw.dec, raw.dec.buf
    {
      raw.Ready()
    }

    ghost function Abs(): Readings
      requires raw.Sized()
      reads this, raw, raw.imu, raw.itemCode
    {
      Readings(raw.Abs(), snapshot, stamp, ready)
    }

    constructor ()
      ensures Valid() && raw.dec.Abs() == Hunting(false)
      ensures fresh(raw) && fresh(raw.dec) && fresh(raw.dec.buf) && fresh(raw.imu) && fresh(raw.itemCode)
      ensures Abs() == Readings(CLEARED, CLEARED.imu, 0, false)
    {
      raw := new Raw();
      snapshot, stamp, ready := CLEARED.imu, 0, false;
    }

    /** The body of the loop for one byte. */
    method Feed(data: byte, now: int, ghost cs: seq<Chunk>) returns (ghost out: Output)
      requires Valid() && Parsable(Step(raw.dec.Abs(), data, true).1, cs)
      modifies this, raw, raw.dec, raw.dec.buf, raw.imu, raw.itemCode
      ensures Valid() && (raw.dec.Abs(), out) == Step(old(raw.dec.Abs()), data, true)
      ensures Abs() == AfterByte(old(Abs()), out, cs, now)
    {
      var code;
      code, out := raw.Input(data, true, cs);
      if code == 1 {
        snapshot := raw.imu[..];
        stamp := now;
        ready := true;
      }
    }

    /** The body of the loop, where idx bytes have been fed since the state `start` and the readings `first`. */
    method FeedNext(data: seq<byte>, idx: nat, clock: nat -> int, at: nat, ghost css: seq<seq<Chunk>>,
                    ghost start: State, ghost first: Readings, ghost outs: seq<Output>)
      returns (ghost more: seq<Output>)
      requires Valid() && idx < |data| && |outs| == idx
      requires AllParsable(Run(start, data, true).1, css)
      requires (raw.dec.Abs(), outs) == Run(start, data[..idx], true)
      requires Abs() == AfterBytes(first, Zip(outs, css, clock, at))
      modifies this, raw, raw.dec, raw.dec.buf, raw.imu, raw.itemCode
      ensures Valid() && |more| == idx + 1 && (raw.dec.Abs(), more) == Run(start, data[..idx + 1], true)
      ensures Abs() == AfterBytes(first, Zip(more, css, clock, at))
    {
      NextParsable(start, data, idx, css);
      var out := Feed(data[idx], clock(at + idx), css[idx]);
      ZipOneMore(first, outs, out, css, clock, at);
      more := outs + [out];
    }

    /** The loop over the bytes of one read; the clock is read when a frame is complete. */
    method Poll(data: seq<byte>, clock: nat -> int, at: nat, ghost css: seq<seq<Chunk>>)
      returns (ghost outs: seq<Output>)
      requires Valid() && AllParsable(Run(raw.dec.Abs(), data, true).1, css)
      modifies this, raw, raw.dec, raw.dec.buf, raw.imu, raw.itemCode
      ensures Valid() && (raw.dec.Abs(), outs) == Run(old(raw.dec.Abs()), data, true)
      ensures Abs() == AfterBytes(old(Abs()), Zip(outs, css, clock, at))
    {
      outs := [];
      ghost var start, first := raw.dec.Abs(), Abs();
      for idx := 0 to |data|
        invariant Valid() && |outs| == idx
        invariant (raw.dec.Abs(), outs) == Run(start, data[..idx], true)
        invariant Abs() == AfterBytes(first, Zip(outs, css, clock, at))
      {
        outs := FeedNext(data, idx, clock, at, css, start, first, outs);
      }
      assert data[..|data|] == data;
    }

    /** One turn of the endless loop, where the bytes `done` have been fed since `start` and `first`. */
    method PollNext(data: seq<byte>, clock: nat -> int, at: nat, ghost css: seq<seq<Chunk>>,
                    ghost start: State, ghost first: Readings, ghost done: seq<byte>, ghost outs: seq<Output>)
      returns (ghost more: seq<Output>)
      requires Valid() && |outs| == at && at + |data| <= |css|
      requires AllParsable(Run(raw.dec.Abs(), data, true).1, css[at..at + |data|])
      requires (raw.dec.Abs(), outs) == Run(start, done, true)
      requires Abs() == AfterBytes(first, Zip(outs, css, clock, 0))
      modifies this, raw, raw.dec, raw.dec.buf, raw.imu, raw.itemCode
      ensures Valid() && |more| == at + |data| && (raw.dec.Abs(), more) == Run(start, done + data, true)
      ensures Abs() == AfterBytes(first, Zip(more, css, clock, 0))
    {
      RunConcat(start, done, data, true);
      var now := Poll(data, clock, at, css[at..at + |data|]);
      ZipNext(first, outs, now, css, clock);
      more := outs + now;
    }

    /** The same with read k of a list of reads. */
    method PollNth(batches: seq<seq<byte>>, k: nat, clock: nat -> int, at: nat, ghost css: seq<seq<Chunk>>,
                   ghost start: State, ghost first: Readings, ghost outs: seq<Output>)
      returns (ghost more: seq<Output>)
      requires Valid() && k < |batches| && |outs| == at
      requires AllParsable(Run(start, Flatten(batches), true).1, css)
      requires (raw.dec.Abs(), outs) == Run(start, Flatten(batches[..k]), true)
      requires at <= |css| && Abs() == AfterBytes(first, Zip(outs, css, clock, 0))
      modifies this, raw, raw.dec, raw.dec.buf, raw.imu, raw.itemCode
      ensures Valid() && |more| == at + |batches[k]| <= |css|
      ensures (raw.dec.Abs(), more) == Run(start, Flatten(batches[..k + 1]), true)
      ensures Abs() == AfterBytes(first, Zip(more, css, clock, 0))
    {
      ReadOutputs(start, batches, k, css);
      FlattenLast(batches, k);
      more := PollNext(batches[k], clock, at, css, start, first, Flatten(batches[..k]), outs);
    }

    /** The endless loop itself, for the reads it makes in some time. */
    method PollTask(batches: seq<seq<byte>>, clock: nat -> int, ghost css: seq<seq<Chunk>>)
      returns (ghost outs: seq<Output>)
      requires Valid() && AllParsable(Run(raw.dec.Abs(), Flatten(batches), true).1, css)
      modifies this, raw, raw.dec, raw.dec.buf, raw.imu, raw.itemCode
      ensures Valid() && |outs| == |css| && (raw.dec.Abs(), outs) == Run(old(raw.dec.Abs()), Flatten(batches), true)
      ensures Abs() == AfterBytes(old(Abs()), Zip(outs, css, clock, 0))
    {
      outs := [];
      var at := 0;
      ghost var start, first := raw.dec.Abs(), Abs();
      for k := 0 to |batches|
        invariant Valid() && |outs| == at <= |css|
        invariant (raw.dec.Abs(), outs) == Run(start, Flatten(batches[..k]), true)
        invariant Abs() == AfterBytes(first, Zip(outs, css, clock, 0))
      {
        outs := PollNth(batches, k, clock, at, css, start, first, outs);
        at := at + |batches[k]|;
      }
      assert batches[..|batches|] == batches;
    }

    /** A hunting device that is fed a clean stream, however it is split into reads. */
    method PollStream(batches: seq<seq<byte>>, clock: nat -> int,
                      ghost parts: seq<Part>, ghost items: seq<seq<Chunk>>, ghost tail: seq<byte>)
      requires Valid() && raw.dec.Abs() == Hunting(false)
      requires Clean(parts) && NoSync(tail) && Carry(parts, items) && Flatten(batches) == Stream(parts, tail)
      modifies this, raw, raw.dec, raw.dec.buf, raw.imu, raw.itemCode
      ensures Valid()
      ensures EndsWith(old(Abs()), Carriers(parts, items), clock, Abs())
    {
      StreamUpdatesReadings(Abs(), batches, parts, items, tail, clock);
      ReadsDoNotMatter(Hunting(false), batches);
      var outs := PollTask(batches, clock, Lists(Carriers(parts, items), |tail|));
    }
  }

  /** From power-on: a new device that is fed a clean stream ends with the last item for every cell. */
  method PollNewDevice(batches: seq<seq<byte>>, clock: nat -> int,
                       ghost parts: seq<Part>, ghost items: seq<seq<Chunk>>, ghost tail: seq<byte>)
    returns (d: Device)
    requires Clean(parts) && NoSync(tail) && Carry(parts, items) && Flatten(batches) == Stream(parts, tail)
    ensures fresh(d) && d.Valid()
    ensures EndsWith(POWER_ON, Carriers(parts, items), clock, d.Abs())
  {
    d := new Device();
    d.PollStream(batches, clock, parts, items, tail);
  }

  lemma {:induction false} FlattenLast(batches: seq<seq<byte>>, k: nat)
    requires k < |batches|
    ensures Flatten(batches[..k + 1]) == Flatten(batches[..k]) + batches[k]
    decreases k
  {
    if k == 0 {
      assert batches[..1][1..] == [] && batches[..1][0] == batches[0];
    } else {
      assert batches[..k + 1][1..] == batches[1..][..k] && batches[..k][1..] == batches[1..][..k - 1];
      FlattenLast(batches[1..], k - 1);
    }
  }

  lemma {:induction false} FlattenPrefix(batches: seq<seq<byte>>, k: nat)
    requires k <= |batches|
    ensures Flatten(batches[..k]) <= Flatten(batches)
    decreases |batches| - k
  {
    if k == |batches| {
      assert batches[..k] == batches;
    } else {
      FlattenPrefix(batches, k + 1);
      FlattenLast(batches, k);
    }
  }

  /** The outputs of read k are the next part of the outputs of the whole stream. */
  lemma ReadOutputs(st: State, batches: seq<seq<byte>>, k: nat, css: seq<seq<Chunk>>)
    requires k < |batches| && AllParsable(Run(st, Flatten(batches), true).1, css)
    ensures var done := Flatten(batches[..k]);
            var mid := Run(st, done, true);
            var now := Run(mid.0, batches[k], true);
            && |done| + |batches[k]| <= |css|
            && AllParsable(now.1, css[|done|..|done| + |batches[k]|])
            && Run(st, Flatten(batches[..k + 1]), true) == (now.0, mid.1 + now.1)
  {
    var done, data, all := Flatten(batches[..k]), batches[k], Flatten(batches);
    FlattenLast(batches, k);
    FlattenPrefix(batches, k + 1);
    RunConcat(st, done, data, true);
    assert all == done + data + all[|done + data|..];
    MiddleOutputs(st, done, data, all[|done + data|..]);
    PartParsable(Run(st, all, true).1, css, |done|, |done| + |data|);
  }

  lemma MiddleOutputs(st: State, a: seq<byte>, b: seq<byte>, c: seq<byte>)
    ensures Run(st, a + b + c, true).1[|a|..|a| + |b|] == Run(Run(st, a, true).0, b, true).1
  {
    RunConcat(st, a, b, true);
    RunConcat(st, a + b, c, true);
    MiddlePart(Run(st, a, true).1, Run(Run(st, a, true).0, b, true).1, Run(Run(st, a + b, true).0, c, true).1);
  }

  lemma PartParsable(outs: seq<Output>, css: seq<seq<Chunk>>, lo: nat, hi: nat)
    requires lo <= hi <= |outs| && AllParsable(outs, css)
    ensures AllParsable(outs[lo..hi], css[lo..hi])
  {
  }

  lemma ZipNext(d: Readings, outs: seq<Output>, now: seq<Output>, css: seq<seq<Chunk>>, clock: nat -> int)
    requires |outs| + |now| <= |css|
    ensures AfterBytes(AfterBytes(d, Zip(outs, css, clock, 0)),
                       Zip(now, css[|outs|..|outs| + |now|], clock, |outs|))
         == AfterBytes(d, Zip(outs + now, css, clock, 0))
  {
    var a, b := Zip(outs, css, clock, 0), Zip(now, css[|outs|..|outs| + |now|], clock, |outs|);
    AfterConcat(d, a, b);
    assert a + b == Zip(outs + now, css, clock, 0);
  }

  lemma ZipOneMore(d: Readings, outs: seq<Output>, out: Output, css: seq<seq<Chunk>>, clock: nat -> int, at: nat)
    requires |outs| < |css|
    ensures var i := |outs|;
            AfterBytes(d, Zip(outs + [out], css, clock, at))
            == AfterByte(AfterBytes(d, Zip(outs, css, clock, at)), out, css[i], clock(at + i))
  {
    var i := |outs|;
    AfterOneMore(d, Zip(outs, css, clock, at), Input(out, css[i], clock(at + i)));
    assert Zip(outs + [out], css, clock, at) == Zip(outs, css, clock, at) + [Input(out, css[i], clock(at + i))];
  }

  /** Output i of a run is what byte i leads to. */
  lemma OutputAt(st: State, s: seq<byte>, i: nat)
    requires i < |s|
    ensures Run(st, s, true).1[i] == Step(Run(st, s[..i], true).0, s[i], true).1
  {
    RunOneMore(st, s, i, true);
    assert s == s[..i + 1] + s[i + 1..];
    RunConcat(st, s[..i + 1], s[i + 1..], true);
  }

  lemma NextParsable(st: State, s: seq<byte>, i: nat, css: seq<seq<Chunk>>)
    requires i < |s| && AllParsable(Run(st, s, true).1, css)
    ensures var x := Step(Run(st, s[..i], true).0, s[i], true);
            && Parsable(x.1, css[i])
            && Run(st, s[..i + 1], true) == (x.0, Run(st, s[..i], true).1 + [x.1])
  {
    OutputAt(st, s, i);
    RunOneMore(st, s, i, true);
  }

  // ----- the readings after a whole stream -----

  /** The effects of all items delivered, in order. */
  function AllEffects(ins: seq<Input>): (es: seq<Effect>)
    decreases |ins|
  {
    if ins == [] then []
    else (if ins[0].out.Frame? then Effects(ins[0].cs) else []) + AllEffects(ins[1..])
  }

  lemma {:induction false} PerformConcat(p: Parsed, a: seq<Effect>, b: seq<Effect>)
    ensures PerformAll(p, a + b) == PerformAll(PerformAll(p, a), b)
    decreases |a|
  {
    if a == [] {
      assert a + b == b;
    } else {
      assert (a + b)[1..] == a[1..] + b;
      PerformConcat(Perform(p, a[0]), a[1..], b);
    }
  }

  /** The list of codes has no influence on the cells. */
  lemma {:induction false} CodesDoNotMatter(p: Parsed, q: Parsed, es: seq<Effect>)
    requires p.imu == q.imu
    ensures PerformAll(p, es).imu == PerformAll(q, es).imu
    decreases |es|
  {
    if es != [] {
      CodesDoNotMatter(Perform(p, es[0]), Perform(q, es[0]), es[1..]);
    }
  }

  /** The cells are those of performing all items of all delivered frames in order. */
  lemma {:induction false} CellsAfter(d: Readings, ins: seq<Input>)
    ensures AfterBytes(d, ins).parsed.imu == PerformAll(d.parsed, AllEffects(ins)).imu
    decreases |ins|
  {
    if ins != [] {
      var next := AfterByte(d, ins[0].out, ins[0].cs, ins[0].now);
      var rest := AllEffects(ins[1..]);
      CellsAfter(next, ins[1..]);
      if ins[0].out.Frame? {
        var es := Effects(ins[0].cs);
        PerformConcat(d.parsed, es, rest);
        CodesDoNotMatter(d.parsed.(codes := []), d.parsed, es);
        CodesDoNotMatter(next.parsed, PerformAll(d.parsed, es), rest);
      } else {
        assert [] + rest == rest;
      }
    }
  }

  /** The items that the frames of a stream carry. */
  ghost predicate Carry(parts: seq<Part>, items: seq<seq<Chunk>>)
  {
    && |items| == |parts|
    && forall i :: 0 <= i < |parts| ==>
         && |parts[i].frame| >= HEADER && parts[i].frame[HEADER..] == PrintAll(items[i])
         && |Listed(Effects(items[i]))| <= 8
  }

  function Blank(n: nat): (css: seq<seq<Chunk>>)
    ensures |css| == n && forall i :: 0 <= i < n ==> css[i] == []
  {
    seq(n, _ => [])
  }

  /** Quiet bytes change nothing. */
  lemma {:induction false} QuietBytes(d: Readings, ins: seq<Input>)
    requires forall i :: 0 <= i < |ins| ==> ins[i].out == Quiet
    ensures AfterBytes(d, ins) == d && AllEffects(ins) == []
    decreases |ins|
  {
    if ins != [] {
      QuietBytes(d, ins[1..]);
    }
  }

  lemma {:induction false} EffectsConcat(a: seq<Input>, b: seq<Input>)
    ensures AllEffects(a + b) == AllEffects(a) + AllEffects(b)
    decreases |a|
  {
    if a == [] {
      assert a + b == b;
    } else {
      assert (a + b)[1..] == a[1..] + b && (a + b)[0] == a[0];
      EffectsConcat(a[1..], b);
      var first := if a[0].out.Frame? then Effects(a[0].cs) else [];
      assert first + (AllEffects(a[1..]) + AllEffects(b)) == first + AllEffects(a[1..]) + AllEffects(b);
    }
  }

  lemma ZipConcat(a: seq<Output>, b: seq<Output>, c: seq<seq<Chunk>>, e: seq<seq<Chunk>>, clock: nat -> int, at: nat)
    requires |a| == |c| && |b| == |e|
    ensures Zip(a + b, c + e, clock, at) == Zip(a, c, clock, at) + Zip(b, e, clock, at + |a|)
  {
    var whole, parts := Zip(a + b, c + e, clock, at), Zip(a, c, clock, at) + Zip(b, e, clock, at + |a|);
    forall i: nat | i < |whole|
      ensures whole[i] == parts[i]
    {
    }
  }

  /** n quiet bytes and then the last byte of a frame. */
  function FrameInputs(n: nat, payload: seq<byte>, cs: seq<Chunk>, clock: nat -> int, at: nat): (ins: seq<Input>)
    ensures |ins| == n + 1
  {
    Zip(Quiets(n), Blank(n), clock, at) + [Input(Frame(payload), cs, clock(at + n))]
  }

  lemma FrameUpdates(d: Readings, n: nat, payload: seq<byte>, cs: seq<Chunk>, clock: nat -> int, at: nat)
    ensures var p := PerformAll(d.parsed.(codes := []), Effects(cs));
            AfterBytes(d, FrameInputs(n, payload, cs, clock, at)) == Readings(p, p.imu, clock(at + n), true)
  {
    var quiet := Zip(Quiets(n), Blank(n), clock, at);
    QuietBytes(d, quiet);
    AfterOneMore(d, quiet, Input(Frame(payload), cs, clock(at + n)));
  }

  lemma FrameEffects(n: nat, payload: seq<byte>, cs: seq<Chunk>, clock: nat -> int, at: nat)
    ensures AllEffects(FrameInputs(n, payload, cs, clock, at)) == Effects(cs)
  {
    var quiet, last := Zip(Quiets(n), Blank(n), clock, at), Input(Frame(payload), cs, clock(at + n));
    QuietBytes(Readings(CLEARED, [], 0, false), quiet);
    EffectsConcat(quiet, [last]);
    assert [last][1..] == [];
    assert AllEffects([last]) == Effects(cs) + [];
    assert [] + Effects(cs) == Effects(cs);
  }

  /** A frame at the end of so many quiet bytes. */
  datatype Carrier = Carrier(quiet: nat, payload: seq<byte>, cs: seq<Chunk>)

  /** All items of a stream, frame by frame. */
  function ItemEffects(cars: seq<Carrier>): seq<Effect>
  {
    if cars == [] then [] else Effects(cars[0].cs) + ItemEffects(cars[1..])
  }

  function StreamInputs(cars: seq<Carrier>, tail: nat, clock: nat -> int, at: nat): seq<Input>
    decreases |cars|
  {
    if cars == [] then Zip(Quiets(tail), Blank(tail), clock, at)
    else
      FrameInputs(cars[0].quiet, cars[0].payload, cars[0].cs, clock, at)
      + StreamInputs(cars[1..], tail, clock, at + cars[0].quiet + 1)
  }

  function Carriers(parts: seq<Part>, items: seq<seq<Chunk>>): (cars: seq<Carrier>)
    requires |items| == |parts| && forall i :: 0 <= i < |parts| ==> |parts[i].frame| >= HEADER
    ensures |cars| == |parts|
    ensures forall i :: 0 <= i < |parts| ==>
              cars[i] == Carrier(|parts[i].noise| + |parts[i].frame| - 1, parts[i].frame[HEADER..], items[i])
  {
    seq(|parts|, i requires 0 <= i < |parts| =>
      Carrier(|parts[i].noise| + |parts[i].frame| - 1, parts[i].frame[HEADER..], items[i]))
  }

  /** What the decoder outputs for such frames, and the list of items at the last byte of each. */
  function Outputs(cars: seq<Carrier>, tail: nat): seq<Output>
  {
    if cars == [] then Quiets(tail)
    else Quiets(cars[0].quiet) + [Frame(cars[0].payload)] + Outputs(cars[1..], tail)
  }

  function Lists(cars: seq<Carrier>, tail: nat): (css: seq<seq<Chunk>>)
    ensures |css| == |Outputs(cars, tail)|
  {
    if cars == [] then Blank(tail) else Blank(cars[0].quiet) + [cars[0].cs] + Lists(cars[1..], tail)
  }

  lemma {:induction false} DeliveredOutputs(parts: seq<Part>, items: seq<seq<Chunk>>, tail: seq<byte>)
    requires |items| == |parts| && forall i :: 0 <= i < |parts| ==> |parts[i].frame| >= HEADER
    ensures Delivered(parts, tail) == Outputs(Carriers(parts, items), |tail|)
    decreases |parts|
  {
    if parts != [] {
      assert Carriers(parts, items)[1..] == Carriers(parts[1..], items[1..]);
      DeliveredOutputs(parts[1..], items[1..], tail);
    }
  }

  ghost predicate Printed(cars: seq<Carrier>)
  {
    forall i :: 0 <= i < |cars| ==>
      cars[i].payload == PrintAll(cars[i].cs) && |Listed(Effects(cars[i].cs))| <= 8
  }

  lemma PrependParsable(c: Carrier, outs: seq<Output>, css: seq<seq<Chunk>>)
    requires Printed([c]) && AllParsable(outs, css)
    ensures AllParsable(Quiets(c.quiet) + [Frame(c.payload)] + outs, Blank(c.quiet) + [c.cs] + css)
  {
    assert [c][0] == c;
    var n := c.quiet;
    var a, b := Quiets(n) + [Frame(c.payload)] + outs, Blank(n) + [c.cs] + css;
    assert Parsable(Frame(c.payload), c.cs) && a[n] == Frame(c.payload) && b[n] == c.cs;
    forall i | 0 <= i < |a|
      ensures Parsable(a[i], b[i])
    {
      if i < n {
        assert a[i] == Quiet;
      } else if i > n {
        assert a[i] == outs[i - n - 1] && b[i] == css[i - n - 1];
      }
    }
  }

  lemma {:induction false} ListsParsable(cars: seq<Carrier>, tail: nat)
    requires Printed(cars)
    ensures AllParsable(Outputs(cars, tail), Lists(cars, tail))
    decreases |cars|
  {
    if cars != [] {
      ListsParsable(cars[1..], tail);
      PrependParsable(cars[0], Outputs(cars[1..], tail), Lists(cars[1..], tail));
    }
  }

  lemma FrameZip(c: Carrier, outs: seq<Output>, css: seq<seq<Chunk>>, clock: nat -> int, at: nat)
    requires |outs| == |css|
    ensures Zip(Quiets(c.quiet) + [Frame(c.payload)] + outs, Blank(c.quiet) + [c.cs] + css, clock, at)
         == FrameInputs(c.quiet, c.payload, c.cs, clock, at) + Zip(outs, css, clock, at + c.quiet + 1)
  {
    ZipConcat(Quiets(c.quiet) + [Frame(c.payload)], outs, Blank(c.quiet) + [c.cs], css, clock, at);
    ZipConcat(Quiets(c.quiet), [Frame(c.payload)], Blank(c.quiet), [c.cs], clock, at);
  }

  lemma {:induction false} StreamZip(cars: seq<Carrier>, tail: nat, clock: nat -> int, at: nat)
    ensures Zip(Outputs(cars, tail), Lists(cars, tail), clock, at) == StreamInputs(cars, tail, clock, at)
    decreases |cars|
  {
    if cars != [] {
      FrameZip(cars[0], Outputs(cars[1..], tail), Lists(cars[1..], tail), clock, at);
      StreamZip(cars[1..], tail, clock, at + cars[0].quiet + 1);
    }
  }

  lemma FirstFrameItems(cars: seq<Carrier>, tail: nat, clock: nat -> int, at: nat)
    requires cars != []
    ensures AllEffects(StreamInputs(cars, tail, clock, at))
         == Effects(cars[0].cs) + AllEffects(StreamInputs(cars[1..], tail, clock, at + cars[0].quiet + 1))
  {
    var c := cars[0];
    FrameEffects(c.quiet, c.payload, c.cs, clock, at);
    EffectsConcat(FrameInputs(c.quiet, c.payload, c.cs, clock, at),
                  StreamInputs(cars[1..], tail, clock, at + c.quiet + 1));
  }

  lemma {:induction false} ItemsOfStream(cars: seq<Carrier>, tail: nat, clock: nat -> int, at: nat)
    ensures AllEffects(StreamInputs(cars, tail, clock, at)) == ItemEffects(cars)
    decreases |cars|
  {
    if cars == [] {
      QuietBytes(Readings(CLEARED, [], 0, false), StreamInputs(cars, tail, clock, at));
    } else {
      FirstFrameItems(cars, tail, clock, at);
      ItemsOfStream(cars[1..], tail, clock, at + cars[0].quiet + 1);
    }
  }

  /** A copy of the cells, made at this time, and the codes of this frame. */
  ghost predicate Reports(r: Readings, cs: seq<Chunk>, now: int)
  {
    r.ready && r.snapshot == r.parsed.imu && r.stamp == now && r.parsed.codes == Listed(Effects(cs))
  }

  /** The number of bytes up to the end of the last frame. */
  function Span(cars: seq<Carrier>): nat
  {
    if cars == [] then 0 else cars[0].quiet + 1 + Span(cars[1..])
  }

  lemma FrameReports(d: Readings, n: nat, payload: seq<byte>, cs: seq<Chunk>, clock: nat -> int, at: nat)
    ensures Reports(AfterBytes(d, FrameInputs(n, payload, cs, clock, at)), cs, clock(at + n))
  {
    FrameUpdates(d, n, payload, cs, clock, at);
    CodesAreListed(d.parsed.(codes := []), Effects(cs));
  }

  /** When the last frame was complete. */
  function LastTime(cars: seq<Carrier>, clock: nat -> int, at: nat): int
    requires cars != []
    decreases |cars|
  {
    if |cars| == 1 then clock(at + cars[0].quiet) else LastTime(cars[1..], clock, at + cars[0].quiet + 1)
  }

  lemma {:induction false} LastTimeIs(cars: seq<Carrier>, clock: nat -> int, at: nat)
    requires cars != []
    ensures LastTime(cars, clock, at) == clock(at + Span(cars) - 1)
    decreases |cars|
  {
    if |cars| > 1 {
      LastTimeIs(cars[1..], clock, at + cars[0].quiet + 1);
    }
  }

  lemma FirstFrameDone(d: Readings, cars: seq<Carrier>, tail: nat, clock: nat -> int, at: nat) returns (mid: Readings)
    requires cars != []
    ensures Reports(mid, cars[0].cs, clock(at + cars[0].quiet))
    ensures AfterBytes(d, StreamInputs(cars, tail, clock, at))
         == AfterBytes(mid, StreamInputs(cars[1..], tail, clock, at + cars[0].quiet + 1))
  {
    var c := cars[0];
    var front := FrameInputs(c.quiet, c.payload, c.cs, clock, at);
    mid := AfterBytes(d, front);
    AfterConcat(d, front, StreamInputs(cars[1..], tail, clock, at + c.quiet + 1));
    FrameReports(d, c.quiet, c.payload, c.cs, clock, at);
  }

  lemma NothingAfter(d: Readings, tail: nat, clock: nat -> int, at: nat)
    ensures AfterBytes(d, StreamInputs([], tail, clock, at)) == d
  {
    QuietBytes(d, StreamInputs([], tail, clock, at));
  }

  ghost predicate ReportsLast(r: Readings, cars: seq<Carrier>, clock: nat -> int, at: nat)
    requires cars != []
  {
    Reports(r, cars[|cars| - 1].cs, LastTime(cars, clock, at))
  }

  lemma OneFrameReports(r: Readings, cars: seq<Carrier>, clock: nat -> int, at: nat)
    requires |cars| == 1 && Reports(r, cars[0].cs, clock(at + cars[0].quiet))
    ensures ReportsLast(r, cars, clock, at)
  {
  }

  lemma LaterFrameReports(r: Readings, cars: seq<Carrier>, clock: nat -> int, at: nat)
    requires |cars| > 1 && ReportsLast(r, cars[1..], clock, at + cars[0].quiet + 1)
    ensures ReportsLast(r, cars, clock, at)
  {
    assert cars[1..][|cars| - 2] == cars[|cars| - 1];
  }

  lemma {:induction false} LastFrameReports(d: Readings, cars: seq<Carrier>, tail: nat, clock: nat -> int, at: nat)
    requires cars != []
    ensures ReportsLast(AfterBytes(d, StreamInputs(cars, tail, clock, at)), cars, clock, at)
    decreases |cars|
  {
    var next := at + cars[0].quiet + 1;
    var mid := FirstFrameDone(d, cars, tail, clock, at);
    if |cars| == 1 {
      assert cars[1..] == [];
      NothingAfter(mid, tail, clock, next);
      OneFrameReports(mid, cars, clock, at);
    } else {
      LastFrameReports(mid, cars[1..], tail, clock, next);
      LaterFrameReports(AfterBytes(mid, StreamInputs(cars[1..], tail, clock, next)), cars, clock, at);
    }
  }

  /**
  End to end: however a stream of frames of printed items between noise is split into
  reads, the cells end as performing all the items of all the frames in order leaves
  them, the snapshot is a copy of them, and the codes are those of the last frame.
  */
  lemma StreamUpdatesReadings(d: Readings, batches: seq<seq<byte>>, parts: seq<Part>, items: seq<seq<Chunk>>,
                              tail: seq<byte>, clock: nat -> int)
    requires Clean(parts) && NoSync(tail) && Carry(parts, items)
    requires Flatten(batches) == Stream(parts, tail)
    ensures var outs, css := RunReads(Hunting(false), batches).1, Lists(Carriers(parts, items), |tail|);
            && AllParsable(outs, css)
            && EndsWith(d, Carriers(parts, items), clock, AfterBytes(d, Zip(outs, css, clock, 0)))
  {
    PollingDeliversFrames(batches, parts, tail);
    DeliveredOutputs(parts, items, tail);
    CarryPrinted(parts, items);
    ListsParsable(Carriers(parts, items), |tail|);
    CarriersUpdate(d, Carriers(parts, items), |tail|, clock);
  }

  lemma CarryPrinted(parts: seq<Part>, items: seq<seq<Chunk>>)
    requires Carry(parts, items)
    ensures Printed(Carriers(parts, items))
  {
  }

  ghost predicate CellsOfItems(d: Readings, cars: seq<Carrier>, r: Readings)
  {
    r.parsed.imu == PerformAll(d.parsed, ItemEffects(cars)).imu
  }

  ghost predicate EndReport(d: Readings, cars: seq<Carrier>, clock: nat -> int, r: Readings)
  {
    if cars == [] then r == d else Reports(r, cars[|cars| - 1].cs, clock(Span(cars) - 1))
  }

  /** The cells are those of all items in order; the report is that of the last frame, at its last byte. */
  ghost predicate EndsWith(d: Readings, cars: seq<Carrier>, clock: nat -> int, r: Readings)
  {
    CellsOfItems(d, cars, r) && EndReport(d, cars, clock, r)
  }

  lemma CarriersUpdate(d: Readings, cars: seq<Carrier>, tail: nat, clock: nat -> int)
    ensures EndsWith(d, cars, clock, AfterBytes(d, Zip(Outputs(cars, tail), Lists(cars, tail), clock, 0)))
  {
    var r := AfterBytes(d, Zip(Outputs(cars, tail), Lists(cars, tail), clock, 0));
    CarriersCells(d, cars, tail, clock);
    assert r == AfterBytes(d, StreamInputs(cars, tail, clock, 0)) by {
      StreamZip(cars, tail, clock, 0);
    }
    if cars == [] {
      NothingAfter(d, tail, clock, 0);
    } else {
      LastFrameReports(d, cars, tail, clock, 0);
    }
    EndReached(d, cars, clock, r);
  }

  lemma EndReached(d: Readings, cars: seq<Carrier>, clock: nat -> int, r: Readings)
    requires if cars == [] then r == d else ReportsLast(r, cars, clock, 0)
    ensures EndReport(d, cars, clock, r)
  {
    if cars != [] {
      LastTimeIs(cars, clock, 0);
      var cs, now := cars[|cars| - 1].cs, LastTime(cars, clock, 0);
      assert Reports(r, cs, now) && now == clock(Span(cars) - 1);
    }
  }

  /** Item k is the last of the stream that sets this cell. */
  ghost predicate LastToSet(es: seq<Effect>, k: nat, cell: nat)
  {
    k < |es| && es[k].patch.Sets(cell) && forall j :: k < j < |es| ==> !es[j].patch.Sets(cell)
  }

  /** The cell holds what the item wrote there. */
  ghost predicate HoldsWritten(r: Readings, e: Effect, cell: nat)
  {
    cell < |r.parsed.imu| && e.patch.Sets(cell) && r.parsed.imu[cell] == e.patch.cells[cell - e.patch.base]
  }

  lemma CellAfterItems(d: Readings, es: seq<Effect>, r: Readings, k: nat, cell: nat)
    requires cell < |d.parsed.imu| && LastToSet(es, k, cell) && r.parsed.imu == PerformAll(d.parsed, es).imu
    ensures k < |es| && HoldsWritten(r, es[k], cell)
  {
    LastWriterWins(d.parsed, es, k, cell);
  }

  lemma CarriersCells(d: Readings, cars: seq<Carrier>, tail: nat, clock: nat -> int)
    ensures CellsOfItems(d, cars, AfterBytes(d, Zip(Outputs(cars, tail), Lists(cars, tail), clock, 0)))
  {
    StreamZip(cars, tail, clock, 0);
    ItemsOfStream(cars, tail, clock, 0);
    CellsAfter(d, StreamInputs(cars, tail, clock, 0));
  }

  /** So a cell ends with what the last item of the stream that sets it wrote. */
  lemma StreamLastWriterWins(d: Readings, cars: seq<Carrier>, tail: nat, clock: nat -> int, k: nat, cell: nat)
    requires cell < |d.parsed.imu| && LastToSet(ItemEffects(cars), k, cell)
    ensures var r := AfterBytes(d, Zip(Outputs(cars, tail), Lists(cars, tail), clock, 0));
            HoldsWritten(r, ItemEffects(cars)[k], cell)
  {
    CarriersCells(d, cars, tail, clock);
    var r := AfterBytes(d, Zip(Outputs(cars, tail), Lists(cars, tail), clock, 0));
    CellAfterItems(d, ItemEffects(cars), r, k, cell);
  }
}
