/** The byte-at-a-time frame decoder of lib/hi229/hi229_serial.c. */
module Hi229Stream {
  import opened Bytes
  import opened Crc16
  import opened Gf2

  const SYNC1: byte := 0x5A
  const SYNC2: byte := 0xA5
  const HEADER := 6
  const MAX_RAW := 512

  /** What one input byte leads to; the C function returns 0, -1, -1 and 1. */
  datatype Output = Quiet | LengthError | ChecksumError | Frame(payload: seq<byte>)

  function Code(o: Output): int
  {
    match o
    case Quiet => 0
    case LengthError => -1
    case ChecksumError => -1
    case Frame(_) => 1
  }

  /** The 16-bit word that two bytes hold, low byte first. */
  function WordOf(lo: byte, hi: byte): Reg
  {
    ByteBits(hi) + ByteBits(lo)
  }

  /** The length field of a header. */
  function Length(header: seq<byte>): nat
    requires |header| >= 4
  {
    U2(header[2], header[3])
  }

  /** The checksum covers everything but its own two bytes. */
  function Covered(frame: seq<byte>): seq<byte>
    requires |frame| >= HEADER
  {
    frame[..4] + frame[HEADER..]
  }

  predicate ChecksumOk(frame: seq<byte>)
    requires |frame| >= HEADER
  {
    FeedAll(POLY, Zeros(16), MessageBits(Covered(frame))) == WordOf(frame[4], frame[5])
  }

  function Judge(frame: seq<byte>, check: bool): Output
    requires |frame| >= HEADER
  {
    if !check || ChecksumOk(frame) then Frame(frame[HEADER..]) else ChecksumError
  }

  // ----- the whole-stream scanner -----

  predicate SyncAt(s: seq<byte>, i: nat)
  {
    i + 1 < |s| && s[i] == SYNC1 && s[i + 1] == SYNC2
  }

  ghost predicate NoSync(s: seq<byte>)
  {
    forall i: nat :: !SyncAt(s, i)
  }

  lemma SyncAtTail(s: seq<byte>)
    requires s != []
    ensures forall j: nat :: 0 < j ==> SyncAt(s, j) == SyncAt(s[1..], j - 1)
  {
  }

  /** The first sync pair, or |s| when there is none. */
  function FindSync(s: seq<byte>): (i: nat)
    ensures i <= |s|
    ensures i < |s| ==> SyncAt(s, i)
    ensures forall j: nat :: j < i ==> !SyncAt(s, j)
  {
    if |s| < 2 then |s|
    else if SyncAt(s, 0) then 0
    else
      SyncAtTail(s);
      FindSync(s[1..]) + 1
  }

  function Quiets(n: nat): (r: seq<Output>)
    ensures |r| == n && forall i :: 0 <= i < n ==> r[i] == Quiet
  {
    seq(n, _ => Quiet)
  }

  /** The first frame or bad header of a stream: from its sync pair up to `end`. */
  datatype Cut = Nothing | Cut(start: nat, end: nat, bad: bool)

  function FirstCut(s: seq<byte>): (c: Cut)
    ensures c.Cut? ==> SyncAt(s, c.start) && c.start + HEADER <= c.end <= |s|
  {
    var i := FindSync(s);
    if i + HEADER > |s| then Nothing
    else
      var len := Length(s[i..]);
      if len > MAX_RAW - HEADER then Cut(i, i + HEADER, true)
      else if i + HEADER + len > |s| then Nothing
      else Cut(i, i + HEADER + len, false)
  }

  function Verdict(s: seq<byte>, c: Cut, check: bool): Output
    requires c.Cut? && c.start + HEADER <= c.end <= |s|
  {
    if c.bad then LengthError else Judge(s[c.start..c.end], check)
  }

  /** Cut the stream at sync pairs and length fields; one output for each byte. */
  function Scan(s: seq<byte>, check: bool): (out: seq<Output>)
    ensures |out| == |s|
    decreases |s|
  {
    var c := FirstCut(s);
    if c.Nothing? then Quiets(|s|)
    else Quiets(c.end - 1) + [Verdict(s, c, check)] + Scan(s[c.end..], check)
  }

  // ----- the decoder as a state machine -----

  /** Hunting remembers whether the last byte was the first sync byte. */
  datatype State = Hunting(armed: bool) | Collecting(got: seq<byte>)

  ghost predicate ValidState(st: State)
  {
    st.Collecting? ==>
      && 2 <= |st.got| && SyncAt(st.got, 0)
      && (|st.got| >= HEADER ==>
            Length(st.got) <= MAX_RAW - HEADER && |st.got| < HEADER + Length(st.got))
  }

  function Step(st: State, data: byte, check: bool): (r: (State, Output))
  {
    match st
    case Hunting(armed) =>
      if armed && data == SYNC2 then (Collecting([SYNC1, SYNC2]), Quiet)
      else (Hunting(data == SYNC1), Quiet)
    case Collecting(got) =>
      var g := got + [data];
      if |g| < HEADER then (Collecting(g), Quiet)
      else if |g| == HEADER && Length(g) > MAX_RAW - HEADER then (Hunting(false), LengthError)
      else if |g| < HEADER + Length(g) then (Collecting(g), Quiet)
      else (Hunting(false), Judge(g, check))
  }

  lemma StepKeepsValid(st: State, data: byte, check: bool)
    requires ValidState(st)
    ensures ValidState(Step(st, data, check).0)
  {
  }

  function Run(st: State, s: seq<byte>, check: bool): (r: (State, seq<Output>))
    ensures |r.1| == |s|
    decreases |s|
  {
    if s == [] then (st, [])
    else
      var (next, out) := Step(st, s[0], check);
      var (last, rest) := Run(next, s[1..], check);
      (last, [out] + rest)
  }

  class Decoder {
    var nbyte: int
    var len: int
    const buf: array<byte>

    ghost predicate Valid()
      reads this, buf
    {
      && buf.Length == MAX_RAW
      && 0 <= nbyte < MAX_RAW && nbyte != 1
      && 0 <= len
      && (nbyte >= 2 ==> buf[0] == SYNC1 && buf[1] == SYNC2)
      && (nbyte >= HEADER ==> len == Length(buf[..4]) && len <= MAX_RAW - HEADER && nbyte < len + HEADER)
    }

    /** Neither `len` before the header is complete nor the bytes above `nbyte` are part of the state. */
    ghost function Abs(): State
      requires Valid()
      reads this, buf
    {
      if nbyte == 0 then Hunting(buf[1] == SYNC1) else Collecting(buf[..nbyte])
    }

    constructor ()
      ensures Valid() && fresh(buf)
      ensures Abs() == Hunting(false)
    {
      buf := new byte[MAX_RAW](_ => 0);
      nbyte, len := 0, 0;
    }

    /** hi229_buffer_reset: clear the whole decoder. */
    method Reset()
      requires Valid()
      modifies this, buf
      ensures Valid() && Abs() == Hunting(false)
    {
      forall i | 0 <= i < buf.Length {
        buf[i] := 0;
      }
      nbyte, len := 0, 0;
    }

    method SyncCh(data: byte) returns (found: bool)
      requires Valid()
      modifies buf
      ensures found == (old(buf[1]) == SYNC1 && data == SYNC2)
      ensures buf[0] == old(buf[1]) && buf[1] == data
      ensures forall i :: 2 <= i < buf.Length ==> buf[i] == old(buf[i])
    {
      buf[0] := buf[1];
      buf[1] := data;
      found := buf[0] == SYNC1 && buf[1] == SYNC2;
    }

    /** The verdict on a complete frame; the payload stays in the buffer for the parser. */
    method DecodeCh(check: bool) returns (out: Output)
      requires buf.Length == MAX_RAW && 0 <= len <= MAX_RAW - HEADER
      ensures out == Judge(buf[..HEADER + len], check)
    {
      ghost var frame := buf[..HEADER + len];
      assert frame[HEADER..] == buf[HEADER..HEADER + len];
      if !check {
        return Frame(buf[HEADER..HEADER + len]);
      }
      assert frame[..4] == buf[..4];
      var crc := Update(Zeros(16), buf[..4]);
      crc := Update(crc, buf[HEADER..HEADER + len]);
      UpdateComposes(Zeros(16), frame[..4], frame[HEADER..]);
      if crc != WordOf(buf[4], buf[5]) {
        return ChecksumError;
      }
      out := Frame(buf[HEADER..HEADER + len]);
    }

    method Input(data: byte, check: bool) returns (code: int, out: Output)
      requires Valid()
      modifies this, buf
      ensures Valid()
      ensures (Abs(), out) == Step(old(Abs()), data, check)
      ensures code == if out.Quiet? then 0 else if out.Frame? then 1 else -1
      ensures out.Frame? ==> len <= MAX_RAW - HEADER && out.payload == buf[HEADER..HEADER + len]
    {
      out := Quiet;
      if nbyte == 0 {
        var found := SyncCh(data);
        if !found { return 0, Quiet; }
        nbyte := 2;
        assert buf[..nbyte] == [SYNC1, SYNC2];
        return 0, Quiet;
      }

      ghost var got := buf[..nbyte];
      buf[nbyte] := data;
      nbyte := nbyte + 1;
      ghost var g := buf[..nbyte];
      assert g == got + [data];

      if nbyte == HEADER {
        len := U2(buf[2], buf[3]);
        if len > MAX_RAW - HEADER {
          nbyte := 0;
          return -1, LengthError;
        }
      }

      if nbyte < len + HEADER {
        assert nbyte >= HEADER ==> Length(g) == len;
        return 0, Quiet;
      }

      nbyte := 0;
      out := DecodeCh(check);
      code := Code(out);
    }
  }

  // ----- the decoder refines the scanner -----

  lemma {:induction false} RunConcat(st: State, s: seq<byte>, t: seq<byte>, check: bool)
    ensures Run(st, s + t, check).0 == Run(Run(st, s, check).0, t, check).0
    ensures Run(st, s + t, check).1 == Run(st, s, check).1 + Run(Run(st, s, check).0, t, check).1
    decreases |s|
  {
    if s == [] {
      assert s + t == t;
    } else {
      var next := Step(st, s[0], check).0;
      assert (s + t)[1..] == s[1..] + t;
      RunConcat(next, s[1..], t, check);
      assert Run(st, s, check).1 == [Step(st, s[0], check).1] + Run(next, s[1..], check).1;
    }
  }

  lemma RunSingle(st: State, d: byte, check: bool)
    ensures Run(st, [d], check).0 == Step(st, d, check).0
    ensures Run(st, [d], check).1 == [Step(st, d, check).1]
  {
    var next := Step(st, d, check).0;
    assert [d][1..] == [];
    assert Run(next, [], check) == (next, []);
  }

  lemma RunOneMore(st: State, s: seq<byte>, i: nat, check: bool)
    requires i < |s|
    ensures Run(st, s[..i + 1], check).0 == Step(Run(st, s[..i], check).0, s[i], check).0
    ensures Run(st, s[..i + 1], check).1
         == Run(st, s[..i], check).1 + [Step(Run(st, s[..i], check).0, s[i], check).1]
  {
    assert s[..i + 1] == s[..i] + [s[i]];
    RunConcat(st, s[..i], [s[i]], check);
    RunSingle(Run(st, s[..i], check).0, s[i], check);
  }

  lemma {:induction false} RunKeepsValid(st: State, s: seq<byte>, check: bool)
    requires ValidState(st)
    ensures ValidState(Run(st, s, check).0)
    decreases |s|
  {
    if s != [] {
      RunKeepsValid(Step(st, s[0], check).0, s[1..], check);
    }
  }

  lemma {:induction false} HuntReachesSync(armed: bool, s: seq<byte>, i: nat, check: bool)
    requires SyncAt(s, i) && forall j: nat :: j < i ==> !SyncAt(s, j)
    requires armed ==> s[0] != SYNC2
    ensures Run(Hunting(armed), s[..i + 2], check) == (Collecting([SYNC1, SYNC2]), Quiets(i + 2))
    decreases i
  {
    var head := s[..i + 2];
    if i == 0 {
      assert head[1..] == [SYNC2];
      RunSingle(Hunting(true), SYNC2, check);
    } else {
      assert head[1..] == s[1..][..i + 1];
      SyncAtTail(s);
      assert forall j: nat :: SyncAt(s[1..], j) ==> SyncAt(s, j + 1);
      assert !SyncAt(s, 0);
      HuntReachesSync(s[0] == SYNC1, s[1..], i - 1, check);
    }
    assert Run(Hunting(armed), head, check).1 == Quiets(i + 2);
  }

  lemma {:induction false} HuntFindsNothing(armed: bool, s: seq<byte>, check: bool)
    requires NoSync(s)
    requires armed && s != [] ==> s[0] != SYNC2
    ensures Run(Hunting(armed), s, check).0.Hunting?
    ensures Run(Hunting(armed), s, check).1 == Quiets(|s|)
    decreases |s|
  {
    if s != [] {
      SyncAtTail(s);
      assert forall j: nat :: SyncAt(s[1..], j) ==> SyncAt(s, j + 1);
      assert !SyncAt(s, 0);
      HuntFindsNothing(s[0] == SYNC1, s[1..], check);
    }
  }

  /** The bytes so far are a proper beginning of a frame. */
  predicate Unfinished(g: seq<byte>)
  {
    |g| < HEADER || (Length(g) <= MAX_RAW - HEADER && |g| < HEADER + Length(g))
  }

  lemma {:induction false} CollectQuietly(got: seq<byte>, t: seq<byte>, check: bool)
    requires |got| >= 2 && Unfinished(got + t)
    ensures Run(Collecting(got), t, check) == (Collecting(got + t), Quiets(|t|))
    decreases |t|
  {
    if t == [] {
      assert got + t == got;
    } else {
      var g := got + [t[0]];
      assert g + t[1..] == got + t;
      assert |g| >= 4 ==> Length(g) == Length(got + t);
      assert Step(Collecting(got), t[0], check) == (Collecting(g), Quiet);
      CollectQuietly(g, t[1..], check);
      assert [Quiet] + Quiets(|t| - 1) == Quiets(|t|);
    }
  }

  /** The byte that completes a frame or a bad header decides. */
  lemma LastByte(s: seq<byte>, check: bool)
    requires FirstCut(s).Cut?
    ensures var c := FirstCut(s);
            Step(Collecting(s[c.start..c.end - 1]), s[c.end - 1], check) == (Hunting(false), Verdict(s, c, check))
  {
    var c := FirstCut(s);
    var frame := s[c.start..c.end];
    assert s[c.start..c.end - 1] + [s[c.end - 1]] == frame;
    assert Length(frame) == Length(s[c.start..]);
  }

  /** Up to the last byte of its first frame or bad header a stream is quiet. */
  lemma FirstCutQuiet(s: seq<byte>, check: bool)
    requires FirstCut(s).Cut?
    ensures var c := FirstCut(s);
            Run(Hunting(false), s[..c.end - 1], check) == (Collecting(s[c.start..c.end - 1]), Quiets(c.end - 1))
  {
    var c := FirstCut(s);
    var head, body, got := s[..c.start + 2], s[c.start + 2..c.end - 1], s[c.start..c.end - 1];
    HuntReachesSync(false, s, c.start, check);
    assert [SYNC1, SYNC2] + body == got;
    assert |got| >= 4 ==> Length(got) == Length(s[c.start..]);
    CollectQuietly([SYNC1, SYNC2], body, check);
    assert head + body == s[..c.end - 1];
    RunConcat(Hunting(false), head, body, check);
    assert Quiets(c.start + 2) + Quiets(|body|) == Quiets(c.end - 1);
  }

  /** From the start of a stream to the end of its first frame or bad header. */
  lemma FirstCutOutput(s: seq<byte>, check: bool)
    requires FirstCut(s).Cut?
    ensures var c := FirstCut(s);
            Run(Hunting(false), s[..c.end], check) == (Hunting(false), Quiets(c.end - 1) + [Verdict(s, c, check)])
  {
    FirstCutQuiet(s, check);
    LastByte(s, check);
    RunOneMore(Hunting(false), s, FirstCut(s).end - 1, check);
  }

  lemma NoSyncFound(s: seq<byte>)
    requires FindSync(s) == |s|
    ensures NoSync(s)
  {
  }

  /** An unfinished frame at the end of the stream gives no output. */
  lemma UnfinishedOutput(s: seq<byte>, i: nat, check: bool)
    requires i == FindSync(s) < |s| && Unfinished(s[i..])
    ensures Run(Hunting(false), s, check).1 == Quiets(|s|)
  {
    var head, t := s[..i + 2], s[i + 2..];
    HuntReachesSync(false, s, i, check);
    assert [SYNC1, SYNC2] + t == s[i..];
    CollectQuietly([SYNC1, SYNC2], t, check);
    assert head + t == s;
    RunConcat(Hunting(false), head, t, check);
    assert Quiets(i + 2) + Quiets(|t|) == Quiets(|s|);
  }

  lemma NothingOutput(s: seq<byte>, check: bool)
    requires FirstCut(s).Nothing?
    ensures Run(Hunting(false), s, check).1 == Quiets(|s|)
  {
    var i := FindSync(s);
    if i == |s| {
      NoSyncFound(s);
      HuntFindsNothing(false, s, check);
    } else {
      UnfinishedOutput(s, i, check);
    }
  }

  /** For every byte stream the decoder gives exactly the scanner's outputs. */
  lemma {:induction false} DecoderIsScanner(s: seq<byte>, check: bool)
    ensures Run(Hunting(false), s, check).1 == Scan(s, check)
    decreases |s|
  {
    var c := FirstCut(s);
    if c.Nothing? {
      NothingOutput(s, check);
    } else {
      FirstCutOutput(s, check);
      DecoderIsScanner(s[c.end..], check);
      assert s[..c.end] + s[c.end..] == s;
      RunConcat(Hunting(false), s[..c.end], s[c.end..], check);
    }
  }

  // ----- streams of frames and noise -----

  ghost predicate WellFormed(frame: seq<byte>)
  {
    && |frame| >= HEADER && SyncAt(frame, 0)
    && |frame| == HEADER + Length(frame) <= MAX_RAW
    && ChecksumOk(frame)
  }

  /** The frame that carries a payload. */
  function FrameFor(payload: seq<byte>): (f: seq<byte>)
    requires |payload| <= MAX_RAW - HEADER
    ensures |f| == HEADER + |payload| && f[HEADER..] == payload
  {
    var lead := [SYNC1, SYNC2, (|payload| % 256) as byte, (|payload| / 256) as byte];
    var crc := FeedAll(POLY, Zeros(16), MessageBits(lead + payload));
    lead + [BitsByte(crc[8..]), BitsByte(crc[..8])] + payload
  }

  /** Every payload that fits has a well-formed frame, which delivers exactly that payload. */
  lemma EveryPayloadHasAFrame(payload: seq<byte>)
    requires |payload| <= MAX_RAW - HEADER
    ensures WellFormed(FrameFor(payload))
    ensures Judge(FrameFor(payload), true) == Frame(payload)
  {
    var lead := [SYNC1, SYNC2, (|payload| % 256) as byte, (|payload| / 256) as byte];
    var crc := FeedAll(POLY, Zeros(16), MessageBits(lead + payload));
    var f := FrameFor(payload);
    assert f[..4] == lead && Covered(f) == lead + payload;
    BitsByteInverse(crc[..8]);
    BitsByteInverse(crc[8..]);
    assert crc == crc[..8] + crc[8..];
    assert Length(f) == |payload|;
  }

  datatype Part = Part(noise: seq<byte>, frame: seq<byte>)

  ghost predicate Clean(parts: seq<Part>)
  {
    forall i :: 0 <= i < |parts| ==> NoSync(parts[i].noise) && WellFormed(parts[i].frame)
  }

  function Stream(parts: seq<Part>, tail: seq<byte>): seq<byte>
  {
    if parts == [] then tail else parts[0].noise + parts[0].frame + Stream(parts[1..], tail)
  }

  /** Quiet everywhere, except the payload at each frame's last byte. */
  function Delivered(parts: seq<Part>, tail: seq<byte>): seq<Output>
    requires forall i :: 0 <= i < |parts| ==> |parts[i].frame| >= HEADER
  {
    if parts == [] then Quiets(|tail|)
    else
      Quiets(|parts[0].noise| + |parts[0].frame| - 1) + [Frame(parts[0].frame[HEADER..])]
      + Delivered(parts[1..], tail)
  }

  lemma FindSyncUnique(s: seq<byte>, i: nat)
    requires SyncAt(s, i) && forall j: nat :: j < i ==> !SyncAt(s, j)
    ensures FindSync(s) == i
  {
    var k := FindSync(s);
    assert k < |s| ==> SyncAt(s, k);
  }

  /** Noise that ends in the first sync byte does not hide the frame behind it. */
  lemma SyncAfterNoise(noise: seq<byte>, rest: seq<byte>)
    requires NoSync(noise) && SyncAt(rest, 0)
    ensures FindSync(noise + rest) == |noise|
  {
    var s := noise + rest;
    assert SyncAt(s, |noise|);
    forall j: nat | j < |noise|
      ensures !SyncAt(s, j)
    {
      assert !SyncAt(noise, j);
    }
    FindSyncUnique(s, |noise|);
  }

  lemma CutAfterNoise(noise: seq<byte>, frame: seq<byte>, rest: seq<byte>)
    requires NoSync(noise) && SyncAt(frame, 0) && |frame| >= HEADER
    requires |frame| == HEADER + Length(frame) <= MAX_RAW
    ensures FirstCut(noise + frame + rest) == Cut(|noise|, |noise| + |frame|, false)
    ensures (noise + frame + rest)[|noise|..|noise| + |frame|] == frame
    ensures (noise + frame + rest)[|noise| + |frame|..] == rest
  {
    var s := noise + frame + rest;
    assert s == noise + (frame + rest);
    SyncAfterNoise(noise, frame + rest);
    assert s[|noise|..] == frame + rest;
  }

  lemma ScanFirstFrame(noise: seq<byte>, frame: seq<byte>, rest: seq<byte>)
    requires NoSync(noise) && SyncAt(frame, 0) && |frame| >= HEADER
    requires |frame| == HEADER + Length(frame) <= MAX_RAW
    ensures Scan(noise + frame + rest, true)
         == Quiets(|noise| + |frame| - 1) + [Judge(frame, true)] + Scan(rest, true)
  {
    CutAfterNoise(noise, frame, rest);
  }

  lemma ScanNoise(noise: seq<byte>)
    requires NoSync(noise)
    ensures Scan(noise, true) == Quiets(|noise|)
  {
    assert FindSync(noise) == |noise|;
  }

  lemma FirstPart(part: Part, rest: seq<byte>)
    requires NoSync(part.noise) && WellFormed(part.frame)
    ensures Scan(part.noise + part.frame + rest, true)
         == Quiets(|part.noise| + |part.frame| - 1) + [Frame(part.frame[HEADER..])] + Scan(rest, true)
  {
    ScanFirstFrame(part.noise, part.frame, rest);
  }

  lemma {:induction false} FramesAreDelivered(parts: seq<Part>, tail: seq<byte>)
    requires Clean(parts) && NoSync(tail)
    ensures Scan(Stream(parts, tail), true) == Delivered(parts, tail)
    decreases |parts|
  {
    if parts == [] {
      ScanNoise(tail);
    } else {
      FirstPart(parts[0], Stream(parts[1..], tail));
      FramesAreDelivered(parts[1..], tail);
    }
  }

  function Flatten(batches: seq<seq<byte>>): seq<byte>
  {
    if batches == [] then [] else batches[0] + Flatten(batches[1..])
  }

  /** Successive polls, one for each read. */
  function RunReads(st: State, batches: seq<seq<byte>>): (State, seq<Output>)
    decreases |batches|
  {
    if batches == [] then (st, [])
    else
      var (mid, first) := Run(st, batches[0], true);
      var (last, rest) := RunReads(mid, batches[1..]);
      (last, first + rest)
  }

  lemma {:induction false} ReadsDoNotMatter(st: State, batches: seq<seq<byte>>)
    ensures RunReads(st, batches) == Run(st, Flatten(batches), true)
    decreases |batches|
  {
    if batches != [] {
      ReadsDoNotMatter(Run(st, batches[0], true).0, batches[1..]);
      RunConcat(st, batches[0], Flatten(batches[1..]), true);
    }
  }

  /** However the stream is split into reads, the decoder delivers exactly the frames sent. */
  lemma PollingDeliversFrames(batches: seq<seq<byte>>, parts: seq<Part>, tail: seq<byte>)
    requires Clean(parts) && NoSync(tail)
    requires Flatten(batches) == Stream(parts, tail)
    ensures RunReads(Hunting(false), batches).1 == Delivered(parts, tail)
  {
    ReadsDoNotMatter(Hunting(false), batches);
    DecoderIsScanner(Flatten(batches), true);
    FramesAreDelivered(parts, tail);
  }

  // ----- resynchronisation -----

  /** The number of bytes after which a collecting decoder must have given its verdict. */
  function Budget(st: State): nat
    requires ValidState(st)
  {
    match st
    case Hunting(_) => 0
    case Collecting(got) => MAX_RAW - |got|
  }

  /** From every valid state some prefix of at most 510 bytes leads back to hunting. */
  lemma {:induction false} BackToHunting(st: State, s: seq<byte>, check: bool)
    requires ValidState(st) && |s| >= Budget(st)
    ensures Budget(st) <= MAX_RAW - 2
    ensures exists k: nat :: k <= Budget(st) && Run(st, s[..k], check).0.Hunting?
    decreases Budget(st)
  {
    if st.Hunting? {
      assert Run(st, s[..0], check).0.Hunting?;
    } else {
      StepKeepsValid(st, s[0], check);
      var next := Step(st, s[0], check).0;
      BackToHunting(next, s[1..], check);
      var j: nat :| j <= Budget(next) && Run(next, s[1..][..j], check).0.Hunting?;
      assert s[..j + 1][1..] == s[1..][..j];
      assert Run(st, s[..j + 1], check).0.Hunting?;
    }
  }

  // ----- corrupted payloads -----

  /** A frame is accepted exactly when its checksum field is the remainder of what it covers. */
  lemma AcceptedIffRemainder(frame: seq<byte>)
    requires |frame| >= HEADER
    ensures Judge(frame, true).Frame? <==>
            IsRemainder(POLY, MessageBits(Covered(frame)), WordOf(frame[4], frame[5]))
  {
    var m := MessageBits(Covered(frame));
    RegisterIsRemainder(POLY, m);
    if IsRemainder(POLY, m, WordOf(frame[4], frame[5])) {
      RemainderUnique(POLY, m, WordOf(frame[4], frame[5]), FeedAll(POLY, Zeros(16), m));
    }
  }

  /** `bad` differs from `good` by a non-zero burst within 16 consecutive payload bits. */
  ghost predicate BurstError(good: seq<byte>, bad: seq<byte>, before: nat, burst: Bits, after: nat)
  {
    && |good| == |bad| >= HEADER
    && bad[..HEADER] == good[..HEADER]
    && |burst| <= 16 && NonZero(burst)
    && before + |burst| + after == 8 * (|good| - HEADER)
    && MessageBits(bad[HEADER..]) == Xor(MessageBits(good[HEADER..]), Zeros(before) + burst + Zeros(after))
  }

  lemma BurstIsRejected(good: seq<byte>, bad: seq<byte>, before: nat, burst: Bits, after: nat)
    requires BurstError(good, bad, before, burst, after)
    requires ChecksumOk(good)
    ensures Judge(bad, true) == ChecksumError
  {
    var header := good[..4];
    assert bad[..4] == bad[..HEADER][..4] == header;
    assert bad[4] == bad[..HEADER][4] == good[4] && bad[5] == bad[..HEADER][5] == good[5];
    UpdateComposes(Zeros(16), header, good[HEADER..]);
    UpdateComposes(Zeros(16), header, bad[HEADER..]);
    var c := FeedAll(POLY, Zeros(16), MessageBits(header));
    BurstChangesRemainder(POLY, c, MessageBits(good[HEADER..]), before, burst, after);
  }

  /** On the wire: a frame sent well-formed and hit by a burst gives no payload, only the error. */
  lemma BurstInStream(noise: seq<byte>, good: seq<byte>, bad: seq<byte>, rest: seq<byte>,
                      before: nat, burst: Bits, after: nat)
    requires NoSync(noise) && WellFormed(good)
    requires BurstError(good, bad, before, burst, after)
    ensures Run(Hunting(false), noise + bad + rest, true).1
         == Quiets(|noise| + |bad| - 1) + [ChecksumError] + Run(Hunting(false), rest, true).1
  {
    BurstIsRejected(good, bad, before, burst, after);
    assert forall i :: 0 <= i < HEADER ==> bad[i] == bad[..HEADER][i] == good[i];
    DecoderIsScanner(noise + bad + rest, true);
    DecoderIsScanner(rest, true);
    ScanFirstFrame(noise, bad, rest);
  }

  // ----- the constants of the protocol -----

  /** The frame 5A A5 02 00 C1 7A 90 07: a sensor that reports its identification, 7. */
  const SAMPLE_FRAME: seq<byte> := [0x5A, 0xA5, 0x02, 0x00, 0xC1, 0x7A, 0x90, 0x07]

  lemma SampleFrame()
    ensures WellFormed(SAMPLE_FRAME) && Judge(SAMPLE_FRAME, true) == Frame([0x90, 0x07])
  {
    var f := SAMPLE_FRAME;
    assert f[..4] == [0x5A, 0xA5, 0x02, 0x00] && f[6..] == [0x90, 0x07];
    assert Covered(f) == [0x5A, 0xA5, 0x02, 0x00, 0x90, 0x07];
    SampleChecksum(Covered(f));
  }

  lemma FrameAfterNoise(noise: seq<byte>, frame: seq<byte>)
    requires NoSync(noise) && WellFormed(frame)
    ensures Run(Hunting(false), noise + frame, true).1 == Quiets(|noise| + |frame| - 1) + [Judge(frame, true)]
  {
    DecoderIsScanner(noise + frame, true);
    assert noise + frame + [] == noise + frame;
    ScanFirstFrame(noise, frame, []);
    assert Scan([], true) == [];
  }

  /** Behind any noise without the pair 5A A5 the decoder answers its last byte with the payload. */
  lemma SampleIsDelivered(noise: seq<byte>, frame: seq<byte>)
    requires frame == SAMPLE_FRAME
    requires forall i: nat :: i + 1 < |noise| ==> noise[i] != 0x5A || noise[i + 1] != 0xA5
    ensures Run(Hunting(false), noise + frame, true).1 == Quiets(|noise| + 7) + [Frame([0x90, 0x07])]
  {
    SampleFrame();
    assert forall i: nat :: !SyncAt(noise, i);
    FrameAfterNoise(noise, frame);
  }

  /** A header that announces more than 506 bytes is refused at its sixth byte, any other is not. */
  lemma RefusedIff(lo: byte, hi: byte, a: byte, b: byte, check: bool)
    ensures Run(Hunting(false), [0x5A, 0xA5, lo, hi, a], check).0 == Collecting([0x5A, 0xA5, lo, hi, a])
    ensures Step(Collecting([0x5A, 0xA5, lo, hi, a]), b, check).1 == LengthError <==> lo as int + 256 * hi as int > 506
    ensures lo as int + 256 * hi as int > 506 ==>
              Step(Collecting([0x5A, 0xA5, lo, hi, a]), b, check).0 == Hunting(false)
  {
    var s := [0x5A, 0xA5, lo, hi, a];
    assert SyncAt(s, 0);
    HuntReachesSync(false, s, 0, check);
    CollectQuietly([0x5A, 0xA5], [lo, hi, a], check);
    assert s[..2] == [0x5A, 0xA5] && s == s[..2] + [lo, hi, a];
    RunConcat(Hunting(false), s[..2], [lo, hi, a], check);
    assert s + [b] == [0x5A, 0xA5, lo, hi, a, b];
  }

  /** Without checking, every complete frame is delivered. */
  lemma UncheckedDelivers(frame: seq<byte>)
    requires |frame| >= 6
    ensures Judge(frame, false) == Frame(frame[6..])
  {
  }
}
