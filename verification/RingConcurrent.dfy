/**
One producer and one consumer on the ring buffer, without the mutex; the producer
pushes and the consumer peeks as often as they like. Every read of the head, every byte
of a copy and every counter update is a step of its own, and the steps of the two sides
interleave freely. The bytes of a copy may go in any order.
*/
module RingConcurrent {
  import opened Arith
  import opened Bytes
  import opened RingBuf

  datatype Producer =
    | Idle
    | Writing(item: seq<byte>, written: set<nat>)
    | SlotBumped(item: seq<byte>)

  datatype Consumer =
    | Resting
    | Asked(index: int)
    | BelowHead(index: int)
    | FallingBack
    | Copying(at: int, seen: nat, got: map<nat, byte>)
    | Finished(at: int, seen: nat, item: seq<byte>, headAtEnd: nat, startedAtEnd: bool)
    | Refused

  datatype State = State(mem: seq<byte>, head: nat, slot: nat, log: seq<seq<byte>>, prod: Producer, cons: Consumer)

  datatype Step =
    | BeginPush(item: seq<byte>) | WriteByte(k: nat) | BumpSlot | BumpHead
    | Ask(index: int) | TestHead | TestWindow | FallBack | ReadByte(k: nat) | Finish | Leave

  function Address(p: nat, width: nat, k: nat): nat
  {
    p * width + k
  }

  lemma AddressInside(p: nat, size: nat, width: nat, k: nat)
    requires p < size && k < width
    ensures Address(p, width, k) < size * width
  {
    SlotOrder(p, size, width);
  }

  lemma AddressesDiffer(p: nat, j: nat, q: nat, k: nat, width: nat)
    requires j < width && k < width && (p != q || j != k)
    ensures Address(p, width, j) != Address(q, width, k)
  {
    if p < q {
      SlotOrder(p, q, width);
    } else if q < p {
      SlotOrder(q, p, width);
    }
  }

  /** Byte k of the slot of entry i. */
  function ByteOf(mem: seq<byte>, size: nat, width: nat, i: int, k: nat): byte
    requires size >= 1 && k < width && |mem| == size * width
  {
    AddressInside(SlotOf(i, size), size, width, k);
    mem[Address(SlotOf(i, size), width, k)]
  }

  predicate Enabled(s: State, size: nat, width: nat, step: Step)
  {
    match step
    case BeginPush(item) => s.prod.Idle? && |item| == width
    case WriteByte(k) => s.prod.Writing? && k < width && k < |s.prod.item| && k !in s.prod.written && s.slot < size
    case BumpSlot => s.prod.Writing? && forall k :: 0 <= k < width ==> k in s.prod.written
    case BumpHead => s.prod.SlotBumped?
    case Ask(_) => s.cons.Resting?
    case TestHead => s.cons.Asked?
    case TestWindow => s.cons.BelowHead?
    case FallBack => s.cons.FallingBack?
    case ReadByte(k) => s.cons.Copying? && k < width && k !in s.cons.got
    case Finish => s.cons.Copying? && forall k :: 0 <= k < width ==> k in s.cons.got
    case Leave => s.cons.Finished? || s.cons.Refused?
  }

  /** Whether the push in progress has written anything yet. */
  predicate Started(s: State)
  {
    match s.prod
    case Idle => false
    case Writing(_, written) => written != {}
    case SlotBumped(_) => true
  }

  function Apply(s: State, size: nat, width: nat, step: Step): (t: State)
    requires size >= 1 && |s.mem| == size * width && Enabled(s, size, width, step)
    ensures |t.mem| == |s.mem|
  {
    match step
    case BeginPush(item) => s.(prod := Writing(item, {}))
    case WriteByte(k) =>
      AddressInside(s.slot, size, width, k);
      s.(mem := s.mem[Address(s.slot, width, k) := s.prod.item[k]],
         prod := s.prod.(written := s.prod.written + {k}))
    case BumpSlot => s.(slot := (s.slot + 1) % size, prod := SlotBumped(s.prod.item))
    case BumpHead => s.(head := s.head + 1, log := s.log + [s.prod.item], prod := Idle)
    case Ask(index) => s.(cons := Asked(index))
    case Leave => s.(cons := Resting)
    case TestHead => s.(cons := if s.cons.index >= s.head then Refused else BelowHead(s.cons.index))
    case TestWindow =>
      s.(cons := if s.cons.index < 0 || s.cons.index <= s.head - size then FallingBack
                 else Copying(s.cons.index, s.head, map[]))
    case FallBack => s.(cons := Copying(s.head - 1, s.head, map[]))
    case ReadByte(k) => s.(cons := s.cons.(got := s.cons.got[k := ByteOf(s.mem, size, width, s.cons.at, k)]))
    case Finish =>
      var item := seq(width, k requires 0 <= k < width => s.cons.got[k]);
      s.(cons := Finished(s.cons.at, s.cons.seen, item, s.head, Started(s)))
  }

  /** With no step of the producer in between, the tests of a peek settle as the sequential one does. */
  lemma UninterruptedPeek(s: State, size: nat, width: nat)
    requires size >= 1 && |s.mem| == size * width && s.cons.Asked?
    ensures var t := Apply(s, size, width, TestHead);
            match PeekIndex(s.head, size, s.cons.index)
            case Rejected => t.cons.Refused?
            case Settled(i) =>
              && t.cons.BelowHead?
              && var u := Apply(t, size, width, TestWindow);
                 var v := if u.cons.FallingBack? then Apply(u, size, width, FallBack) else u;
                 v.cons == Copying(i, s.head, map[])
  {
  }

  /** The slot of entry i is being overwritten, or has been. */
  predicate Overrun(s: State, size: nat, i: int)
  {
    s.head > i + size || (s.head == i + size && Started(s))
  }

  ghost predicate Init(s: State, size: nat, width: nat)
  {
    && size >= 2 && width >= 1 && |s.mem| == size * width
    && s.head == 1 && s.slot == 1 && s.log == []
    && s.prod == Idle && s.cons.Resting?
  }

  ghost predicate Written(s: State, k: nat)
  {
    match s.prod
    case Idle => false
    case Writing(_, written) => k in written
    case SlotBumped(_) => true
  }

  ghost predicate LogOk(s: State, width: nat)
  {
    s.head == |s.log| + 1 && forall i :: 0 <= i < |s.log| ==> |s.log[i]| == width
  }

  /** The bytes written so far of the item that will get index `head`. */
  ghost predicate PushOk(s: State, size: nat, width: nat)
    requires size >= 1 && |s.mem| == size * width
  {
    && s.slot == SlotOf(if s.prod.SlotBumped? then s.head + 1 else s.head, size)
    && (!s.prod.Idle? ==>
          && |s.prod.item| == width
          && forall k :: 0 <= k < width && Written(s, k) ==> ByteOf(s.mem, size, width, s.head, k) == s.prod.item[k])
  }

  /** The entries behind the head, except what the push in progress has already replaced. */
  ghost predicate WindowOk(s: State, size: nat, width: nat)
    requires size >= 1 && |s.mem| == size * width && LogOk(s, width)
  {
    forall i, k :: 1 <= i < s.head && s.head - size <= i && 0 <= k < width && !(i == s.head - size && Written(s, k)) ==>
      ByteOf(s.mem, size, width, i, k) == Entry(s.log, i)[k]
  }

  ghost predicate ReadOk(s: State, size: nat, width: nat)
    requires LogOk(s, width)
  {
    match s.cons
    case Copying(at, seen, got) =>
      && seen <= s.head && at < seen <= at + size - 1
      && (1 <= at ==> !Overrun(s, size, at) ==> forall k :: k in got && k < width ==> got[k] == Entry(s.log, at)[k])
    case Finished(at, seen, item, headAtEnd, startedAtEnd) =>
      && seen <= headAtEnd <= s.head && at < seen <= at + size - 1 && |item| == width
      && (1 <= at ==> headAtEnd < at + size || (headAtEnd == at + size && !startedAtEnd) ==> item == Entry(s.log, at))
    case BelowHead(index) => index < s.head
    case _ => true
  }

  ghost predicate Inv(s: State, size: nat, width: nat)
  {
    && size >= 2 && width >= 1 && |s.mem| == size * width
    && LogOk(s, width) && PushOk(s, size, width) && WindowOk(s, size, width) && ReadOk(s, size, width)
  }

  lemma InitInv(s: State, size: nat, width: nat)
    requires Init(s, size, width)
    ensures Inv(s, size, width)
  {
    DivModUnique(1, size, 0, 1);
  }

  lemma WriteByteInv(s: State, size: nat, width: nat, k: nat)
    requires Inv(s, size, width) && Enabled(s, size, width, WriteByte(k))
    ensures Inv(Apply(s, size, width, WriteByte(k)), size, width)
  {
    var t := Apply(s, size, width, WriteByte(k));
    AddressInside(s.slot, size, width, k);
    forall j | 0 <= j < width && Written(t, j)
      ensures ByteOf(t.mem, size, width, t.head, j) == t.prod.item[j]
    {
      AddressInside(s.slot, size, width, j);
      if j != k { AddressesDiffer(s.slot, j, s.slot, k, width); }
    }
    forall i, j | 1 <= i < t.head && t.head - size <= i && 0 <= j < width && !(i == t.head - size && Written(t, j))
      ensures ByteOf(t.mem, size, width, i, j) == Entry(t.log, i)[j]
    {
      AddressInside(SlotOf(i, size), size, width, j);
      if i > s.head - size {
        SlotsDiffer(i, s.head, size);
      }
      AddressesDiffer(SlotOf(i, size), j, s.slot, k, width);
      assert ByteOf(s.mem, size, width, i, j) == Entry(s.log, i)[j];
    }
  }

  lemma BumpHeadInv(s: State, size: nat, width: nat)
    requires Inv(s, size, width) && Enabled(s, size, width, BumpHead)
    ensures Inv(Apply(s, size, width, BumpHead), size, width)
  {
    var t := Apply(s, size, width, BumpHead);
    forall i, j | 1 <= i < t.head && t.head - size <= i && 0 <= j < width && !(i == t.head - size && Written(t, j))
      ensures ByteOf(t.mem, size, width, i, j) == Entry(t.log, i)[j]
    {
      if i == s.head {
        assert Written(s, j);
      } else {
        assert ByteOf(s.mem, size, width, i, j) == Entry(s.log, i)[j];
      }
    }
  }

  lemma BumpSlotInv(s: State, size: nat, width: nat)
    requires Inv(s, size, width) && Enabled(s, size, width, BumpSlot)
    ensures Inv(Apply(s, size, width, BumpSlot), size, width)
  {
    NextSlot(s.head, size);
    assert forall j :: 0 <= j < width ==> Written(s, j);
  }

  lemma ReadByteInv(s: State, size: nat, width: nat, k: nat)
    requires Inv(s, size, width) && Enabled(s, size, width, ReadByte(k))
    ensures Inv(Apply(s, size, width, ReadByte(k)), size, width)
  {
    var at := s.cons.at;
    if 1 <= at && !Overrun(s, size, at) {
      assert !(at == s.head - size && Written(s, k));
      assert ByteOf(s.mem, size, width, at, k) == Entry(s.log, at)[k];
    }
  }

  lemma StepInv(s: State, size: nat, width: nat, step: Step)
    requires Inv(s, size, width) && Enabled(s, size, width, step)
    ensures Inv(Apply(s, size, width, step), size, width)
  {
    match step
    case WriteByte(k) => WriteByteInv(s, size, width, k);
    case BumpSlot => BumpSlotInv(s, size, width);
    case BumpHead => BumpHeadInv(s, size, width);
    case ReadByte(k) => ReadByteInv(s, size, width, k);
    case _ =>
  }

  /** A run is a list of steps, each enabled when it is taken. */
  ghost predicate IsRun(s: State, size: nat, width: nat, steps: seq<Step>)
    requires size >= 1 && |s.mem| == size * width
    decreases |steps|
  {
    steps != [] ==>
      Enabled(s, size, width, steps[0]) && IsRun(Apply(s, size, width, steps[0]), size, width, steps[1..])
  }

  ghost function Final(s: State, size: nat, width: nat, steps: seq<Step>): (t: State)
    requires size >= 1 && |s.mem| == size * width && IsRun(s, size, width, steps)
    ensures |t.mem| == |s.mem|
    decreases |steps|
  {
    if steps == [] then s else Final(Apply(s, size, width, steps[0]), size, width, steps[1..])
  }

  lemma {:induction false} RunInv(s: State, size: nat, width: nat, steps: seq<Step>)
    requires Inv(s, size, width) && IsRun(s, size, width, steps)
    ensures Inv(Final(s, size, width, steps), size, width)
    decreases |steps|
  {
    if steps != [] {
      StepInv(s, size, width, steps[0]);
      RunInv(Apply(s, size, width, steps[0]), size, width, steps[1..]);
    }
  }

  // ----- one push or one peek after the other -----

  function WriteSteps(from: nat, width: nat): seq<Step>
    decreases width - from
  {
    if from >= width then [BumpSlot, BumpHead] else [WriteByte(from)] + WriteSteps(from + 1, width)
  }

  function ReadSteps(from: nat, width: nat): seq<Step>
    decreases width - from
  {
    if from >= width then [Finish] else [ReadByte(from)] + ReadSteps(from + 1, width)
  }

  lemma {:induction false} WritesRun(s: State, size: nat, width: nat, from: nat)
    requires Inv(s, size, width) && s.prod.Writing? && from <= width
    requires forall k :: 0 <= k < width ==> (k in s.prod.written <==> k < from)
    ensures IsRun(s, size, width, WriteSteps(from, width))
    ensures var t := Final(s, size, width, WriteSteps(from, width));
            t.prod.Idle? && t.log == s.log + [s.prod.item] && t.head == s.head + 1 && t.cons == s.cons
    decreases width - from
  {
    var steps := WriteSteps(from, width);
    if from == width {
      var t := Apply(s, size, width, BumpSlot);
      assert steps[1..] == [BumpHead] && steps[1..][1..] == [];
      assert IsRun(Apply(t, size, width, BumpHead), size, width, []);
      assert IsRun(t, size, width, [BumpHead]);
    } else {
      assert steps[1..] == WriteSteps(from + 1, width);
      var t := Apply(s, size, width, WriteByte(from));
      StepInv(s, size, width, WriteByte(from));
      WritesRun(t, size, width, from + 1);
    }
  }

  /** Alone, a push can run to its end, and then its item is the newest entry. */
  lemma UninterruptedPush(s: State, size: nat, width: nat, item: seq<byte>)
    requires Inv(s, size, width) && s.prod.Idle? && |item| == width
    ensures var steps := [BeginPush(item)] + WriteSteps(0, width);
            && IsRun(s, size, width, steps)
            && var t := Final(s, size, width, steps);
               t.prod.Idle? && t.log == s.log + [item] && t.head == s.head + 1 && t.cons == s.cons
  {
    var steps := [BeginPush(item)] + WriteSteps(0, width);
    StepInv(s, size, width, BeginPush(item));
    assert steps[1..] == WriteSteps(0, width);
    WritesRun(Apply(s, size, width, BeginPush(item)), size, width, 0);
  }

  lemma {:induction false} ReadsRun(s: State, size: nat, width: nat, from: nat)
    requires Inv(s, size, width) && s.cons.Copying? && from <= width
    requires forall k :: 0 <= k < width ==> (k in s.cons.got <==> k < from)
    ensures IsRun(s, size, width, ReadSteps(from, width))
    ensures var t := Final(s, size, width, ReadSteps(from, width));
            && t.cons.Finished? && t.cons.at == s.cons.at && t.cons.headAtEnd == s.head
            && t.cons.startedAtEnd == Started(s) && t == s.(cons := t.cons)
    decreases width - from
  {
    var steps := ReadSteps(from, width);
    if from == width {
      assert steps[1..] == [];
      assert IsRun(Apply(s, size, width, Finish), size, width, []);
    } else {
      assert steps[1..] == ReadSteps(from + 1, width);
      StepInv(s, size, width, ReadByte(from));
      ReadsRun(Apply(s, size, width, ReadByte(from)), size, width, from + 1);
    }
  }

  /** Alone, a copy can run to its end, and then it is the entry chosen. */
  lemma UninterruptedCopy(s: State, size: nat, width: nat)
    requires Inv(s, size, width) && s.cons.Copying? && s.cons.got == map[] && 1 <= s.cons.at
    requires !Overrun(s, size, s.cons.at)
    ensures var steps := ReadSteps(0, width);
            && s.cons.at <= |s.log| && IsRun(s, size, width, steps)
            && var t := Final(s, size, width, steps);
               t == s.(cons := t.cons) && t.cons.Finished? && t.cons.at == s.cons.at
               && t.cons.item == s.log[s.cons.at - 1]
  {
    ReadsRun(s, size, width, 0);
    RunInv(s, size, width, ReadSteps(0, width));
  }

  lemma FirstStep(s: State, size: nat, width: nat, step: Step, rest: seq<Step>)
    requires size >= 1 && |s.mem| == size * width && Enabled(s, size, width, step)
    requires IsRun(Apply(s, size, width, step), size, width, rest)
    ensures IsRun(s, size, width, [step] + rest)
    ensures Final(s, size, width, [step] + rest) == Final(Apply(s, size, width, step), size, width, rest)
  {
    assert ([step] + rest)[1..] == rest;
  }

  function CopySteps(fallBack: bool, width: nat): seq<Step>
  {
    if fallBack then [FallBack] + ReadSteps(0, width) else ReadSteps(0, width)
  }

  /** What a peek has come to when it is over: the ring as it was, and a copy of entry i. */
  ghost predicate Copied(s: State, t: State, i: int)
  {
    && 1 <= i <= |s.log| && t == s.(cons := t.cons)
    && t.cons.Finished? && t.cons.at == i && t.cons.item == s.log[i - 1]
  }

  lemma CopyRuns(s: State, size: nat, width: nat, i: nat)
    requires Inv(s, size, width) && s.prod.Idle? && 1 <= i < s.head < i + size
    requires s.cons == FallingBack ==> i == s.head - 1
    requires s.cons == FallingBack || s.cons == Copying(i, s.head, map[])
    ensures var steps := CopySteps(s.cons == FallingBack, width);
            IsRun(s, size, width, steps) && Copied(s, Final(s, size, width, steps), i)
  {
    var copying := s.(cons := Copying(i, s.head, map[]));
    UninterruptedCopy(copying, size, width);
    if s.cons == FallingBack {
      FirstStep(s, size, width, FallBack, ReadSteps(0, width));
    }
  }

  /** Only tests and copies, no step of a push and neither the beginning nor the end of a peek. */
  predicate InPeek(steps: seq<Step>)
  {
    forall i :: 0 <= i < |steps| ==> !steps[i].Ask? && !steps[i].Leave? && !steps[i].BeginPush?
  }

  lemma {:induction false} ReadStepsInPeek(from: nat, width: nat)
    ensures InPeek(ReadSteps(from, width))
    decreases width - from
  {
    if from < width {
      ReadStepsInPeek(from + 1, width);
    }
  }

  /** Alone, a peek can run to its end, and its result is the entry asked for or else the newest one. */
  lemma PeekRuns(s: State, size: nat, width: nat, index: nat) returns (steps: seq<Step>)
    requires Inv(s, size, width) && s.prod.Idle? && s.cons == Asked(index) && 1 <= index < s.head
    ensures IsRun(s, size, width, steps) && InPeek(steps)
    ensures Copied(s, Final(s, size, width, steps), if index + size <= s.head then s.head - 1 else index)
  {
    var behind := index + size <= s.head;
    var i := if behind then s.head - 1 else index;
    var s1 := s.(cons := BelowHead(index));
    var s2 := s.(cons := if behind then FallingBack else Copying(index, s.head, map[]));
    CopyRuns(s2, size, width, i);
    var rest := CopySteps(behind, width);
    FirstStep(s1, size, width, TestWindow, rest);
    FirstStep(s, size, width, TestHead, [TestWindow] + rest);
    ReadStepsInPeek(0, width);
    steps := [TestHead] + ([TestWindow] + rest);
  }

  // ----- torn reads -----

  /** If the producer had not begun to write entry at + size when the copy ended, the copy is entry `at`. */
  lemma NoTornRead(s: State, size: nat, width: nat, steps: seq<Step>)
    requires Init(s, size, width) && IsRun(s, size, width, steps)
    requires Final(s, size, width, steps).cons.Finished? && 1 <= Final(s, size, width, steps).cons.at
    ensures var t := Final(s, size, width, steps);
            var c := t.cons;
            && c.at <= |t.log|
            && (c.headAtEnd <= c.at + size - 1 || (c.headAtEnd == c.at + size && !c.startedAtEnd) ==>
                  c.item == Entry(t.log, c.at))
  {
    InitInv(s, size, width);
    RunInv(s, size, width, steps);
  }

  /** Between window test and end of the copy one push may write: the oldest readable entry still survives. */
  lemma OnePushNeverTears(s: State, size: nat, width: nat, steps: seq<Step>)
    requires Init(s, size, width) && IsRun(s, size, width, steps)
    requires Final(s, size, width, steps).cons.Finished? && 1 <= Final(s, size, width, steps).cons.at
    ensures var t := Final(s, size, width, steps);
            var c := t.cons;
            var pushes := c.headAtEnd - c.seen + if c.startedAtEnd then 1 else 0;
            && c.at <= |t.log|
            && (pushes <= 1 ==> c.item == Entry(t.log, c.at))
  {
    InitInv(s, size, width);
    RunInv(s, size, width, steps);
  }

  /** Past that point the read is lost: a byte already replaced reads as the newer item's. */
  lemma OverrunReadsNewerItem(s: State, size: nat, width: nat, steps: seq<Step>, k: nat)
    requires Init(s, size, width) && IsRun(s, size, width, steps)
    requires var t := Final(s, size, width, steps);
             && t.cons.Copying? && t.head == t.cons.at + size && Written(t, k)
             && Enabled(t, size, width, ReadByte(k))
    ensures var t := Final(s, size, width, steps);
            !t.prod.Idle? && k < |t.prod.item|
            && Apply(t, size, width, ReadByte(k)).cons.got[k] == t.prod.item[k]
  {
    InitInv(s, size, width);
    RunInv(s, size, width, steps);
    var t := Final(s, size, width, steps);
    var at := t.cons.at;
    SlotsDiffer(at, at + 1, size);
    assert SlotOf(t.head, size) == SlotOf(at, size);
    assert ByteOf(t.mem, size, width, t.head, k) == t.prod.item[k];
  }
}
