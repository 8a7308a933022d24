/** The flat ring buffer of lib/ring_buf/ring_buf.c, used by one task at a time. */
module RingBuf {
  import opened Arith
  import opened Bytes

  datatype Err = Ok | InvalidArg | NoMem

  // ----- slots of a flat buffer -----

  /** Distinct slots do not overlap, and every slot below `size` lies inside the buffer. */
  lemma SlotOrder(p: nat, q: nat, width: nat)
    requires p < q
    ensures p * width + width <= q * width
  {
    assert (q - p - 1) * width >= 0;
    assert q * width == p * width + width + (q - p - 1) * width;
  }

  function SlotOf(i: int, size: nat): (p: nat)
    requires size > 0
    ensures p < size
  {
    i % size
  }

  /** Fewer than `size` steps apart, two entries never share a slot; `size` steps apart they do. */
  lemma SlotsDiffer(i: int, j: int, size: nat)
    requires size > 0 && i < j < i + size
    ensures SlotOf(i, size) != SlotOf(j, size)
    ensures SlotOf(i + size, size) == SlotOf(i, size)
  {
    var q, r := i / size, i % size;
    assert i == q * size + r;
    assert i + size == (q + 1) * size + r;
    DivModUnique(i + size, size, q + 1, r);
    if r + (j - i) < size {
      DivModUnique(j, size, q, r + (j - i));
    } else {
      assert j == (q + 1) * size + (r + (j - i) - size);
      DivModUnique(j, size, q + 1, r + (j - i) - size);
    }
  }

  lemma NextSlot(i: nat, size: nat)
    requires size > 0
    ensures (SlotOf(i, size) + 1) % size == SlotOf(i + 1, size)
  {
    var q, r := i / size, i % size;
    assert i == q * size + r;
    if r + 1 < size {
      DivModUnique(i + 1, size, q, r + 1);
      DivModUnique(r + 1, size, 0, r + 1);
    } else {
      assert i + 1 == (q + 1) * size + 0;
      DivModUnique(i + 1, size, q + 1, 0);
      DivModUnique(r + 1, size, 1, 0);
    }
  }

  /** Bytes of slot p. */
  function Slot(mem: seq<byte>, p: nat, width: nat): (s: seq<byte>)
    requires p * width + width <= |mem|
    ensures |s| == width
  {
    mem[p * width..p * width + width]
  }

  function Overlay(mem: seq<byte>, p: nat, width: nat, item: seq<byte>): (r: seq<byte>)
    requires p * width + width <= |mem| && |item| == width
    ensures |r| == |mem|
  {
    mem[..p * width] + item + mem[p * width + width..]
  }

  lemma OverlaySame(mem: seq<byte>, p: nat, width: nat, item: seq<byte>)
    requires p * width + width <= |mem| && |item| == width
    ensures Slot(Overlay(mem, p, width, item), p, width) == item
  {
  }

  lemma OverlayOther(mem: seq<byte>, p: nat, q: nat, width: nat, item: seq<byte>)
    requires p * width + width <= |mem| && q * width + width <= |mem| && |item| == width && p != q
    ensures Slot(Overlay(mem, p, width, item), q, width) == Slot(mem, q, width)
  {
    SlotOrder(if p < q then p else q, if p < q then q else p, width);
    var s, t := Slot(Overlay(mem, p, width, item), q, width), Slot(mem, q, width);
    assert forall k :: 0 <= k < width ==> s[k] == t[k];
  }

  // ----- the unbounded log behind the buffer -----

  /** Entry i of the log, counted from 1, is the i-th item pushed since the last reset. */
  function Entry(log: seq<seq<byte>>, i: nat): seq<byte>
    requires 1 <= i <= |log|
  {
    log[i - 1]
  }

  /** The buffer holds the last `size` entries, each in its own slot. */
  ghost predicate Window(mem: seq<byte>, log: seq<seq<byte>>, size: nat, width: nat)
  {
    && size >= 1 && |mem| == size * width
    && (forall i :: 0 <= i < |log| ==> |log[i]| == width)
    && (forall i :: 1 <= i <= |log| && |log| - size < i ==> SlotHolds(mem, size, width, i, Entry(log, i)))
  }

  ghost predicate SlotHolds(mem: seq<byte>, size: nat, width: nat, i: nat, item: seq<byte>)
    requires size >= 1 && |mem| == size * width
  {
    SlotOrder(SlotOf(i, size), size, width);
    Slot(mem, SlotOf(i, size), width) == item
  }

  lemma PushKeepsWindow(mem: seq<byte>, log: seq<seq<byte>>, size: nat, width: nat, item: seq<byte>)
    requires Window(mem, log, size, width) && |item| == width
    ensures SlotOf(|log| + 1, size) * width + width <= |mem|
    ensures Window(Overlay(mem, SlotOf(|log| + 1, size), width, item), log + [item], size, width)
  {
    var n := |log| + 1;
    var p := SlotOf(n, size);
    SlotOrder(p, size, width);
    var next := Overlay(mem, p, width, item);
    forall i | 1 <= i <= n && n - size < i
      ensures SlotHolds(next, size, width, i, Entry(log + [item], i))
    {
      var q := SlotOf(i, size);
      SlotOrder(q, size, width);
      if i == n {
        OverlaySame(mem, p, width, item);
      } else {
        SlotsDiffer(i, n, size);
        OverlayOther(mem, p, q, width, item);
        assert SlotHolds(mem, size, width, i, Entry(log, i));
      }
    }
  }

  // ----- which entry a peek settles on -----

  /** None when the index is not below the head. */
  datatype Choice = Rejected | Settled(index: int)

  function PeekIndex(head: int, size: nat, index: int): Choice
  {
    if index >= head then Rejected
    else if index < 0 || index <= head - size then Settled(head - 1)
    else Settled(index)
  }

  /**
  Of a log with n entries, a peek that is not rejected settles on an entry unless
  the log is empty or index 0 is asked for before the buffer has wrapped. On an
  entry in the window it settles on that one, elsewhere on the newest.
  */
  lemma SettlesOnEntry(n: nat, size: nat, index: int)
    requires size >= 2 && index < n + 1
    ensures PeekIndex(n + 1, size, index).Settled?
    ensures 1 <= PeekIndex(n + 1, size, index).index <= n <==> n >= 1 && (index != 0 || n + 1 >= size)
    ensures n + 1 - size < index && 1 <= index ==> PeekIndex(n + 1, size, index).index == index
    ensures (index < 0 || index <= n + 1 - size) ==> PeekIndex(n + 1, size, index).index == n
    ensures PeekIndex(n + 1, size, index).index > n - size
  {
  }

  /** Slot 1, the first one used, lies inside the buffer exactly when there are two slots. */
  lemma FirstSlotFits(size: nat, width: nat)
    requires size >= 1 && width >= 1
    ensures 1 * width + width <= size * width <==> size >= 2
  {
    assert size * width == width + (size - 1) * width;
    if size >= 2 {
      MultipleAtLeast(size - 1, width);
    }
  }

  class Ring {
    var size: nat
    var itemWidth: nat
    var buf: array<byte>
    var slot: nat
    var head: int
    var staticBuf: bool
    ghost var log: seq<seq<byte>>

    /** With two slots or more the first slot used, slot 1, exists. */
    ghost predicate Valid()
      reads this, buf
    {
      && 2 <= size && 1 <= itemWidth
      && buf.Length == size * itemWidth
      && head == |log| + 1 && slot == SlotOf(head, size)
      && Window(buf[..], log, size, itemWidth)
    }

    constructor ()
    {
      size, itemWidth, slot, head := 0, 0, 0, 0;
      buf := new byte[0];
      staticBuf := false;
      log := [];
    }

    /** `malloc` stands for the buffer that the allocation yields, or null. */
    method Init(size: nat, itemWidth: nat, given: array?<byte>, staticBuf: bool, malloc: array?<byte>)
      returns (err: Err)
      requires given != null ==> given.Length == size * itemWidth
      requires malloc != null ==> malloc.Length == size * itemWidth
      modifies this
      ensures err == if size == 0 || itemWidth == 0 || (given == null) == staticBuf then InvalidArg
                     else if given == null && malloc == null then NoMem else Ok
      ensures err == Ok ==> log == [] && head == 1 && (Valid() <==> size >= 2)
      ensures err == Ok ==> buf == if given == null then malloc else given
      ensures err == Ok ==> (slot * itemWidth + itemWidth <= buf.Length <==> size >= 2)
      ensures err == Ok ==> this.size == size && this.itemWidth == itemWidth && this.staticBuf == staticBuf
    {
      log := [];
      if size == 0 || itemWidth == 0 {
        return InvalidArg;
      }
      this.size := size;
      this.itemWidth := itemWidth;
      head := 1;
      slot := 1;
      if given == null {
        if staticBuf { return InvalidArg; }
        if malloc == null { return NoMem; }
        buf := malloc;
      } else {
        if !staticBuf { return InvalidArg; }
        buf := given;
      }
      this.staticBuf := staticBuf;
      FirstSlotFits(size, itemWidth);
      err := Ok;
    }

    method Reset()
      requires Valid()
      modifies this`head, this`slot, this`log
      ensures Valid() && log == []
    {
      head := 1;
      slot := 1;
      log := [];
    }

    /** memcpy into slot p. */
    method CopyIn(p: nat, item: seq<byte>)
      requires |item| == itemWidth && p * itemWidth + itemWidth <= buf.Length
      modifies buf
      ensures buf[..] == Overlay(old(buf[..]), p, itemWidth, item)
    {
      var at := p * itemWidth;
      forall k | 0 <= k < itemWidth {
        buf[at + k] := item[k];
      }
    }

    /** memcpy out of slot p. */
    method CopyOut(p: nat) returns (item: seq<byte>)
      requires p * itemWidth + itemWidth <= buf.Length
      ensures item == Slot(buf[..], p, itemWidth)
    {
      var at := p * itemWidth;
      item := buf[at..at + itemWidth];
      assert item == buf[..][at..at + itemWidth];
    }

    method Push(item: seq<byte>)
      requires Valid() && |item| == itemWidth
      modifies this`head, this`slot, this`log, buf
      ensures Valid() && log == old(log) + [item]
    {
      PushKeepsWindow(buf[..], log, size, itemWidth, item);
      NextSlot(|log| + 1, size);
      CopyIn(slot, item);
      slot := (slot + 1) % size;
      head := head + 1;
      log := log + [item];
    }

    method Peek(index: int) returns (err: Err, item: seq<byte>, indexOut: int)
      requires Valid()
      ensures err == if index >= head then InvalidArg else Ok
      ensures err == Ok ==> PeekIndex(head, size, index) == Settled(indexOut)
      ensures err == Ok ==> 0 <= indexOut && SlotHolds(buf[..], size, itemWidth, indexOut, item)
      ensures err == Ok && 1 <= indexOut ==> indexOut <= |log| && item == Entry(log, indexOut)
    {
      item, indexOut := [], index;
      if index >= head {
        return InvalidArg, [], index;
      }
      if index < 0 || index <= head - size {
        indexOut := head - 1;
      }
      var place := indexOut % size;
      SlotOrder(place, size, itemWidth);
      item := CopyOut(place);
      err := Ok;
      if 1 <= indexOut {
        assert SlotHolds(buf[..], size, itemWidth, indexOut, Entry(log, indexOut));
      }
    }
  }
}
