/** The tag-driven payload parser of lib/hi229/hi229_serial.c. */
module Hi229Payload {
  import opened Bytes
  import opened Hi229Stream

  const TAG_ID: byte := 0x90
  const TAG_ACC: byte := 0xA0
  const TAG_GYR: byte := 0xB0
  const TAG_MAG: byte := 0xC0
  const TAG_EUL: byte := 0xD0
  const TAG_QUAT: byte := 0xD1
  const TAG_PRESSURE: byte := 0xF0
  const TAG_IMUSOL: byte := 0x91
  const TAG_GWSOL: byte := 0x62

  const MAX_ITEMS := 8

  /** The 32-bit cells of ch_imu_data_t, in its order. */
  const CELLS := 19
  const ID := 0
  const ACC := 1
  const GYR := 4
  const MAG := 7
  const EUL := 10
  const QUAT := 13
  const PRESSURE := 17
  const TIMESTAMP := 18

  /** A stored 32-bit pattern, or the quotient of a 16-bit reading and a constant. */
  datatype Cell = Word(bytes: seq<byte>) | Ratio(num: Int16, den: nat)

  // ----- what a payload is made of -----

  /** The 76 bytes of one node; its first byte is the tag of an IMUSOL item and ignored elsewhere. */
  datatype Node = Node(lead: byte, id: byte, gap: seq<byte>,
                       pressure: seq<byte>, timestamp: seq<byte>, floats: seq<byte>)

  datatype ChunkData =
    | Filler(b: byte)
    | Id(id: byte)
    | Axes(tag: byte, x: Int16, y: Int16, z: Int16)
    | Quat(floats: seq<byte>)
    | Pressure(value: seq<byte>)
    | ImuSol(node: Node)
    | GwSol(gwid: byte, pad: seq<byte>, nodes: seq<Node>)

  predicate IsTag(b: byte)
  {
    b in {TAG_ID, TAG_ACC, TAG_GYR, TAG_MAG, TAG_EUL, TAG_QUAT, TAG_PRESSURE, TAG_IMUSOL, TAG_GWSOL}
  }

  predicate NodeOk(n: Node)
  {
    |n.gap| == 2 && |n.pressure| == 4 && |n.timestamp| == 4 && |n.floats| == 64
  }

  /** Complete items with at most one node, and filler that is no tag. */
  predicate ChunkOk(c: ChunkData)
  {
    match c
    case Filler(b) => !IsTag(b)
    case Id(_) => true
    case Axes(tag, _, _, _) => tag in {TAG_ACC, TAG_GYR, TAG_MAG, TAG_EUL}
    case Quat(floats) => |floats| == 16
    case Pressure(value) => |value| == 4
    case ImuSol(node) => NodeOk(node) && node.lead == TAG_IMUSOL
    case GwSol(_, pad, nodes) => |pad| == 5 && |nodes| <= 1 && (|nodes| == 1 ==> NodeOk(nodes[0]))
  }

  type Chunk = c: ChunkData | ChunkOk(c) witness Filler(0)

  function PrintNode(n: Node): (s: seq<byte>)
    requires NodeOk(n)
    ensures |s| == 76
  {
    [n.lead, n.id] + n.gap + n.pressure + n.timestamp + n.floats
  }

  function Print(c: Chunk): (s: seq<byte>)
    ensures |s| >= 1
  {
    match c
    case Filler(b) => [b]
    case Id(id) => [TAG_ID, id]
    case Axes(tag, x, y, z) => [tag] + PutI2(x) + PutI2(y) + PutI2(z)
    case Quat(floats) => [TAG_QUAT] + floats
    case Pressure(value) => [TAG_PRESSURE] + value
    case ImuSol(node) => PrintNode(node)
    case GwSol(gwid, pad, nodes) =>
      [TAG_GWSOL, gwid, |nodes| as byte] + pad + if nodes == [] then [] else PrintNode(nodes[0])
  }

  function PrintAll(cs: seq<Chunk>): seq<byte>
  {
    if cs == [] then [] else Print(cs[0]) + PrintAll(cs[1..])
  }

  /** The code that an item leaves in the list: its own tag, which is the first byte printed. */
  function Codes(c: Chunk): (t: seq<byte>)
    ensures if c.Filler? then t == [] else t == [Print(c)[0]] && IsTag(t[0])
  {
    match c
    case Filler(_) => []
    case Id(_) => [TAG_ID]
    case Axes(tag, _, _, _) => [tag]
    case Quat(_) => [TAG_QUAT]
    case Pressure(_) => [TAG_PRESSURE]
    case ImuSol(_) => [TAG_IMUSOL]
    case GwSol(_, _, _) => [TAG_GWSOL]
  }

  // ----- what an item means -----

  /** The run of cells that an item sets. */
  datatype Patch = Patch(base: nat, cells: seq<Cell>)
  {
    predicate Sets(cell: nat)
    {
      base <= cell < base + |cells|
    }
  }

  /** The k-th group of four bytes. */
  function Quad(s: seq<byte>, k: nat): seq<byte>
    requires 4 * k + 4 <= |s|
  {
    s[4 * k..4 * k + 4]
  }

  function NodeCells(n: Node): (w: seq<Cell>)
    requires NodeOk(n)
    ensures |w| == CELLS
  {
    [Word([n.id, 0, 0, 0])]
    + seq(16, k requires 0 <= k < 16 => Word(Quad(n.floats, k)))
    + [Word(n.pressure), Word(n.timestamp)]
  }

  /** The cells that an item sets. The third Euler angle is scaled by 10, the others by 100. */
  function Writes(c: Chunk): Patch
  {
    match c
    case Filler(_) => Patch(0, [])
    case Id(id) => Patch(ID, [Word([id, 0, 0, 0])])
    case Axes(tag, x, y, z) =>
      if tag == TAG_ACC then Patch(ACC, [Ratio(x, 1000), Ratio(y, 1000), Ratio(z, 1000)])
      else if tag == TAG_GYR then Patch(GYR, [Ratio(x, 10), Ratio(y, 10), Ratio(z, 10)])
      else if tag == TAG_MAG then Patch(MAG, [Ratio(x, 10), Ratio(y, 10), Ratio(z, 10)])
      else Patch(EUL, [Ratio(x, 100), Ratio(y, 100), Ratio(z, 10)])
    case Quat(floats) => Patch(QUAT, seq(4, k requires 0 <= k < 4 => Word(Quad(floats, k))))
    case Pressure(value) => Patch(PRESSURE, [Word(value)])
    case ImuSol(node) => Patch(0, NodeCells(node))
    case GwSol(_, _, nodes) => Patch(0, if nodes == [] then [] else NodeCells(nodes[0]))
  }

  datatype Parsed = Parsed(gwid: byte, nimu: byte, imu: seq<Cell>, codes: seq<byte>)

  datatype Change = Keep | Set(b: byte)

  function Changed(old_b: byte, c: Change): byte
  {
    match c case Keep => old_b case Set(b) => b
  }

  /** All that an item does to the parser's results. */
  datatype Effect = Effect(gwid: Change, nimu: Change, patch: Patch, codes: seq<byte>)

  /** Euler items leave the node count alone. */
  function NodeCount(c: Chunk): Change
  {
    match c
    case Filler(_) => Keep
    case Axes(tag, _, _, _) => if tag == TAG_EUL then Keep else Set(1)
    case GwSol(_, _, nodes) => Set(|nodes| as byte)
    case _ => Set(1)
  }

  function EffectOf(c: Chunk): Effect
  {
    Effect(if c.GwSol? then Set(c.gwid) else Keep, NodeCount(c), Writes(c), Codes(c))
  }

  function Effects(cs: seq<Chunk>): (es: seq<Effect>)
    ensures |es| == |cs| && forall i :: 0 <= i < |cs| ==> es[i] == EffectOf(cs[i])
  {
    seq(|cs|, i requires 0 <= i < |cs| => EffectOf(cs[i]))
  }

  function Overwrite(imu: seq<Cell>, w: Patch): (r: seq<Cell>)
    ensures |r| == |imu|
    ensures forall i :: 0 <= i < |imu| ==> r[i] == if w.Sets(i) then w.cells[i - w.base] else imu[i]
  {
    seq(|imu|, i requires 0 <= i < |imu| => if w.Sets(i) then w.cells[i - w.base] else imu[i])
  }

  lemma OverwriteAll(imu: seq<Cell>, cells: seq<Cell>)
    requires |imu| == |cells|
    ensures Overwrite(imu, Patch(0, cells)) == cells
  {
  }

  lemma OverwriteNothing(imu: seq<Cell>)
    ensures Overwrite(imu, Patch(0, [])) == imu
  {
  }

  function Perform(p: Parsed, e: Effect): Parsed
  {
    Parsed(Changed(p.gwid, e.gwid), Changed(p.nimu, e.nimu), Overwrite(p.imu, e.patch), p.codes + e.codes)
  }

  function PerformAll(p: Parsed, es: seq<Effect>): (r: Parsed)
    ensures |r.imu| == |p.imu|
    decreases |es|
  {
    if es == [] then p else PerformAll(Perform(p, es[0]), es[1..])
  }

  /** The codes of the items, in order. */
  function Listed(es: seq<Effect>): (t: seq<byte>)
  {
    if es == [] then [] else es[0].codes + Listed(es[1..])
  }

  lemma {:induction false} CodesAreListed(p: Parsed, es: seq<Effect>)
    ensures PerformAll(p, es).codes == p.codes + Listed(es)
    decreases |es|
  {
    if es == [] {
      assert p.codes + [] == p.codes;
    } else {
      CodesAreListed(Perform(p, es[0]), es[1..]);
      assert p.codes + es[0].codes + Listed(es[1..]) == p.codes + (es[0].codes + Listed(es[1..]));
    }
  }

  /** A cell that no item sets keeps its content. */
  lemma {:induction false} UntouchedCell(p: Parsed, es: seq<Effect>, cell: nat)
    requires cell < |p.imu| && forall j :: 0 <= j < |es| ==> !es[j].patch.Sets(cell)
    ensures PerformAll(p, es).imu[cell] == p.imu[cell]
    decreases |es|
  {
    if es != [] {
      UntouchedCell(Perform(p, es[0]), es[1..], cell);
    }
  }

  /** Otherwise it holds what the last item that sets it wrote. */
  lemma {:induction false} LastWriterWins(p: Parsed, es: seq<Effect>, k: nat, cell: nat)
    requires k < |es| && cell < |p.imu|
    requires es[k].patch.Sets(cell) && forall j :: k < j < |es| ==> !es[j].patch.Sets(cell)
    ensures PerformAll(p, es).imu[cell] == es[k].patch.cells[cell - es[k].patch.base]
    decreases |es|
  {
    var next := Perform(p, es[0]);
    if k == 0 {
      UntouchedCell(next, es[1..], cell);
    } else {
      LastWriterWins(next, es[1..], k - 1, cell);
    }
  }

  lemma {:induction false} PerformNext(p: Parsed, es: seq<Effect>, k: nat)
    requires k < |es|
    ensures PerformAll(p, es[..k + 1]) == Perform(PerformAll(p, es[..k]), es[k])
    decreases k
  {
    if k == 0 {
      assert es[..1][1..] == [];
    } else {
      assert es[..k + 1][1..] == es[1..][..k] && es[..k][1..] == es[1..][..k - 1];
      PerformNext(Perform(p, es[0]), es[1..], k - 1);
    }
  }

  lemma {:induction false} ListedPrefix(es: seq<Effect>, k: nat)
    requires k < |es|
    ensures |Listed(es[..k])| + |es[k].codes| <= |Listed(es)|
    decreases k
  {
    if k > 0 {
      assert es[..k][1..] == es[1..][..k - 1];
      ListedPrefix(es[1..], k - 1);
    }
  }

  lemma {:induction false} PrintAllConcat(cs: seq<Chunk>, ds: seq<Chunk>)
    ensures PrintAll(cs + ds) == PrintAll(cs) + PrintAll(ds)
    decreases |cs|
  {
    if cs == [] {
      assert cs + ds == ds;
    } else {
      assert (cs + ds)[1..] == cs[1..] + ds;
      PrintAllConcat(cs[1..], ds);
    }
  }

  // ----- the parser -----

  /** A cell of a structure filled with zero bytes. */
  const ZERO := Word([0, 0, 0, 0])

  const CLEARED := Parsed(0, 0, Zeroed(), [])

  function Zeroed(): (z: seq<Cell>)
    ensures |z| == CELLS && forall i :: 0 <= i < CELLS ==> z[i] == ZERO
  {
    seq(CELLS, _ => ZERO)
  }

  /** If a frame is delivered, its payload is a print of at most eight items. */
  ghost predicate Parsable(out: Output, cs: seq<Chunk>)
  {
    out.Frame? ==> out.payload == PrintAll(cs) && |Listed(Effects(cs))| <= 8
  }

  /** A delivered frame replaces the list of codes and performs its items. */
  function Updated(p: Parsed, out: Output, cs: seq<Chunk>): (r: Parsed)
    ensures |r.imu| == |p.imu|
  {
    if out.Frame? then PerformAll(p.(codes := []), Effects(cs)) else p
  }

  /** The whole of raw_t: the frame decoder and the results of the parser. */
  class Raw {
    const dec: Decoder
    const imu: array<Cell>
    const itemCode: array<byte>
    var gwid: byte
    var nimu: byte
    var nItemCode: nat

    ghost predicate Sized()
      reads this
    {
      && dec.buf.Length == MAX_RAW && imu.Length == CELLS && itemCode.Length == MAX_ITEMS
      && dec.buf != itemCode && nItemCode <= MAX_ITEMS
    }

    /** The buffer holds a complete frame. */
    ghost predicate Valid()
      reads this, dec
    {
      Sized() && 0 <= dec.len <= MAX_RAW - HEADER
    }

    ghost function Payload(): (s: seq<byte>)
      requires Valid()
      reads this, dec, dec.buf
    {
      dec.buf[HEADER..HEADER + dec.len]
    }

    ghost function Abs(): Parsed
      requires Sized()
      reads this, imu, itemCode
    {
      Parsed(gwid, nimu, imu[..], itemCode[..nItemCode])
    }

    /** Between two bytes of input. */
    ghost predicate Ready()
      reads this, dec, dec.buf
    {
      Sized() && dec.Valid()
    }

    constructor ()
      ensures Ready() && fresh(dec) && fresh(dec.buf) && fresh(imu) && fresh(itemCode)
      ensures dec.Abs() == Hunting(false) && Abs() == CLEARED
    {
      dec := new Decoder();
      imu := new Cell[CELLS](_ => ZERO);
      itemCode := new byte[MAX_ITEMS](_ => 0);
      gwid, nimu, nItemCode := 0, 0, 0;
      new;
      assert imu[..] == CLEARED.imu;
    }

    /** hi229_buffer_reset: every member of the structure becomes zero. */
    method Reset()
      requires Ready()
      modifies this, dec, dec.buf, imu, itemCode
      ensures Ready() && dec.Abs() == Hunting(false) && Abs() == CLEARED
    {
      dec.Reset();
      forall i | 0 <= i < imu.Length {
        imu[i] := ZERO;
      }
      forall i | 0 <= i < itemCode.Length {
        itemCode[i] := 0;
      }
      gwid, nimu, nItemCode := 0, 0, 0;
      assert imu[..] == CLEARED.imu;
    }

    /** The results after a payload of one item, in terms of its bytes. */
    method ParseOne()
      requires Valid() && SingleItem(Payload())
      modifies this`gwid, this`nimu, this`nItemCode, imu, itemCode
      ensures Valid() && AfterItem(old(Abs()), Payload(), Abs())
    {
      ghost var c := ItemAfter(Abs(), Payload());
      AloneIs(Abs(), c);
      var code, ofs := ParseData([c]);
    }

    /** A payload without any of the nine tags only clears the list of codes. */
    method ParseFiller()
      requires Valid() && NoTags(Payload())
      modifies this`gwid, this`nimu, this`nItemCode, imu, itemCode
      ensures Valid() && Abs() == old(Abs()).(codes := [])
    {
      ghost var cs := FillerPayload(Payload(), Abs().(codes := []));
      var code, ofs := ParseData(cs);
    }

    /** ch_serial_input as a whole: a frame that is accepted is parsed. `cs` is what its payload prints. */
    method Input(data: byte, check: bool, ghost cs: seq<Chunk>) returns (code: int, ghost out: Output)
      requires Ready() && Parsable(Step(dec.Abs(), data, check).1, cs)
      modifies this, dec, dec.buf, imu, itemCode
      ensures Ready()
      ensures (dec.Abs(), out) == Step(old(dec.Abs()), data, check) && code == Code(out)
      ensures Abs() == Updated(old(Abs()), out, cs)
    {
      var o;
      code, o := dec.Input(data, check);
      out := o;
      if code == 1 {
        var ofs;
        code, ofs := ParseData(cs);
      }
    }

    /** The four bytes at p + at. */
    function R4(at: nat): (c: Cell)
      requires Valid() && at + 4 <= dec.len
      reads this, dec, dec.buf
      ensures c == Word(Payload()[at..at + 4])
    {
      assert dec.buf[HEADER + at..HEADER + at + 4] == Payload()[at..at + 4];
      Word(dec.buf[HEADER + at..HEADER + at + 4])
    }

    /** The 16-bit reading at p + at, divided by den. */
    function Reading(at: nat, den: nat): (c: Cell)
      requires Valid() && at + 2 <= dec.len
      reads this, dec, dec.buf
      ensures c == Ratio(I2(Payload()[at], Payload()[at + 1]), den)
    {
      Ratio(I2(dec.buf[HEADER + at], dec.buf[HEADER + at + 1]), den)
    }

    method StoreCode(tag: byte)
      requires Valid() && nItemCode < MAX_ITEMS
      modifies this`nItemCode, itemCode
      ensures Valid() && nItemCode == old(nItemCode) + 1
      ensures itemCode[..nItemCode] == old(itemCode[..nItemCode]) + [tag]
    {
      itemCode[nItemCode] := tag;
      nItemCode := nItemCode + 1;
    }

    method StoreAxes(base: nat, ofs: nat, d0: nat, d1: nat, d2: nat)
      requires Valid() && base + 3 <= CELLS && ofs + 7 <= dec.len
      modifies imu
      ensures imu[..] == Overwrite(old(imu[..]),
                Patch(base, [Reading(ofs + 1, d0), Reading(ofs + 3, d1), Reading(ofs + 5, d2)]))
    {
      imu[base] := Reading(ofs + 1, d0);
      imu[base + 1] := Reading(ofs + 3, d1);
      imu[base + 2] := Reading(ofs + 5, d2);
    }

    /** The assignments shared by the IMUSOL item and the nodes of a GWSOL item. */
    method StoreNode(ofs: nat, ghost n: Node)
      requires Valid() && ofs + 76 <= dec.len
      requires NodeOk(n) && Payload()[ofs..ofs + 76] == PrintNode(n)
      modifies imu
      ensures imu[..] == Overwrite(old(imu[..]), Patch(0, NodeCells(n)))
    {
      ghost var p := Payload();
      NodeFields(p, ofs, n);
      imu[ID] := Word([dec.buf[HEADER + ofs + 1], 0, 0, 0]);
      imu[PRESSURE] := R4(ofs + 4);
      imu[TIMESTAMP] := R4(ofs + 8);
      forall i | ACC <= i < PRESSURE {
        imu[i] := R4(ofs + 12 + 4 * (i - 1));
      }
      forall i | ACC <= i < PRESSURE
        ensures imu[i] == Word(Quad(n.floats, i - 1))
      {
        assert p[ofs + 12 + 4 * (i - 1)..ofs + 12 + 4 * (i - 1) + 4] == Quad(n.floats, i - 1);
      }
      assert imu[..] == NodeCells(n);
      OverwriteAll(old(imu[..]), NodeCells(n));
    }

    method StoreQuat(ofs: nat, ghost floats: seq<byte>)
      requires Valid() && ofs + 17 <= dec.len
      requires |floats| == 16 && Payload()[ofs..ofs + 17] == [TAG_QUAT] + floats
      modifies imu
      ensures imu[..] == Overwrite(old(imu[..]), Writes(Quat(floats)))
    {
      QuatFields(Payload(), ofs, floats);
      ghost var w := Writes(Quat(floats)).cells;
      assert R4(ofs + 1) == w[0] && R4(ofs + 5) == w[1] && R4(ofs + 9) == w[2] && R4(ofs + 13) == w[3];
      imu[QUAT] := R4(ofs + 1);
      imu[QUAT + 1] := R4(ofs + 5);
      imu[QUAT + 2] := R4(ofs + 9);
      imu[QUAT + 3] := R4(ofs + 13);
      assert imu[QUAT..QUAT + 4] == w;
    }

    /** The case for an item with three 16-bit readings. */
    method ParseAxes(ofs: nat, ghost c: Chunk)
      requires Valid() && c.Axes? && ofs + 7 <= dec.len
      requires Payload()[ofs..ofs + 7] == Print(c) && nItemCode < MAX_ITEMS
      modifies this`nimu, this`nItemCode, imu, itemCode
      ensures Valid() && Abs() == Perform(old(Abs()), EffectOf(c))
    {
      AxesFields(Payload(), ofs, c);
      var tag := dec.buf[HEADER + ofs];
      StoreCode(tag);
      if tag == TAG_ACC {
        nimu := 1;
        StoreAxes(ACC, ofs, 1000, 1000, 1000);
      } else if tag == TAG_GYR {
        nimu := 1;
        StoreAxes(GYR, ofs, 10, 10, 10);
      } else if tag == TAG_MAG {
        nimu := 1;
        StoreAxes(MAG, ofs, 10, 10, 10);
      } else {
        StoreAxes(EUL, ofs, 100, 100, 10);
      }
    }

    /** The loop over the nodes of a gateway item. */
    method StoreNodes(ofs: nat, ghost nodes: seq<Node>) returns (next: nat)
      requires Valid() && nimu as int == |nodes| <= 1 && ofs + 76 * |nodes| <= dec.len
      requires nodes != [] ==> NodeOk(nodes[0]) && Payload()[ofs..ofs + 76] == PrintNode(nodes[0])
      modifies imu
      ensures next == ofs + 76 * |nodes|
      ensures imu[..] == if nodes == [] then old(imu[..]) else Overwrite(old(imu[..]), Patch(0, NodeCells(nodes[0])))
    {
      next := ofs;
      var i: byte := 0;
      while i < nimu
        invariant i <= nimu && next == ofs + 76 * i as nat
        invariant imu[..] == if i == 0 then old(imu[..]) else Overwrite(old(imu[..]), Patch(0, NodeCells(nodes[0])))
      {
        StoreNode(next, nodes[0]);
        next := next + 76;
        i := i + 1;
      }
    }

    /** The case for a gateway item with its nodes. */
    method ParseGateway(ofs: nat, ghost c: Chunk) returns (next: nat)
      requires Valid() && c.GwSol? && ofs + |Print(c)| <= dec.len
      requires Payload()[ofs..ofs + |Print(c)|] == Print(c) && nItemCode < MAX_ITEMS
      modifies this`gwid, this`nimu, this`nItemCode, imu, itemCode
      ensures Valid() && Abs() == Perform(old(Abs()), EffectOf(c))
      ensures next == ofs + |Print(c)|
    {
      GatewayFields(Payload(), ofs, c);
      StoreCode(TAG_GWSOL);
      gwid := dec.buf[HEADER + ofs + 1];
      nimu := dec.buf[HEADER + ofs + 2];
      next := StoreNodes(ofs + 8, c.nodes);
      OverwriteNothing(old(imu[..]));
      assert imu[..] == Overwrite(old(imu[..]), Writes(c));
    }

    method ParsePressure(ofs: nat, ghost c: Chunk)
      requires Valid() && c.Pressure? && ofs + 5 <= dec.len
      requires Payload()[ofs..ofs + 5] == Print(c) && nItemCode < MAX_ITEMS
      modifies this`nimu, this`nItemCode, imu, itemCode
      ensures Valid() && Abs() == Perform(old(Abs()), EffectOf(c))
    {
      assert Print(c)[1..] == c.value;
      SubSlice(Payload(), ofs, 5, 1, 5);
      nimu := 1;
      StoreCode(TAG_PRESSURE);
      imu[PRESSURE] := R4(ofs + 1);
    }

    method ParseImuSol(ofs: nat, ghost c: Chunk)
      requires Valid() && c.ImuSol? && ofs + 76 <= dec.len
      requires Payload()[ofs..ofs + 76] == Print(c) && nItemCode < MAX_ITEMS
      modifies this`nimu, this`nItemCode, imu, itemCode
      ensures Valid() && Abs() == Perform(old(Abs()), EffectOf(c))
    {
      nimu := 1;
      StoreCode(TAG_IMUSOL);
      StoreNode(ofs, c.node);
    }

    /** One turn of the parsing loop, at a place where the chunk `c` is printed. */
    method ParseItem(ofs: nat, ghost c: Chunk) returns (next: nat)
      requires Valid() && ofs + |Print(c)| <= dec.len
      requires Payload()[ofs..ofs + |Print(c)|] == Print(c)
      requires c.Filler? || nItemCode < MAX_ITEMS
      modifies this`gwid, this`nimu, this`nItemCode, imu, itemCode
      ensures Valid() && Abs() == Perform(old(Abs()), EffectOf(c))
      ensures next == ofs + |Print(c)|
    {
      FirstByte(Payload(), ofs, c);
      var tag := dec.buf[HEADER + ofs];
      next := ofs;
      if tag == TAG_ID {
        nimu := 1;
        StoreCode(TAG_ID);
        imu[ID] := Word([dec.buf[HEADER + ofs + 1], 0, 0, 0]);
        next := ofs + 2;
      } else if tag == TAG_ACC || tag == TAG_GYR || tag == TAG_MAG || tag == TAG_EUL {
        ParseAxes(ofs, c);
        next := ofs + 7;
      } else if tag == TAG_QUAT {
        nimu := 1;
        StoreCode(TAG_QUAT);
        StoreQuat(ofs, c.floats);
        next := ofs + 17;
      } else if tag == TAG_PRESSURE {
        ParsePressure(ofs, c);
        next := ofs + 5;
      } else if tag == TAG_IMUSOL {
        ParseImuSol(ofs, c);
        next := ofs + 76;
      } else if tag == TAG_GWSOL {
        next := ParseGateway(ofs, c);
      } else {
        next := ofs + 1;
      }
    }

    /** The loop body at the k-th chunk. */
    method ParseNext(ofs: nat, ghost cs: seq<Chunk>, ghost k: nat, ghost start: Parsed) returns (next: nat)
      requires Valid() && Payload() == PrintAll(cs) && |start.codes| + |Listed(Effects(cs))| <= MAX_ITEMS
      requires k <= |cs| && ofs == |PrintAll(cs[..k])| < dec.len
      requires Abs() == PerformAll(start, Effects(cs)[..k])
      modifies this`gwid, this`nimu, this`nItemCode, imu, itemCode
      ensures Valid() && k < |cs| && ofs < next <= dec.len
      ensures next == |PrintAll(cs[..k + 1])|
      ensures Abs() == PerformAll(start, Effects(cs)[..k + 1])
    {
      AtChunk(start, cs, k);
      ghost var c := cs[k];
      assert Payload()[ofs..ofs + |Print(c)|] == Print(c) && |Abs().codes| + |Codes(c)| <= MAX_ITEMS;
      next := ParseItem(ofs, c);
      PerformNext(start, Effects(cs), k);
    }

    /** The payload is any print of chunks with at most eight items. */
    method ParseData(ghost cs: seq<Chunk>) returns (code: int, ofs: nat)
      requires Valid() && Payload() == PrintAll(cs) && |Listed(Effects(cs))| <= 8
      modifies this`gwid, this`nimu, this`nItemCode, imu, itemCode
      ensures Valid() && Abs() == PerformAll(old(Abs()).(codes := []), Effects(cs))
      ensures code == 1 && ofs == dec.len
    {
      ofs := 0;
      forall i | 0 <= i < itemCode.Length {
        itemCode[i] := 0;
      }
      nItemCode := 0;
      ghost var start := Abs();
      assert start == old(Abs()).(codes := []);
      ghost var k := 0;
      while ofs < dec.len
        invariant Valid() && k <= |cs| && ofs <= dec.len
        invariant ofs == |PrintAll(cs[..k])|
        invariant Abs() == PerformAll(start, Effects(cs)[..k])
        decreases dec.len - ofs
      {
        ofs := ParseNext(ofs, cs, k, start);
        k := k + 1;
      }
      CursorEnd(cs, k);
      assert Effects(cs)[..|cs|] == Effects(cs);
      code := 1;
    }
  }

  /** The code of the k-th chunk still fits. */
  lemma RoomLeft(start: Parsed, cs: seq<Chunk>, k: nat)
    requires k < |cs| && |start.codes| + |Listed(Effects(cs))| <= MAX_ITEMS
    ensures |PerformAll(start, Effects(cs)[..k]).codes| + |Codes(cs[k])| <= MAX_ITEMS
  {
    ListedPrefix(Effects(cs), k);
    CodesAreListed(start, Effects(cs)[..k]);
  }

  /** Before the end of the payload the cursor is at a chunk whose code still fits. */
  lemma AtChunk(start: Parsed, cs: seq<Chunk>, k: nat)
    requires k <= |cs| && |PrintAll(cs[..k])| < |PrintAll(cs)|
    requires |start.codes| + |Listed(Effects(cs))| <= MAX_ITEMS
    ensures k < |cs| && |PerformAll(start, Effects(cs)[..k]).codes| + |Codes(cs[k])| <= MAX_ITEMS
    ensures var ofs, n := |PrintAll(cs[..k])|, |Print(cs[k])|;
            ofs + n <= |PrintAll(cs)| && PrintAll(cs)[ofs..ofs + n] == Print(cs[k])
            && |PrintAll(cs[..k + 1])| == ofs + n
  {
    CursorBelow(cs, k);
    CursorChunk(cs, k);
    RoomLeft(start, cs, k);
  }

  lemma NodeFields(p: seq<byte>, ofs: nat, n: Node)
    requires NodeOk(n) && ofs + 76 <= |p| && p[ofs..ofs + 76] == PrintNode(n)
    ensures p[ofs] == n.lead && p[ofs + 1] == n.id
    ensures p[ofs + 4..ofs + 8] == n.pressure && p[ofs + 8..ofs + 12] == n.timestamp
    ensures forall k :: 0 <= k < 16 ==> p[ofs + 12 + 4 * k..ofs + 12 + 4 * k + 4] == Quad(n.floats, k)
  {
    var q := PrintNode(n);
    assert forall i :: 0 <= i < 76 ==> p[ofs + i] == p[ofs..ofs + 76][i] == q[i];
    assert q[4..8] == n.pressure && q[8..12] == n.timestamp;
    assert forall i :: 0 <= i < 64 ==> q[12 + i] == n.floats[i];
    forall k | 0 <= k < 16
      ensures p[ofs + 12 + 4 * k..ofs + 12 + 4 * k + 4] == Quad(n.floats, k)
    {
      assert q[12 + 4 * k..12 + 4 * k + 4] == Quad(n.floats, k);
      SubSlice(p, ofs, 76, 12 + 4 * k, 12 + 4 * k + 4);
    }
  }

  lemma FirstByte(p: seq<byte>, ofs: nat, c: Chunk)
    requires ofs + |Print(c)| <= |p| && p[ofs..ofs + |Print(c)|] == Print(c)
    ensures p[ofs] == Print(c)[0]
    ensures c.Filler? ==> !IsTag(p[ofs])
    ensures c.Id? ==> p[ofs] == TAG_ID && p[ofs + 1] == c.id
    ensures c.Axes? ==> p[ofs] == c.tag
    ensures c.Quat? ==> p[ofs] == TAG_QUAT
    ensures c.Pressure? ==> p[ofs] == TAG_PRESSURE
    ensures c.ImuSol? ==> p[ofs] == TAG_IMUSOL
    ensures c.GwSol? ==> p[ofs] == TAG_GWSOL
  {
    var q := p[ofs..ofs + |Print(c)|];
    assert q[0] == p[ofs];
    assert c.Id? ==> q[1] == p[ofs + 1];
  }

  lemma AxesFields(p: seq<byte>, ofs: nat, c: Chunk)
    requires c.Axes? && ofs + 7 <= |p| && p[ofs..ofs + 7] == Print(c)
    ensures p[ofs] == c.tag
    ensures I2(p[ofs + 1], p[ofs + 2]) == c.x
    ensures I2(p[ofs + 3], p[ofs + 4]) == c.y
    ensures I2(p[ofs + 5], p[ofs + 6]) == c.z
  {
    var q := Print(c);
    assert forall i :: 0 <= i < 7 ==> p[ofs + i] == p[ofs..ofs + 7][i] == q[i];
    assert q[1..3] == PutI2(c.x) && q[3..5] == PutI2(c.y) && q[5..7] == PutI2(c.z);
  }

  lemma QuatFields(p: seq<byte>, ofs: nat, floats: seq<byte>)
    requires |floats| == 16 && ofs + 17 <= |p| && p[ofs..ofs + 17] == [TAG_QUAT] + floats
    ensures p[ofs + 1..ofs + 5] == Quad(floats, 0) && p[ofs + 5..ofs + 9] == Quad(floats, 1)
    ensures p[ofs + 9..ofs + 13] == Quad(floats, 2) && p[ofs + 13..ofs + 17] == Quad(floats, 3)
  {
    var q := [TAG_QUAT] + floats;
    forall k | 0 <= k < 4
      ensures p[ofs + 1 + 4 * k..ofs + 1 + 4 * k + 4] == Quad(floats, k)
    {
      assert q[1 + 4 * k..1 + 4 * k + 4] == Quad(floats, k);
      SubSlice(p, ofs, 17, 1 + 4 * k, 1 + 4 * k + 4);
    }
  }

  lemma GatewayFields(p: seq<byte>, ofs: nat, c: Chunk)
    requires c.GwSol? && ofs + |Print(c)| <= |p| && p[ofs..ofs + |Print(c)|] == Print(c)
    ensures p[ofs + 1] == c.gwid && p[ofs + 2] as int == |c.nodes|
    ensures |Print(c)| == 8 + 76 * |c.nodes|
    ensures c.nodes != [] ==> p[ofs + 8..ofs + 84] == PrintNode(c.nodes[0])
  {
    var q := Print(c);
    assert p[ofs..ofs + |q|][1] == p[ofs + 1] && p[ofs..ofs + |q|][2] == p[ofs + 2];
    if c.nodes != [] {
      assert q[8..84] == PrintNode(c.nodes[0]);
      assert p[ofs..ofs + |q|][8..84] == p[ofs + 8..ofs + 84];
    }
  }

  lemma PrintSingle(c: Chunk)
    ensures PrintAll([c]) == Print(c)
  {
    assert [c][1..] == [];
    var s := Print(c);
    assert s + [] == s;
  }

  lemma PrintSplit(cs: seq<Chunk>, c: Chunk, ds: seq<Chunk>)
    ensures PrintAll(cs + [c] + ds) == PrintAll(cs) + Print(c) + PrintAll(ds)
    ensures PrintAll(cs + [c]) == PrintAll(cs) + Print(c)
  {
    PrintSingle(c);
    PrintAllConcat(cs, [c]);
    PrintAllConcat(cs + [c], ds);
  }

  lemma CursorBelow(cs: seq<Chunk>, k: nat)
    requires k <= |cs| && |PrintAll(cs[..k])| < |PrintAll(cs)|
    ensures k < |cs|
  {
    assert cs[..|cs|] == cs;
  }

  lemma CursorChunk(cs: seq<Chunk>, k: nat)
    requires k < |cs|
    ensures var ofs := |PrintAll(cs[..k])|;
            var n := |Print(cs[k])|;
            ofs + n <= |PrintAll(cs)| && PrintAll(cs)[ofs..ofs + n] == Print(cs[k])
            && |PrintAll(cs[..k + 1])| == ofs + n
  {
    var before, c, after := cs[..k], cs[k], cs[k + 1..];
    assert cs == before + [c] + after && cs[..k + 1] == before + [c];
    PrintSplit(before, c, after);
    MiddlePart(PrintAll(before), Print(c), PrintAll(after));
  }

  lemma CursorEnd(cs: seq<Chunk>, k: nat)
    requires k <= |cs| && |PrintAll(cs[..k])| >= |PrintAll(cs)|
    ensures k == |cs|
  {
    if k < |cs| {
      assert cs == cs[..k] + cs[k..];
      PrintAllConcat(cs[..k], cs[k..]);
    }
  }

  // ----- single items, from the bytes of the payload to the numbered cells -----

  /** The payload p is the print of this chunk alone. */
  ghost predicate Carries(c: Chunk, p: seq<byte>)
  {
    PrintAll([c]) == p && |Listed(Effects([c]))| <= 8
  }

  /** What parsing such a payload does to the results. */
  function Alone(d: Parsed, c: Chunk): Parsed
  {
    PerformAll(d.(codes := []), Effects([c]))
  }

  lemma AloneIs(d: Parsed, c: Chunk)
    ensures Alone(d, c) == Parsed(Changed(d.gwid, EffectOf(c).gwid), Changed(d.nimu, NodeCount(c)),
                                  Overwrite(d.imu, Writes(c)), Codes(c))
    ensures Listed(Effects([c])) == Codes(c)
  {
    var es := Effects([c]);
    assert es == [EffectOf(c)] && es[1..] == [];
    var start := d.(codes := []);
    var r := Perform(start, es[0]);
    assert PerformAll(start, es) == PerformAll(r, es[1..]) == r;
    assert start.codes + Codes(c) == Codes(c) && Codes(c) + Listed(es[1..]) == Codes(c);
  }

  lemma AxesOf(p: seq<byte>) returns (c: Chunk)
    requires |p| == 7 && p[0] in {0xA0, 0xB0, 0xC0, 0xD0}
    ensures c == Axes(p[0], I2(p[1], p[2]), I2(p[3], p[4]), I2(p[5], p[6])) && Carries(c, p)
  {
    c := Axes(p[0], I2(p[1], p[2]), I2(p[3], p[4]), I2(p[5], p[6]));
    PutI2Back(p[1], p[2]);
    PutI2Back(p[3], p[4]);
    PutI2Back(p[5], p[6]);
    assert Print(c) == p;
    PrintSingle(c);
    AloneIs(Parsed(0, 0, [], []), c);
  }

  /** Acceleration: tag A0, cells 1 to 3, in thousandths. */
  lemma AccItem(p: seq<byte>, d: Parsed) returns (c: Chunk)
    requires |p| == 7 && p[0] == 0xA0 && |d.imu| == 19
    ensures Carries(c, p)
    ensures Alone(d, c) == Parsed(d.gwid, 1,
                             d.imu
                              [1 := Ratio(I2(p[1], p[2]), 1000)]
                              [2 := Ratio(I2(p[3], p[4]), 1000)]
                              [3 := Ratio(I2(p[5], p[6]), 1000)],
                             [0xA0])
  {
    c := AxesOf(p);
    AloneIs(d, c);
    assert Alone(d, c).imu == d.imu[1 := Writes(c).cells[0]][2 := Writes(c).cells[1]][3 := Writes(c).cells[2]];
  }

  /** Angular velocity: tag B0, cells 4 to 6, in tenths. */
  lemma GyrItem(p: seq<byte>, d: Parsed) returns (c: Chunk)
    requires |p| == 7 && p[0] == 0xB0 && |d.imu| == 19
    ensures Carries(c, p)
    ensures Alone(d, c) == Parsed(d.gwid, 1,
                             d.imu
                              [4 := Ratio(I2(p[1], p[2]), 10)]
                              [5 := Ratio(I2(p[3], p[4]), 10)]
                              [6 := Ratio(I2(p[5], p[6]), 10)],
                             [0xB0])
  {
    c := AxesOf(p);
    AloneIs(d, c);
    assert Alone(d, c).imu == d.imu[4 := Writes(c).cells[0]][5 := Writes(c).cells[1]][6 := Writes(c).cells[2]];
  }

  /** Magnetic field: tag C0, cells 7 to 9, in tenths. */
  lemma MagItem(p: seq<byte>, d: Parsed) returns (c: Chunk)
    requires |p| == 7 && p[0] == 0xC0 && |d.imu| == 19
    ensures Carries(c, p)
    ensures Alone(d, c) == Parsed(d.gwid, 1,
                             d.imu
                              [7 := Ratio(I2(p[1], p[2]), 10)]
                              [8 := Ratio(I2(p[3], p[4]), 10)]
                              [9 := Ratio(I2(p[5], p[6]), 10)],
                             [0xC0])
  {
    c := AxesOf(p);
    AloneIs(d, c);
    assert Alone(d, c).imu == d.imu[7 := Writes(c).cells[0]][8 := Writes(c).cells[1]][9 := Writes(c).cells[2]];
  }

  /** Euler angles: tag D0, cells 10 to 12, in hundredths and, the last, tenths; the node count stays. */
  lemma EulItem(p: seq<byte>, d: Parsed) returns (c: Chunk)
    requires |p| == 7 && p[0] == 0xD0 && |d.imu| == 19
    ensures Carries(c, p)
    ensures Alone(d, c) == Parsed(d.gwid, d.nimu,
                             d.imu
                              [10 := Ratio(I2(p[1], p[2]), 100)]
                              [11 := Ratio(I2(p[3], p[4]), 100)]
                              [12 := Ratio(I2(p[5], p[6]), 10)],
                             [0xD0])
  {
    c := AxesOf(p);
    AloneIs(d, c);
    assert Alone(d, c).imu == d.imu[10 := Writes(c).cells[0]][11 := Writes(c).cells[1]][12 := Writes(c).cells[2]];
  }

  /** Identification: tag 90, cell 0. */
  lemma IdItem(p: seq<byte>, d: Parsed) returns (c: Chunk)
    requires |p| == 2 && p[0] == 0x90 && |d.imu| == 19
    ensures Carries(c, p)
    ensures Alone(d, c) == Parsed(d.gwid, 1, d.imu[0 := Word([p[1], 0, 0, 0])], [0x90])
  {
    c := Id(p[1]);
    assert Print(c) == p;
    PrintSingle(c);
    AloneIs(d, c);
    assert Alone(d, c).imu == d.imu[0 := Word([p[1], 0, 0, 0])];
  }

  /** Quaternion: tag D1, cells 13 to 16, as they are. */
  lemma QuatItem(p: seq<byte>, d: Parsed) returns (c: Chunk)
    requires |p| == 17 && p[0] == 0xD1 && |d.imu| == 19
    ensures Carries(c, p)
    ensures Alone(d, c) == Parsed(d.gwid, 1,
                             d.imu
                              [13 := Word(p[1..5])][14 := Word(p[5..9])]
                              [15 := Word(p[9..13])][16 := Word(p[13..17])],
                             [0xD1])
  {
    c := Quat(p[1..]);
    assert Print(c) == p;
    PrintSingle(c);
    AloneIs(d, c);
    var f := p[1..];
    assert f[0..4] == p[1..5] && f[4..8] == p[5..9] && f[8..12] == p[9..13] && f[12..16] == p[13..17];
    var w := Writes(c).cells;
    assert w[0] == Word(p[1..5]) && w[1] == Word(p[5..9]) && w[2] == Word(p[9..13]) && w[3] == Word(p[13..17]);
    assert Alone(d, c).imu == d.imu[13 := w[0]][14 := w[1]][15 := w[2]][16 := w[3]];
  }

  /** Pressure: tag F0, cell 17. */
  lemma PressureItem(p: seq<byte>, d: Parsed) returns (c: Chunk)
    requires |p| == 5 && p[0] == 0xF0 && |d.imu| == 19
    ensures Carries(c, p)
    ensures Alone(d, c) == Parsed(d.gwid, 1, d.imu[17 := Word(p[1..5])], [0xF0])
  {
    c := Pressure(p[1..]);
    assert Print(c) == p && p[1..] == p[1..5];
    PrintSingle(c);
    AloneIs(d, c);
    assert Alone(d, c).imu == d.imu[17 := Word(p[1..5])];
  }

  /**
  The 76 bytes q of a node: byte 1 is the identification, bytes 4 to 7 the pressure, 8 to 11
  the time stamp, and from byte 12 on acceleration, angular velocity, magnetic field, Euler
  angles and quaternion, four bytes each.
  */
  ghost predicate IsNode(imu: seq<Cell>, q: seq<byte>)
  {
    && |q| == 76 && |imu| == 19
    && imu[0] == Word([q[1], 0, 0, 0]) && imu[17] == Word(q[4..8]) && imu[18] == Word(q[8..12])
    && forall i :: 1 <= i <= 16 ==> imu[i] == Word(q[8 + 4 * i..12 + 4 * i])
  }

  lemma NodeOf(q: seq<byte>) returns (n: Node)
    requires |q| == 76
    ensures NodeOk(n) && PrintNode(n) == q && IsNode(NodeCells(n), q)
  {
    n := Node(q[0], q[1], q[2..4], q[4..8], q[8..12], q[12..]);
    assert PrintNode(n) == q;
    var w := NodeCells(n);
    forall i | 1 <= i <= 16
      ensures w[i] == Word(q[8 + 4 * i..12 + 4 * i])
    {
      assert w[i] == Word(Quad(n.floats, i - 1));
      SubSlice(q, 12, 64, 4 * (i - 1), 4 * (i - 1) + 4);
      assert q[12..12 + 64] == q[12..];
    }
  }

  /** A single node: tag 91. */
  lemma NodeItem(p: seq<byte>, d: Parsed) returns (c: Chunk)
    requires |p| == 76 && p[0] == 0x91 && |d.imu| == 19
    ensures Carries(c, p)
    ensures var r := Alone(d, c); IsNode(r.imu, p) && r == Parsed(d.gwid, 1, r.imu, [0x91])
  {
    var n := NodeOf(p);
    assert PrintNode(n)[0] == n.lead;
    c := ImuSol(n);
    PrintSingle(c);
    AloneIs(d, c);
    OverwriteAll(d.imu, NodeCells(n));
  }

  /** A gateway: tag 62, its number, the number of nodes, five more bytes, and then the nodes. */
  lemma GatewayItem(p: seq<byte>, d: Parsed) returns (c: Chunk)
    requires |p| >= 8 && p[0] == 0x62 && p[2] <= 1 && |p| == 8 + 76 * p[2] as int && |d.imu| == 19
    ensures Carries(c, p)
    ensures var r := Alone(d, c);
            && r == Parsed(p[1], p[2], r.imu, [0x62])
            && if p[2] == 0 then r.imu == d.imu else IsNode(r.imu, p[8..])
  {
    if p[2] == 0 {
      c := GwSol(p[1], p[3..], []);
      assert Print(c) == p;
      PrintSingle(c);
      AloneIs(d, c);
      OverwriteNothing(d.imu);
    } else {
      var n := NodeOf(p[8..]);
      c := GwSol(p[1], p[3..8], [n]);
      assert p == [p[0], p[1], p[2]] + p[3..8] + p[8..];
      assert Print(c) == p;
      PrintSingle(c);
      AloneIs(d, c);
      OverwriteAll(d.imu, NodeCells(n));
    }
  }

  predicate NoTags(p: seq<byte>)
  {
    forall i :: 0 <= i < |p| ==> p[i] !in {0x90, 0xA0, 0xB0, 0xC0, 0xD0, 0xD1, 0xF0, 0x91, 0x62}
  }

  /** Bytes that are no tag are skipped one by one and have no effect. */
  lemma {:induction false} FillerPayload(p: seq<byte>, d: Parsed) returns (cs: seq<Chunk>)
    requires NoTags(p)
    ensures PrintAll(cs) == p && Listed(Effects(cs)) == [] && PerformAll(d, Effects(cs)) == d
    decreases |p|
  {
    if p == [] {
      cs := [];
    } else {
      assert p[0] !in {0x90, 0xA0, 0xB0, 0xC0, 0xD0, 0xD1, 0xF0, 0x91, 0x62};
      var rest := FillerPayload(p[1..], d);
      var c: Chunk := Filler(p[0]);
      cs := [c] + rest;
      PrependFiller(c, rest, d);
      assert p == [p[0]] + p[1..];
    }
  }

  lemma PrintFirst(c: Chunk, rest: seq<Chunk>)
    ensures PrintAll([c] + rest) == Print(c) + PrintAll(rest)
  {
    assert ([c] + rest)[1..] == rest;
  }

  lemma EffectsFirst(c: Chunk, rest: seq<Chunk>)
    ensures Effects([c] + rest) == [EffectOf(c)] + Effects(rest)
  {
  }

  lemma FirstEffect(d: Parsed, e: Effect, es: seq<Effect>)
    ensures PerformAll(d, [e] + es) == PerformAll(Perform(d, e), es)
    ensures Listed([e] + es) == e.codes + Listed(es)
  {
    assert ([e] + es)[1..] == es;
  }

  lemma PrependFiller(c: Chunk, rest: seq<Chunk>, d: Parsed)
    requires c.Filler?
    ensures var cs := [c] + rest;
            && PrintAll(cs) == [c.b] + PrintAll(rest) && Listed(Effects(cs)) == Listed(Effects(rest))
            && PerformAll(d, Effects(cs)) == PerformAll(d, Effects(rest))
  {
    PrintFirst(c, rest);
    EffectsFirst(c, rest);
    FirstEffect(d, EffectOf(c), Effects(rest));
    FillerAlone(d, c.b);
    assert [] + Listed(Effects(rest)) == Listed(Effects(rest));
  }

  lemma FillerAlone(d: Parsed, b: byte)
    requires !IsTag(b)
    ensures Perform(d, EffectOf(Filler(b))) == d
  {
    OverwriteNothing(d.imu);
    assert d.codes + [] == d.codes;
  }

  /** A payload of one complete item. */
  predicate SingleItem(p: seq<byte>)
  {
    && |p| >= 2
    && if p[0] == 0x90 then |p| == 2
       else if p[0] in {0xA0, 0xB0, 0xC0, 0xD0} then |p| == 7
       else if p[0] == 0xD1 then |p| == 17
       else if p[0] == 0xF0 then |p| == 5
       else if p[0] == 0x91 then |p| == 76
       else p[0] == 0x62 && |p| >= 8 && p[2] <= 1 && |p| == 8 + 76 * p[2] as int
  }

  /** Every result after it, from the results before and the bytes. */
  ghost predicate AfterItem(d: Parsed, p: seq<byte>, r: Parsed)
    requires SingleItem(p)
  {
    && |d.imu| == 19
    && if p[0] == 0x90 then r == Parsed(d.gwid, 1, d.imu[0 := Word([p[1], 0, 0, 0])], [0x90])
       else if p[0] == 0xA0 then r == Parsed(d.gwid, 1, ThreeAxes(d.imu, p, 1, 1000, 1000, 1000), [0xA0])
       else if p[0] == 0xB0 then r == Parsed(d.gwid, 1, ThreeAxes(d.imu, p, 4, 10, 10, 10), [0xB0])
       else if p[0] == 0xC0 then r == Parsed(d.gwid, 1, ThreeAxes(d.imu, p, 7, 10, 10, 10), [0xC0])
       else if p[0] == 0xD0 then r == Parsed(d.gwid, d.nimu, ThreeAxes(d.imu, p, 10, 100, 100, 10), [0xD0])
       else if p[0] == 0xD1 then
         r == Parsed(d.gwid, 1,
                d.imu[13 := Word(p[1..5])][14 := Word(p[5..9])][15 := Word(p[9..13])][16 := Word(p[13..17])], [0xD1])
       else if p[0] == 0xF0 then r == Parsed(d.gwid, 1, d.imu[17 := Word(p[1..5])], [0xF0])
       else if p[0] == 0x91 then IsNode(r.imu, p) && r == Parsed(d.gwid, 1, r.imu, [0x91])
       else r == Parsed(p[1], p[2], r.imu, [0x62]) && if p[2] == 0 then r.imu == d.imu else IsNode(r.imu, p[8..])
  }

  /** Three little-endian readings behind the tag, each divided by its constant, in three cells from `at` on. */
  function ThreeAxes(imu: seq<Cell>, p: seq<byte>, at: nat, dx: nat, dy: nat, dz: nat): (r: seq<Cell>)
    requires |p| == 7 && at + 3 <= |imu|
    ensures |r| == |imu|
  {
    imu[at := Ratio(I2(p[1], p[2]), dx)][at + 1 := Ratio(I2(p[3], p[4]), dy)][at + 2 := Ratio(I2(p[5], p[6]), dz)]
  }

  lemma ItemAfter(d: Parsed, p: seq<byte>) returns (c: Chunk)
    requires SingleItem(p) && |d.imu| == 19
    ensures Carries(c, p) && AfterItem(d, p, Alone(d, c))
  {
    if p[0] == 0x90 {
      c := IdItem(p, d);
    } else if p[0] == 0xA0 {
      c := AccItem(p, d);
    } else if p[0] == 0xB0 {
      c := GyrItem(p, d);
    } else if p[0] == 0xC0 {
      c := MagItem(p, d);
    } else if p[0] == 0xD0 {
      c := EulItem(p, d);
    } else if p[0] == 0xD1 {
      c := QuatItem(p, d);
    } else if p[0] == 0xF0 {
      c := PressureItem(p, d);
    } else if p[0] == 0x91 {
      c := NodeItem(p, d);
    } else {
      c := GatewayItem(p, d);
    }
  }

  /** Cell i of a node is taken from the bytes at this place. */
  ghost predicate TakenFrom(n: Node, i: nat, at: nat)
    requires NodeOk(n) && i < 19 && at + 4 <= 76
  {
    NodeCells(n)[i] == Word(PrintNode(n)[at..at + 4])
  }

  /** A quantity goes to the cells that a node fills from the bytes of the same quantity, in the same order. */
  lemma SameCells(n: Node, c: Chunk, i: nat)
    requires NodeOk(n) && i < 19 && Writes(c).Sets(i)
    ensures c.Axes? && c.tag == 0xA0 ==> 1 <= i <= 3 && TakenFrom(n, i, 12 + 4 * (i - 1))
    ensures c.Axes? && c.tag == 0xB0 ==> 4 <= i <= 6 && TakenFrom(n, i, 24 + 4 * (i - 4))
    ensures c.Axes? && c.tag == 0xC0 ==> 7 <= i <= 9 && TakenFrom(n, i, 36 + 4 * (i - 7))
    ensures c.Axes? && c.tag == 0xD0 ==> 10 <= i <= 12 && TakenFrom(n, i, 48 + 4 * (i - 10))
    ensures c.Quat? ==> 13 <= i <= 16 && TakenFrom(n, i, 60 + 4 * (i - 13))
    ensures c.Pressure? ==> i == 17 && TakenFrom(n, i, 4)
  {
    var q := PrintNode(n);
    var m := NodeOf(q);
    assert m.floats == q[12..] == n.floats && m.pressure == q[4..8] == n.pressure;
    assert m.timestamp == q[8..12] == n.timestamp && m.id == q[1] == n.id;
    assert 1 <= i <= 16 ==> NodeCells(n)[i] == NodeCells(m)[i];
  }
}
