/**
The checksum of lib/hi229/hi229_serial.c. Machine words are bit strings of fixed
length, most significant bit first, so that shifts drop the top bit explicitly.
*/
module Crc16 {
  import opened Arith
  import opened Bytes
  import opened Gf2

  type Word32 = w: Bits | |w| == 32 witness Zeros(32)

  /** n bits with ones exactly at the positions in `ones`. */
  function Pattern(n: nat, ones: set<int>): (r: Bits)
    ensures |r| == n && forall i :: 0 <= i < n ==> r[i] == (i in ones)
  {
    seq(n, i => i in ones)
  }

  /** x^16 + x^12 + x^5 + 1, the generator of ITU-T V.41 section 2. */
  const POLY: Generator := Pattern(17, {0, 4, 11, 16})

  /** The constant 0x1021 as a 32-bit word. */
  const TAPS: Word32 := Pattern(32, {19, 26, 31})

  /** The value of bit i of a byte, the most significant first. */
  function Weight(i: nat): (w: nat)
    requires i < 8
    ensures w >= 1
    decreases 8 - i
  {
    if i == 7 then 1 else 2 * Weight(i + 1)
  }

  function ByteBits(b: byte): (r: Bits)
    ensures |r| == 8
  {
    seq(8, i requires 0 <= i < 8 => b as int / Weight(i) % 2 == 1)
  }

  /** The byte with these bits. */
  function BitsByte(r: Bits): byte
    requires |r| == 8
  {
    (128 * Digit(r[0]) + 64 * Digit(r[1]) + 32 * Digit(r[2]) + 16 * Digit(r[3])
     + 8 * Digit(r[4]) + 4 * Digit(r[5]) + 2 * Digit(r[6]) + Digit(r[7])) as byte
  }

  lemma DigitAt(v: nat, w: nat, high: nat, d: nat, low: nat)
    requires low < w && d < 2 && v == (2 * high + d) * w + low
    ensures v / w % 2 == d
  {
    DivModUnique(v, w, 2 * high + d, low);
  }

  lemma HighDigits(r: Bits, v: nat)
    requires |r| == 8 && v == BitsByte(r) as nat
    ensures v / 128 % 2 == Digit(r[0]) && v / 64 % 2 == Digit(r[1])
    ensures v / 32 % 2 == Digit(r[2]) && v / 16 % 2 == Digit(r[3])
  {
    var a, b, c, d := Digit(r[0]), Digit(r[1]), Digit(r[2]), Digit(r[3]);
    var low := 8 * Digit(r[4]) + 4 * Digit(r[5]) + 2 * Digit(r[6]) + Digit(r[7]);
    DigitAt(v, 128, 0, a, 64 * b + 32 * c + 16 * d + low);
    DigitAt(v, 64, a, b, 32 * c + 16 * d + low);
    DigitAt(v, 32, 2 * a + b, c, 16 * d + low);
    DigitAt(v, 16, 4 * a + 2 * b + c, d, low);
  }

  lemma LowDigits(r: Bits, v: nat)
    requires |r| == 8 && v == BitsByte(r) as nat
    ensures v / 8 % 2 == Digit(r[4]) && v / 4 % 2 == Digit(r[5])
    ensures v / 2 % 2 == Digit(r[6]) && v % 2 == Digit(r[7])
  {
    var e, f, g, h := Digit(r[4]), Digit(r[5]), Digit(r[6]), Digit(r[7]);
    var high := 8 * Digit(r[0]) + 4 * Digit(r[1]) + 2 * Digit(r[2]) + Digit(r[3]);
    DigitAt(v, 8, high, e, 4 * f + 2 * g + h);
    DigitAt(v, 4, 2 * high + e, f, 2 * g + h);
    DigitAt(v, 2, 4 * high + 2 * e + f, g, h);
  }

  lemma Weights()
    ensures Weight(0) == 128 && Weight(1) == 64 && Weight(2) == 32 && Weight(3) == 16
    ensures Weight(4) == 8 && Weight(5) == 4 && Weight(6) == 2 && Weight(7) == 1
  {
    assert Weight(5) == 4 && Weight(3) == 16 && Weight(1) == 64;
  }

  lemma BitsFromDigits(x: byte, r: Bits)
    requires |r| == 8 && forall i: nat :: i < 8 ==> x as int / Weight(i) % 2 == Digit(r[i])
    ensures ByteBits(x) == r
  {
  }

  lemma BitsByteInverse(r: Bits)
    requires |r| == 8
    ensures ByteBits(BitsByte(r)) == r
  {
    var x := BitsByte(r);
    Weights();
    HighDigits(r, x as nat);
    LowDigits(r, x as nat);
    BitsFromDigits(x, r);
  }

  function MessageBits(s: seq<byte>): (r: Bits)
    ensures |r| == 8 * |s|
  {
    if s == [] then [] else ByteBits(s[0]) + MessageBits(s[1..])
  }

  function ShiftLeft(w: Word32): Word32
  {
    w[1..] + [false]
  }

  /** `byte << 8` in 32 bits. */
  function ByteAtBit8(b: byte): Word32
  {
    Zeros(16) + ByteBits(b) + Zeros(8)
  }

  /** What the conversion of the accumulator to uint16_t keeps. */
  function Truncate(acc: Word32): Reg
  {
    acc[16..]
  }

  lemma {:induction false} MessageBitsConcat(s: seq<byte>, t: seq<byte>)
    ensures MessageBits(s + t) == MessageBits(s) + MessageBits(t)
  {
    if s == [] {
      assert s + t == t;
    } else {
      assert (s + t)[1..] == s[1..] + t;
      MessageBitsConcat(s[1..], t);
    }
  }

  /** The body of the inner loop: one clock of the register, whatever the high half holds. */
  method Clock(crc: Word32) returns (next: Word32)
    ensures Truncate(next) == Feed(POLY, Truncate(crc), false)
  {
    var temp := ShiftLeft(crc);
    if crc[16] {
      temp := Xor(temp, TAPS);
    }
    next := temp;
    ghost var reg := Feed(POLY, Truncate(crc), false);
    forall i | 0 <= i < 16
      ensures next[16 + i] == reg[i]
    {
      assert Scaled(crc[16], POLY[1..])[i] == (crc[16] && TAPS[16 + i]);
    }
  }

  /** XORing a byte in at bit 8 adds its bits to the top of the register. */
  lemma AccumulatorAddByte(acc: Word32, b: byte)
    ensures Truncate(Xor(acc, ByteAtBit8(b))) == Xor(Truncate(acc), ByteBits(b) + Zeros(8))
  {
  }

  lemma FeedNextByte(c: Reg, src: seq<byte>, j: nat)
    requires j < |src|
    ensures FeedAll(POLY, c, MessageBits(src[..j + 1]))
         == FeedAll(POLY, FeedAll(POLY, c, MessageBits(src[..j])), ByteBits(src[j]))
  {
    assert src[..j + 1] == src[..j] + [src[j]];
    MessageBitsConcat(src[..j], [src[j]]);
    assert MessageBits([src[j]]) == ByteBits(src[j]);
    FeedAllConcat(POLY, c, MessageBits(src[..j]), ByteBits(src[j]));
  }

  lemma AddByteIsFeed(acc: Word32, b: byte)
    ensures Shift(POLY, Truncate(Xor(acc, ByteAtBit8(b))), 8) == FeedAll(POLY, Truncate(acc), ByteBits(b))
  {
    FeedIsAddThenShift(POLY, Truncate(acc), ByteBits(b));
    AccumulatorAddByte(acc, b);
  }

  /** The body of the outer loop. */
  method AddByte(acc: Word32, b: byte) returns (crc: Word32)
    ensures Truncate(crc) == FeedAll(POLY, Truncate(acc), ByteBits(b))
  {
    crc := Xor(acc, ByteAtBit8(b));
    ghost var start := Truncate(crc);
    for i := 0 to 8
      invariant Truncate(crc) == Shift(POLY, start, i)
    {
      crc := Clock(crc);
      ShiftOnce(POLY, start, i);
    }
    AddByteIsFeed(acc, b);
  }

  method Update(current: Reg, src: seq<byte>) returns (crc: Reg)
    ensures crc == FeedAll(POLY, current, MessageBits(src))
    ensures current == Zeros(16) ==> IsRemainder(POLY, MessageBits(src), crc)
  {
    var acc: Word32 := Zeros(16) + current;
    assert Truncate(acc) == current;
    for j := 0 to |src|
      invariant Truncate(acc) == FeedAll(POLY, current, MessageBits(src[..j]))
    {
      acc := AddByte(acc, src[j]);
      FeedNextByte(current, src, j);
    }
    assert src[..|src|] == src;
    crc := Truncate(acc);
    RegisterIsRemainder(POLY, MessageBits(src));
  }

  /** Running over two pieces, with truncation between them, equals running over both at once. */
  lemma UpdateComposes(c: Reg, s: seq<byte>, t: seq<byte>)
    ensures FeedAll(POLY, FeedAll(POLY, c, MessageBits(s)), MessageBits(t))
         == FeedAll(POLY, c, MessageBits(s + t))
  {
    MessageBitsConcat(s, t);
    FeedAllConcat(POLY, c, MessageBits(s), MessageBits(t));
  }

  // ----- the checksum without a loop over bits -----

  /** Whether t is added at place i when it is added k places left of x^12, x^5 and 1, counted from the top. */
  predicate Tap(t: bool, k: nat, i: nat)
  {
    t && (i == k || i == 7 + k || i == 12 + k)
  }

  /** One clock, place by place: what leaves at the top comes back at x^12, x^5 and 1. */
  function Clocked(c: Reg, bit: bool): (d: Reg)
    ensures forall i :: 0 <= i < 16 ==> d[i] == ((i < 15 && c[i + 1]) != Tap(c[0] != bit, 3, i))
  {
    seq(16, i requires 0 <= i < 16 => (i < 15 && c[i + 1]) != Tap(c[0] != bit, 3, i))
  }

  lemma FeedIsClocked(c: Reg, bit: bool)
    ensures Feed(POLY, c, bit) == Clocked(c, bit)
  {
    var d := Feed(POLY, c, bit);
    forall i | 0 <= i < 16
      ensures d[i] == Clocked(c, bit)[i]
    {
      assert POLY[1..][i] == POLY[i + 1];
    }
  }

  /** A set bit leaves the generator x^16 + x^12 + x^5 + 1 in the zero register: 0x1021. */
  lemma OneBitIsGenerator()
    ensures FeedAll(POLY, Zeros(16), [true]) == ByteBits(0x10) + ByteBits(0x21)
  {
    FeedIsClocked(Zeros(16), true);
    assert [true][1..] == [];
    var hi := BitsOf(0x10, [false, false, false, true, false, false, false, false]);
    var lo := BitsOf(0x21, [false, false, true, false, false, false, false, true]);
    assert Clocked(Zeros(16), true) == hi + lo;
  }

  /** The bits of a byte, given as its digits. */
  lemma BitsOf(b: byte, r: Bits) returns (s: Bits)
    requires |r| == 8 && b == BitsByte(r)
    ensures s == r == ByteBits(b)
  {
    BitsByteInverse(r);
    s := r;
  }

  /** x ^ (x >> 4), where x is the top byte of the register with the input byte added. */
  function Folded(c: Reg, e: Bits): (t: Bits)
    requires |e| == 8
    ensures |t| == 8 && forall i :: 0 <= i < 8 ==> t[i] == ((c[i] != e[i]) != (i >= 4 && (c[i - 4] != e[i - 4])))
  {
    seq(8, i requires 0 <= i < 8 => (c[i] != e[i]) != (i >= 4 && (c[i - 4] != e[i - 4])))
  }

  /** (crc << 8) ^ (t << 12) ^ (t << 5) ^ t */
  function NextByte(c: Reg, e: Bits): (d: Reg)
    requires |e| == 8
    ensures var t := Folded(c, e);
            forall i :: 0 <= i < 16 ==>
              d[i] == ((((i < 8 && c[i + 8]) != (i < 4 && t[i + 4])) != (3 <= i < 11 && t[i - 3]))
                       != (i >= 8 && t[i - 8]))
  {
    var t := Folded(c, e);
    seq(16, i requires 0 <= i < 16 =>
      (((i < 8 && c[i + 8]) != (i < 4 && t[i + 4])) != (3 <= i < 11 && t[i - 3])) != (i >= 8 && t[i - 8]))
  }

  /** Four clocks: the four bits on top come back one place apart. */
  function NextNibble(c: Reg, e: Bits): (d: Reg)
    requires |e| == 4
    ensures forall i :: 0 <= i < 16 ==>
              d[i] == (((i < 12 && c[i + 4]) != (Tap(c[0] != e[0], 0, i) != Tap(c[1] != e[1], 1, i)))
                       != (Tap(c[2] != e[2], 2, i) != Tap(c[3] != e[3], 3, i)))
  {
    seq(16, i requires 0 <= i < 16 =>
      ((i < 12 && c[i + 4]) != (Tap(c[0] != e[0], 0, i) != Tap(c[1] != e[1], 1, i)))
      != (Tap(c[2] != e[2], 2, i) != Tap(c[3] != e[3], 3, i)))
  }

  lemma FeedOne(c: Reg, e: Bits)
    requires e != []
    ensures FeedAll(POLY, c, e) == FeedAll(POLY, Clocked(c, e[0]), e[1..])
  {
    FeedIsClocked(c, e[0]);
  }

  /** Two clocks. */
  function NextPair(c: Reg, a: bool, b: bool): (d: Reg)
    ensures forall i :: 0 <= i < 16 ==>
              d[i] == ((i < 14 && c[i + 2]) != (Tap(c[0] != a, 2, i) != Tap(c[1] != b, 3, i)))
  {
    seq(16, i requires 0 <= i < 16 => (i < 14 && c[i + 2]) != (Tap(c[0] != a, 2, i) != Tap(c[1] != b, 3, i)))
  }

  lemma TwoClocks(c: Reg, a: bool, b: bool)
    ensures Clocked(Clocked(c, a), b) == NextPair(c, a, b)
  {
    var n, d := Clocked(Clocked(c, a), b), NextPair(c, a, b);
    assert Clocked(c, a)[0] == c[1];
    forall i | 0 <= i < 16
      ensures n[i] == d[i]
    {
      assert Tap(c[0] != a, 3, i + 1) == Tap(c[0] != a, 2, i);
    }
  }

  lemma TwoPairs(c: Reg, e: Bits)
    requires |e| == 4
    ensures NextPair(NextPair(c, e[0], e[1]), e[2], e[3]) == NextNibble(c, e)
  {
    var p := NextPair(c, e[0], e[1]);
    var n, d := NextPair(p, e[2], e[3]), NextNibble(c, e);
    assert p[0] == c[2] && p[1] == c[3];
    forall i | 0 <= i < 16
      ensures n[i] == d[i]
    {
      assert Tap(c[0] != e[0], 2, i + 2) == Tap(c[0] != e[0], 0, i);
      assert Tap(c[1] != e[1], 3, i + 2) == Tap(c[1] != e[1], 1, i);
    }
  }

  lemma FourClocks(c: Reg, e: Bits)
    requires |e| == 4
    ensures Clocked(Clocked(Clocked(Clocked(c, e[0]), e[1]), e[2]), e[3]) == NextNibble(c, e)
  {
    TwoClocks(c, e[0], e[1]);
    TwoClocks(NextPair(c, e[0], e[1]), e[2], e[3]);
    TwoPairs(c, e);
  }

  lemma NibbleAtOnce(c: Reg, e: Bits)
    requires |e| == 4
    ensures FeedAll(POLY, c, e) == NextNibble(c, e)
  {
    FeedOne(c, e);
    FeedOne(Clocked(c, e[0]), e[1..]);
    FeedOne(Clocked(Clocked(c, e[0]), e[1]), e[2..]);
    FeedOne(Clocked(Clocked(Clocked(c, e[0]), e[1]), e[2]), e[3..]);
    assert e[4..] == [];
    FourClocks(c, e);
  }

  lemma TwoNibbles(c: Reg, e: Bits)
    requires |e| == 8
    ensures NextNibble(NextNibble(c, e[..4]), e[4..]) == NextByte(c, e)
  {
    var n, d := NextNibble(c, e[..4]), NextByte(c, e);
    var m, t := NextNibble(n, e[4..]), Folded(c, e);
    assert forall i :: 0 <= i < 4 ==> (n[i] != e[4..][i]) == t[i + 4];
    forall i | 0 <= i < 16
      ensures m[i] == d[i]
    {
      assert i < 12 ==> n[i + 4] == (((i < 8 && c[i + 8]) != (3 <= i < 7 && t[i - 3])) != (8 <= i && t[i - 8]));
    }
  }

  /** Eight clocks of the register are one such step, for every register and byte. */
  lemma ByteAtOnce(c: Reg, e: Bits)
    requires |e| == 8
    ensures FeedAll(POLY, c, e) == NextByte(c, e)
  {
    FeedAllConcat(POLY, c, e[..4], e[4..]);
    assert e[..4] + e[4..] == e;
    NibbleAtOnce(c, e[..4]);
    NibbleAtOnce(NextNibble(c, e[..4]), e[4..]);
    TwoNibbles(c, e);
  }

  // ----- a checksum worked out by hand -----

  /** Bits written as a string of 0 and 1. */
  function Binary(s: string): (r: Bits)
    ensures |r| == |s| && forall i :: 0 <= i < |s| ==> r[i] == (s[i] == '1')
  {
    seq(|s|, i requires 0 <= i < |s| => s[i] == '1')
  }

  predicate FoldsTo(c: Reg, e: Bits, t: Bits)
  {
    && |e| == 8 && |t| == 8
    && t[0] == (c[0] != e[0]) && t[1] == (c[1] != e[1]) && t[2] == (c[2] != e[2]) && t[3] == (c[3] != e[3])
    && t[4] == ((c[4] != e[4]) != t[0]) && t[5] == ((c[5] != e[5]) != t[1])
    && t[6] == ((c[6] != e[6]) != t[2]) && t[7] == ((c[7] != e[7]) != t[3])
  }

  predicate GoesTo(c: Reg, t: Bits, d: Reg)
  {
    && |t| == 8
    && d[0] == (c[8] != t[4]) && d[1] == (c[9] != t[5]) && d[2] == (c[10] != t[6])
    && d[3] == ((c[11] != t[7]) != t[0]) && d[4] == (c[12] != t[1]) && d[5] == (c[13] != t[2])
    && d[6] == (c[14] != t[3]) && d[7] == (c[15] != t[4]) && d[8] == (t[5] != t[0])
    && d[9] == (t[6] != t[1]) && d[10] == (t[7] != t[2]) && d[11] == t[3] && d[12] == t[4]
    && d[13] == t[5] && d[14] == t[6] && d[15] == t[7]
  }

  lemma FoldedIs(c: Reg, e: Bits, t: Bits)
    requires FoldsTo(c, e, t)
    ensures Folded(c, e) == t
  {
    EightEqual(Folded(c, e), t);
  }

  lemma NextByteIs(c: Reg, e: Bits, t: Bits, d: Reg)
    requires |e| == 8 && Folded(c, e) == t && GoesTo(c, t, d)
    ensures NextByte(c, e) == d
  {
    LowPlaces(c, e, t, d);
    HighPlaces(c, e, t, d);
    SixteenEqual(NextByte(c, e), d);
  }

  lemma SixteenEqual(c: Reg, d: Reg)
    requires c[0] == d[0] && c[1] == d[1] && c[2] == d[2] && c[3] == d[3]
    requires c[4] == d[4] && c[5] == d[5] && c[6] == d[6] && c[7] == d[7]
    requires c[8] == d[8] && c[9] == d[9] && c[10] == d[10] && c[11] == d[11]
    requires c[12] == d[12] && c[13] == d[13] && c[14] == d[14] && c[15] == d[15]
    ensures c == d
  {
  }

  lemma EightEqual(s: Bits, t: Bits)
    requires |s| == |t| == 8
    requires s[0] == t[0] && s[1] == t[1] && s[2] == t[2] && s[3] == t[3]
    requires s[4] == t[4] && s[5] == t[5] && s[6] == t[6] && s[7] == t[7]
    ensures s == t
  {
  }

  lemma LowPlaces(c: Reg, e: Bits, t: Bits, d: Reg)
    requires |e| == 8 && Folded(c, e) == t && GoesTo(c, t, d)
    ensures var n := NextByte(c, e);
            n[0] == d[0] && n[1] == d[1] && n[2] == d[2] && n[3] == d[3]
            && n[4] == d[4] && n[5] == d[5] && n[6] == d[6] && n[7] == d[7]
  {
  }

  lemma HighPlaces(c: Reg, e: Bits, t: Bits, d: Reg)
    requires |e| == 8 && Folded(c, e) == t && GoesTo(c, t, d)
    ensures var n := NextByte(c, e);
            n[8] == d[8] && n[9] == d[9] && n[10] == d[10] && n[11] == d[11]
            && n[12] == d[12] && n[13] == d[13] && n[14] == d[14] && n[15] == d[15]
  {
  }

  /** A byte of a message, its bits, the folded top byte and the checksum behind it. */
  datatype Turn = Turn(b: byte, e: Bits, t: Bits, d: Bits)

  predicate TurnOk(c: Bits, x: Turn)
  {
    |c| == 16 && |x.d| == 16 && FoldsTo(c, x.e, x.t) && GoesTo(c, x.t, x.d) && x.b == BitsByte(x.e)
  }

  predicate Chain(c: Bits, xs: seq<Turn>)
    decreases |xs|
  {
    xs != [] ==> TurnOk(c, xs[0]) && Chain(xs[0].d, xs[1..])
  }

  function TurnBytes(xs: seq<Turn>): seq<byte>
  {
    if xs == [] then [] else [xs[0].b] + TurnBytes(xs[1..])
  }

  function LastOf(c: Bits, xs: seq<Turn>): Bits
    decreases |xs|
  {
    if xs == [] then c else LastOf(xs[0].d, xs[1..])
  }

  lemma {:induction false} ChainFeeds(c: Reg, xs: seq<Turn>)
    requires Chain(c, xs)
    ensures FeedAll(POLY, c, MessageBits(TurnBytes(xs))) == LastOf(c, xs)
    decreases |xs|
  {
    if xs != [] {
      var x := xs[0];
      FoldedIs(c, x.e, x.t);
      NextByteIs(c, x.e, x.t, x.d);
      ByteAtOnce(c, x.e);
      BitsByteInverse(x.e);
      FeedAllConcat(POLY, c, x.e, MessageBits(TurnBytes(xs[1..])));
      ChainFeeds(x.d, xs[1..]);
    }
  }

  /** The turn from one checksum to the next, all written in binary. */
  function BinaryTurn(b: byte, e: string, t: string, d: string): Turn
  {
    Turn(b, Binary(e), Binary(t), Binary(d))
  }

  lemma PutFirst(c: Bits, x: Turn, xs: seq<Turn>) returns (ys: seq<Turn>)
    requires TurnOk(c, x) && Chain(x.d, xs)
    ensures Chain(c, ys) && TurnBytes(ys) == [x.b] + TurnBytes(xs) && LastOf(c, ys) == LastOf(x.d, xs)
  {
    ys := [x] + xs;
    assert ys[0] == x && ys[1..] == xs;
  }

  lemma SampleTurn0() returns (x: Turn)
    ensures x.b == 0x5A && x.d == Binary("1111101110111111") && TurnOk(Binary("0000000000000000"), x)
  {
    x := BinaryTurn(0x5A, "01011010", "01011111", "1111101110111111");
  }

  lemma SampleTurn1() returns (x: Turn)
    ensures x.b == 0xA5 && x.d == Binary("0000010000111011") && TurnOk(Binary("1111101110111111"), x)
  {
    x := BinaryTurn(0xA5, "10100101", "01011011", "0000010000111011");
  }

  lemma SampleTurn2() returns (x: Turn)
    ensures x.b == 0x02 && x.d == Binary("0101101111000110") && TurnOk(Binary("0000010000111011"), x)
  {
    x := BinaryTurn(0x02, "00000010", "00000110", "0101101111000110");
  }

  lemma SampleTurn3() returns (x: Turn)
    ensures x.b == 0x00 && x.d == Binary("0010110110011110") && TurnOk(Binary("0101101111000110"), x)
  {
    x := BinaryTurn(0x00, "00000000", "01011110", "0010110110011110");
  }

  lemma SampleTurn4() returns (x: Turn)
    ensures x.b == 0x90 && x.d == Binary("1110100001110110") && TurnOk(Binary("0010110110011110"), x)
  {
    x := BinaryTurn(0x90, "10010000", "10110110", "1110100001110110");
  }

  lemma SampleTurn5() returns (x: Turn)
    ensures x.b == 0x07 && x.d == Binary("0111101011000001") && TurnOk(Binary("1110100001110110"), x)
  {
    x := BinaryTurn(0x07, "00000111", "11100001", "0111101011000001");
  }

  lemma LastTurns() returns (xs: seq<Turn>)
    ensures Chain(Binary("0101101111000110"), xs)
    ensures LastOf(Binary("0101101111000110"), xs) == Binary("0111101011000001")
    ensures TurnBytes(xs) == [0x00, 0x90, 0x07]
  {
    var x3 := SampleTurn3();
    var x4 := SampleTurn4();
    var x5 := SampleTurn5();
    var s5 := PutFirst(x4.d, x5, []);
    var s4 := PutFirst(x3.d, x4, s5);
    xs := PutFirst(Binary("0101101111000110"), x3, s4);
  }

  lemma SampleTurns() returns (xs: seq<Turn>)
    ensures Chain(Binary("0000000000000000"), xs)
    ensures LastOf(Binary("0000000000000000"), xs) == Binary("0111101011000001")
    ensures TurnBytes(xs) == [0x5A, 0xA5, 0x02, 0x00, 0x90, 0x07]
  {
    var x0 := SampleTurn0();
    var x1 := SampleTurn1();
    var x2 := SampleTurn2();
    var s3 := LastTurns();
    var s2 := PutFirst(x1.d, x2, s3);
    var s1 := PutFirst(x0.d, x1, s2);
    xs := PutFirst(Binary("0000000000000000"), x0, s1);
  }

  /** The checksum of the bytes 5A A5 02 00 90 07 is 0x7AC1. */
  lemma SampleChecksum(src: seq<byte>)
    requires src == [0x5A, 0xA5, 0x02, 0x00, 0x90, 0x07]
    ensures FeedAll(POLY, Zeros(16), MessageBits(src)) == ByteBits(0x7A) + ByteBits(0xC1)
  {
    var xs := SampleTurns();
    assert Binary("0000000000000000") == Zeros(16);
    ChainFeeds(Zeros(16), xs);
    SampleWord();
  }

  lemma SampleWord()
    ensures Binary("0111101011000001") == ByteBits(0x7A) + ByteBits(0xC1)
  {
    var hi := BitsOf(0x7A, Binary("01111010"));
    var lo := BitsOf(0xC1, Binary("11000001"));
    SixteenEqual(Binary("0111101011000001"), hi + lo);
  }
}
