/** The LED transmitter of components/blink/blink.c, for any number of data bits. */
module Blink {
  import opened Arith
  import opened Bytes

  const HIGH: byte := 255
  const LOW: byte := 64
  const SYNC := 4
  const MAX_DUTY := 4000

  // ----- the signal -----

  /** Whether the first k data bits hold an odd number of ones. */
  function Flipped(bits: seq<bool>, k: nat): bool
    requires k <= |bits|
  {
    if k == 0 then false else Flipped(bits, k - 1) != bits[k - 1]
  }

  function Period(n: nat): nat
  {
    SYNC + 2 * n
  }

  /**
  The level at place j of one period: the sync, then two levels for each bit. A
  symbol is high-low or low-high, and a one bit swaps it against the one before.
  */
  function Level(bits: seq<bool>, j: nat): byte
    requires j < Period(|bits|)
  {
    if j < SYNC then if j == 3 then LOW else HIGH
    else if Flipped(bits, (j - SYNC) / 2 + 1) == (j % 2 == 0) then LOW else HIGH
  }

  /** The endlessly repeated signal. */
  function Tick(bits: seq<bool>, t: nat): byte
  {
    Level(bits, t % Period(|bits|))
  }

  /** Every symbol shows both levels, so its mean brightness does not depend on the data. */
  lemma SymbolsAreBalanced(bits: seq<bool>, k: nat)
    requires k < |bits|
    ensures multiset{Level(bits, 4 + 2 * k), Level(bits, 5 + 2 * k)} == multiset{255, 64}
  {
  }

  lemma SymbolLevels(bits: seq<bool>, k: nat)
    requires k < |bits|
    ensures Level(bits, SYNC + 2 * k) == if Flipped(bits, k + 1) then LOW else HIGH
    ensures Level(bits, SYNC + 2 * k + 1) == if Flipped(bits, k + 1) then HIGH else LOW
  {
    assert (2 * k) / 2 == k && (2 * k + 1) / 2 == k;
    assert (SYNC + 2 * k) % 2 == 0 && (SYNC + 2 * k + 1) % 2 == 1;
  }

  /** The end of the sync serves as the symbol before the first bit. */
  lemma PreviousSymbol(bits: seq<bool>, k: nat, at: nat)
    requires k < |bits| && at == SYNC + 2 * k - 2
    ensures Level(bits, at) == if Flipped(bits, k) then LOW else HIGH
    ensures Level(bits, at + 1) == if Flipped(bits, k) then HIGH else LOW
  {
    if k == 0 {
      assert Level(bits, 2) == HIGH && Level(bits, 3) == LOW;
    } else {
      var i := k - 1;
      assert at == SYNC + 2 * i;
      SymbolLevels(bits, i);
    }
  }

  // ----- self-synchronisation -----

  predicate SyncAt(bits: seq<bool>, t: nat)
  {
    Tick(bits, t) == 255 && Tick(bits, t + 1) == 255 && Tick(bits, t + 2) == 255 && Tick(bits, t + 3) == 64
  }

  lemma NextTicks(bits: seq<bool>, t: nat)
    ensures var p := Period(|bits|);
            var r := t % p;
            && Tick(bits, t + 1) == Level(bits, if r + 1 < p then r + 1 else r + 1 - p)
            && Tick(bits, t + 2) == Level(bits, if r + 2 < p then r + 2 else r + 2 - p)
            && Tick(bits, t + 3) == Level(bits, if r + 3 < p then r + 3 else r + 3 - p)
  {
    ModStep(t, 1, Period(|bits|));
    ModStep(t, 2, Period(|bits|));
    ModStep(t, 3, Period(|bits|));
  }

  /** Three high ticks followed by a low one occur at the start of a period and nowhere else. */
  lemma SyncIsUnique(bits: seq<bool>, t: nat)
    ensures SyncAt(bits, t) <==> t % (4 + 2 * |bits|) == 0
  {
    var p := Period(|bits|);
    var r := t % p;
    NextTicks(bits, t);
    if r >= SYNC {
      var k := (r - SYNC) / 2;
      SymbolLevels(bits, k);
      if r % 2 == 0 {
        assert r == SYNC + 2 * k;
      } else if r + 1 < p {
        assert r + 1 == SYNC + 2 * (k + 1);
        SymbolLevels(bits, k + 1);
      }
    }
  }

  // ----- a receiver -----

  predicate SyncIn(s: seq<byte>, j: nat)
  {
    j + 3 < |s| && s[j] == 255 && s[j + 1] == 255 && s[j + 2] == 255 && s[j + 3] == 64
  }

  lemma SyncInTail(s: seq<byte>)
    requires s != []
    ensures forall j: nat :: 0 < j ==> SyncIn(s, j) == SyncIn(s[1..], j - 1)
  {
  }

  /** The first place where three high samples are followed by a low one, or |s|. */
  function FindSync(s: seq<byte>): (i: nat)
    ensures i <= |s|
    ensures i < |s| ==> SyncIn(s, i)
    ensures forall j: nat :: j < i ==> !SyncIn(s, j)
  {
    if s == [] then 0
    else if SyncIn(s, 0) then 0
    else
      SyncInTail(s);
      FindSync(s[1..]) + 1
  }

  /** Whether symbol k behind the sync at place i differs from the one before it. */
  function BitAt(s: seq<byte>, i: nat, k: nat): bool
    requires i + 4 + 2 * k < |s|
  {
    s[i + 4 + 2 * k] != s[i + 2 + 2 * k]
  }

  /** Compare each symbol behind the sync with the one before it. */
  function Receive(s: seq<byte>, n: nat): seq<bool>
  {
    var i := FindSync(s);
    if i + Period(n) > |s| then []
    else seq(n, k requires 0 <= k < n => BitAt(s, i, k))
  }

  /** What a receiver sees that starts at tick t. */
  function Seen(bits: seq<bool>, t: nat, len: nat): (s: seq<byte>)
    ensures |s| == len && forall i :: 0 <= i < len ==> s[i] == Tick(bits, t + i)
  {
    seq(len, i requires 0 <= i < len => Tick(bits, t + i))
  }

  lemma SeenSync(bits: seq<bool>, t: nat, len: nat, j: nat)
    requires j + 3 < len
    ensures SyncIn(Seen(bits, t, len), j) <==> (t + j) % Period(|bits|) == 0
  {
    var s := Seen(bits, t, len);
    assert s[j + 1] == Tick(bits, t + (j + 1)) && s[j + 2] == Tick(bits, t + (j + 2));
    assert s[j + 3] == Tick(bits, t + (j + 3));
    SyncIsUnique(bits, t + j);
  }

  lemma FirstSync(bits: seq<bool>, t: nat) returns (i: nat)
    ensures i == FindSync(Seen(bits, t, 2 * Period(|bits|)))
    ensures i < Period(|bits|) && (t + i) % Period(|bits|) == 0
  {
    var p := Period(|bits|);
    var start := if t % p == 0 then 0 else p - t % p;
    ModStep(t, start, p);
    SeenSync(bits, t, 2 * p, start);
    i := FindSync(Seen(bits, t, 2 * p));
    assert i <= start;
    SeenSync(bits, t, 2 * p, i);
  }

  /** Two symbols apart by one bit, seen from the start of a period. */
  lemma BitFromTicks(bits: seq<bool>, t: nat, k: nat)
    requires t % Period(|bits|) == 0 && k < |bits|
    ensures (Tick(bits, t + SYNC + 2 * k) != Tick(bits, t + SYNC + 2 * k - 2)) == bits[k]
  {
    var p := Period(|bits|);
    ModStep(t, SYNC + 2 * k, p);
    ModStep(t, SYNC + 2 * k - 2, p);
    SymbolLevels(bits, k);
    if k > 0 {
      SymbolLevels(bits, k - 1);
    }
  }

  lemma ReceiveIs(s: seq<byte>, i: nat, bits: seq<bool>)
    requires i == FindSync(s) && i + Period(|bits|) <= |s|
    requires forall k: nat :: k < |bits| ==> BitAt(s, i, k) == bits[k]
    ensures Receive(s, |bits|) == bits
  {
  }

  lemma BitSeen(bits: seq<bool>, t: nat, i: nat, k: nat)
    requires (t + i) % Period(|bits|) == 0 && i < Period(|bits|) && k < |bits|
    ensures var s := Seen(bits, t, 2 * Period(|bits|));
            BitAt(s, i, k) == bits[k]
  {
    var s := Seen(bits, t, 2 * Period(|bits|));
    var at, before := i + 4 + 2 * k, i + 2 + 2 * k;
    assert s[at] == Tick(bits, t + at) && s[before] == Tick(bits, t + before);
    BitFromTicks(bits, t + i, k);
    assert t + i + SYNC + 2 * k == t + at && t + i + SYNC + 2 * k - 2 == t + before;
  }

  /** From any starting tick, two periods are enough to recover all the bits. */
  lemma ReceiverRecoversBits(bits: seq<bool>, t: nat)
    ensures Receive(Seen(bits, t, 2 * (4 + 2 * |bits|)), |bits|) == bits
  {
    var s := Seen(bits, t, 2 * Period(|bits|));
    var i := FirstSync(bits, t);
    forall k: nat | k < |bits| ensures BitAt(s, i, k) == bits[k] {
      BitSeen(bits, t, i, k);
    }
    ReceiveIs(s, i, bits);
  }

  // ----- the sequence number -----

  function Pow2(k: nat): (p: nat)
    ensures p >= 1
  {
    if k == 0 then 1 else 2 * Pow2(k - 1)
  }

  /** Bit `index` of a byte array, the least significant bit of each byte first. */
  function GetBit(arr: seq<byte>, index: nat): bool
    requires index / 8 < |arr|
  {
    arr[index / 8] as int / Pow2(index % 8) % 2 == 1
  }

  /** The cells of the Hamming word that hold data; the others are parity. */
  const DATA: seq<nat> := [2, 4, 5, 6, 8, 9, 10, 11]

  function Cell(b: bool): byte
  {
    if b then 1 else 0
  }

  /** The Hamming word carries the sequence number, most significant bit first. */
  ghost predicate Carries(word: seq<byte>, seqNo: byte)
  {
    |word| == 12 && forall i :: 0 <= i < 8 ==> word[DATA[i]] == Cell(GetBit([seqNo], 7 - i))
  }

  function WordBits(word: seq<byte>): (b: seq<bool>)
    ensures |b| == |word| && forall i :: 0 <= i < |word| ==> b[i] == (word[i] != 0)
  {
    seq(|word|, i requires 0 <= i < |word| => word[i] != 0)
  }

  /** What a receiver reads from the data cells, without looking at the parity. */
  function SequenceNumber(bits: seq<bool>): nat
    requires |bits| == 12
  {
    128 * Digit(bits[2]) + 64 * Digit(bits[4]) + 32 * Digit(bits[5]) + 16 * Digit(bits[6])
    + 8 * Digit(bits[8]) + 4 * Digit(bits[9]) + 2 * Digit(bits[10]) + Digit(bits[11])
  }

  lemma Halves(v: nat, k: nat)
    ensures v / Pow2(k + 1) == v / Pow2(k) / 2
  {
    var p := Pow2(k);
    var q := v / p / 2;
    var r := v - q * (2 * p);
    assert v == v / p * p + v % p;
    assert v / p == 2 * q + v / p % 2;
    assert r == v / p % 2 * p + v % p;
    DivModUnique(v, 2 * p, q, r);
  }

  lemma LowDigit(v: byte, k: nat)
    requires k < 8
    ensures v as nat / Pow2(k) == 2 * (v as nat / Pow2(k + 1)) + Digit(GetBit([v], k))
  {
    Halves(v as nat, k);
  }

  lemma UpperBits(v: byte)
    ensures v as nat / Pow2(4) == 8 * Digit(GetBit([v], 7)) + 4 * Digit(GetBit([v], 6))
                                  + 2 * Digit(GetBit([v], 5)) + Digit(GetBit([v], 4))
  {
    TopQuotient(v);
    LowDigit(v, 7);
    LowDigit(v, 6);
    LowDigit(v, 5);
    LowDigit(v, 4);
  }

  lemma LowerBits(v: byte)
    ensures v as nat == 16 * (v as nat / Pow2(4)) + 8 * Digit(GetBit([v], 3)) + 4 * Digit(GetBit([v], 2))
                        + 2 * Digit(GetBit([v], 1)) + Digit(GetBit([v], 0))
  {
    TopQuotient(v);
    LowDigit(v, 3);
    LowDigit(v, 2);
    LowDigit(v, 1);
    LowDigit(v, 0);
  }

  lemma TopQuotient(v: byte)
    ensures v as nat / Pow2(8) == 0 && v as nat / Pow2(0) == v as nat
  {
    assert Pow2(4) == 16 && Pow2(8) == 256;
  }

  /** The bits of the accessor are the binary digits of the byte. */
  lemma BitsOfByte(v: byte)
    ensures v as nat == 128 * Digit(GetBit([v], 7)) + 64 * Digit(GetBit([v], 6)) + 32 * Digit(GetBit([v], 5))
                        + 16 * Digit(GetBit([v], 4)) + 8 * Digit(GetBit([v], 3)) + 4 * Digit(GetBit([v], 2))
                        + 2 * Digit(GetBit([v], 1)) + Digit(GetBit([v], 0))
  {
    UpperBits(v);
    LowerBits(v);
  }

  lemma CarriedCell(word: seq<byte>, seqNo: byte, i: nat, c: nat)
    requires Carries(word, seqNo) && i < 8 && c == DATA[i]
    ensures WordBits(word)[c] == GetBit([seqNo], 7 - i) && word[c] as int == Digit(WordBits(word)[c])
  {
    assert word[DATA[i]] == Cell(GetBit([seqNo], 7 - i));
  }

  /** Which bit each data cell holds. */
  lemma CarriedCells(word: seq<byte>, seqNo: byte)
    requires Carries(word, seqNo)
    ensures var b := WordBits(word);
            && b[2] == GetBit([seqNo], 7) && b[4] == GetBit([seqNo], 6) && b[5] == GetBit([seqNo], 5)
            && b[6] == GetBit([seqNo], 4) && b[8] == GetBit([seqNo], 3) && b[9] == GetBit([seqNo], 2)
            && b[10] == GetBit([seqNo], 1) && b[11] == GetBit([seqNo], 0)
  {
    CarriedCell(word, seqNo, 0, 2);
    CarriedCell(word, seqNo, 1, 4);
    CarriedCell(word, seqNo, 2, 5);
    CarriedCell(word, seqNo, 3, 6);
    CarriedCell(word, seqNo, 4, 8);
    CarriedCell(word, seqNo, 5, 9);
    CarriedCell(word, seqNo, 6, 10);
    CarriedCell(word, seqNo, 7, 11);
  }

  /** A word that carries a sequence number gives it back, whatever its parity cells hold. */
  lemma CarriedNumber(word: seq<byte>, seqNo: byte)
    requires Carries(word, seqNo)
    ensures SequenceNumber(WordBits(word)) == seqNo as int
  {
    CarriedCells(word, seqNo);
    BitsOfByte(seqNo);
  }

  // ----- what the parity cells are worth -----

  function Check1(b: seq<bool>): bool
    requires |b| == 12
  {
    b[0] != (b[2] != (b[4] != (b[6] != (b[8] != b[10]))))
  }

  function Check2(b: seq<bool>): bool
    requires |b| == 12
  {
    b[1] != (b[2] != (b[5] != (b[6] != (b[9] != b[10]))))
  }

  function Check4(b: seq<bool>): bool
    requires |b| == 12
  {
    b[3] != (b[4] != (b[5] != (b[6] != b[11])))
  }

  function Check8(b: seq<bool>): bool
    requires |b| == 12
  {
    b[7] != (b[8] != (b[9] != (b[10] != b[11])))
  }

  function Place(c1: bool, c2: bool, c4: bool, c8: bool): nat
  {
    Digit(c1) + 2 * Digit(c2) + 4 * Digit(c4) + 8 * Digit(c8)
  }

  /** The place, counted from 1, that the four checks of a Hamming code blame; 0 when all of them hold. */
  function Syndrome(bits: seq<bool>): nat
    requires |bits| == 12
  {
    Place(Check1(bits), Check2(bits), Check4(bits), Check8(bits))
  }

  /** A receiver that corrects one error. */
  function Corrected(bits: seq<bool>): (r: seq<bool>)
    requires |bits| == 12
    ensures |r| == 12
  {
    var n := Syndrome(bits);
    if 1 <= n <= 12 then Flip(bits, n - 1) else bits
  }

  function Flip(bits: seq<bool>, e: nat): (r: seq<bool>)
    requires e < |bits|
    ensures |r| == |bits|
  {
    bits[e := !bits[e]]
  }

  lemma FlippedCheck1(bits: seq<bool>, e: nat)
    requires |bits| == 12 && e < 12
    ensures Check1(Flip(bits, e)) == (Check1(bits) != ((e + 1) % 2 == 1))
  {
    var f := Flip(bits, e);
    if e % 2 == 0 {
      assert e == 0 || e == 2 || e == 4 || e == 6 || e == 8 || e == 10;
    }
  }

  lemma FlippedCheck2(bits: seq<bool>, e: nat)
    requires |bits| == 12 && e < 12
    ensures Check2(Flip(bits, e)) == (Check2(bits) != ((e + 1) / 2 % 2 == 1))
  {
  }

  lemma FlippedCheck4(bits: seq<bool>, e: nat)
    requires |bits| == 12 && e < 12
    ensures Check4(Flip(bits, e)) == (Check4(bits) != ((e + 1) / 4 % 2 == 1))
  {
  }

  lemma FlippedCheck8(bits: seq<bool>, e: nat)
    requires |bits| == 12 && e < 12
    ensures Check8(Flip(bits, e)) == (Check8(bits) != ((e + 1) / 8 % 2 == 1))
  {
  }

  lemma BlameIff(n: nat, c1: bool, c2: bool, c4: bool, c8: bool)
    requires n < 16
    ensures Place(c1 != (n % 2 == 1), c2 != (n / 2 % 2 == 1), c4 != (n / 4 % 2 == 1), c8 != (n / 8 % 2 == 1)) == n
            <==> Place(c1, c2, c4, c8) == 0
  {
    PlaceOfSum(c1, c2, c4, c8, n % 2 == 1, n / 2 % 2 == 1, n / 4 % 2 == 1, n / 8 % 2 == 1);
    assert n == n % 2 + 2 * (n / 2 % 2) + 4 * (n / 4 % 2) + 8 * (n / 8 % 2);
  }

  lemma PlaceOfSum(c1: bool, c2: bool, c4: bool, c8: bool, n1: bool, n2: bool, n4: bool, n8: bool)
    ensures Place(c1 != n1, c2 != n2, c4 != n4, c8 != n8) == Place(n1, n2, n4, n8)
            <==> Place(c1, c2, c4, c8) == 0
  {
  }

  /** A flipped cell is blamed exactly when the checks held before. */
  lemma FlipIsBlamedIff(bits: seq<bool>, e: nat)
    requires |bits| == 12 && e < 12
    ensures Syndrome(Flip(bits, e)) == e + 1 <==> Syndrome(bits) == 0
  {
    FlippedCheck1(bits, e);
    FlippedCheck2(bits, e);
    FlippedCheck4(bits, e);
    FlippedCheck8(bits, e);
    BlameIff(e + 1, Check1(bits), Check2(bits), Check4(bits), Check8(bits));
  }

  /** In a word whose checks hold, any one cell that is flipped on the way is found and repaired. */
  lemma OneErrorIsCorrected(bits: seq<bool>, e: nat)
    requires |bits| == 12 && Syndrome(bits) == 0 && e < 12
    ensures Corrected(Flip(bits, e)) == bits == Corrected(bits)
  {
    FlipIsBlamedIff(bits, e);
    assert Flip(Flip(bits, e), e) == bits;
  }

  /** Four bits of the old content of the parity cells. */
  function OldContent(old0: byte, old1: byte, old3: byte, old7: byte): nat
  {
    old0 as nat % 2 + 2 * (old1 as nat % 2) + 4 * (old3 as nat % 2) + 8 * (old7 as nat % 2)
  }

  predicate Cells(a: byte, b: byte, c: byte, d: byte)
  {
    a <= 1 && b <= 1 && c <= 1 && d <= 1
  }

  lemma CheckOfFour(was: byte, w: byte, a: byte, b: byte, c: byte, d: byte)
    requires Cells(a, b, c, d)
    requires w as int == (was as int + a as int + b as int + c as int + d as int) % 2
    ensures Digit((w != 0) != ((a != 0) != ((b != 0) != ((c != 0) != (d != 0))))) == was as nat % 2
  {
  }

  lemma CheckOfFive(was: byte, w: byte, a: byte, b: byte, c: byte, d: byte, e: byte)
    requires Cells(a, b, c, d) && e <= 1
    requires w as int == (was as int + a as int + b as int + c as int + d as int + e as int) % 2
    ensures Digit((w != 0) != ((a != 0) != ((b != 0) != ((c != 0) != ((d != 0) != (e != 0)))))) == was as nat % 2
  {
  }

  lemma CarriedDigits(word: seq<byte>, seqNo: byte)
    requires Carries(word, seqNo)
    ensures Cells(word[2], word[4], word[5], word[6]) && Cells(word[8], word[9], word[10], word[11])
  {
    CarriedCell(word, seqNo, 0, 2);
    CarriedCell(word, seqNo, 1, 4);
    CarriedCell(word, seqNo, 2, 5);
    CarriedCell(word, seqNo, 3, 6);
    CarriedCell(word, seqNo, 4, 8);
    CarriedCell(word, seqNo, 5, 9);
    CarriedCell(word, seqNo, 6, 10);
    CarriedCell(word, seqNo, 7, 11);
  }

  /** The buffer of the word is not cleared first, so the checks come out as what the parity cells happened to hold. */
  lemma SyndromeIsOldContent(word: seq<byte>, seqNo: byte, old0: byte, old1: byte, old3: byte, old7: byte)
    requires Carries(word, seqNo) && ParityCells(word, old0, old1, old3, old7)
    ensures Syndrome(WordBits(word)) == OldContent(old0, old1, old3, old7)
  {
    var b := WordBits(word);
    CarriedDigits(word, seqNo);
    CheckOfFive(old0, word[0], word[2], word[4], word[6], word[8], word[10]);
    CheckOfFive(old1, word[1], word[2], word[5], word[6], word[9], word[10]);
    CheckOfFour(old3, word[3], word[4], word[5], word[6], word[11]);
    CheckOfFour(old7, word[7], word[8], word[9], word[10], word[11]);
    assert Check1(b) == ((word[0] != 0) != ((word[2] != 0) != ((word[4] != 0) != ((word[6] != 0)
                         != ((word[8] != 0) != (word[10] != 0))))));
  }

  function Weight(c: nat): int
  {
    match c
    case 2 => 128
    case 4 => 64
    case 5 => 32
    case 6 => 16
    case 8 => 8
    case 9 => 4
    case 10 => 2
    case 11 => 1
    case _ => 0
  }

  lemma FlipAddsWeight(bits: seq<bool>, c: nat)
    requires |bits| == 12 && c < 12
    ensures SequenceNumber(Flip(bits, c)) - SequenceNumber(bits) == if bits[c] then -Weight(c) else Weight(c)
  {
    var f := Flip(bits, c);
    assert f[c] == !bits[c];
    assert Digit(f[c]) - Digit(bits[c]) == if bits[c] then -1 else 1;
    match c
    case 2 =>
    case 4 =>
    case 5 =>
    case 6 =>
    case 8 =>
    case 9 =>
    case 10 =>
    case 11 =>
    case _ =>
  }

  lemma FlipChangesNumberIff(bits: seq<bool>, c: nat)
    requires |bits| == 12 && c < 12
    ensures SequenceNumber(Flip(bits, c)) == SequenceNumber(bits) <==> c == 0 || c == 1 || c == 3 || c == 7
  {
    FlipAddsWeight(bits, c);
  }

  /** Without an error on the way, correcting does harm exactly when the old content names a data cell. */
  lemma CorrectionIsHarmlessIff(word: seq<byte>, seqNo: byte, old0: byte, old1: byte, old3: byte, old7: byte)
    requires Carries(word, seqNo) && ParityCells(word, old0, old1, old3, old7)
    ensures var n := OldContent(old0, old1, old3, old7);
            SequenceNumber(Corrected(WordBits(word))) == seqNo as int
            <==> n == 0 || n == 1 || n == 2 || n == 4 || n == 8 || n > 12
  {
    SyndromeIsOldContent(word, seqNo, old0, old1, old3, old7);
    CarriedNumber(word, seqNo);
    var n := Syndrome(WordBits(word));
    if 1 <= n <= 12 {
      FlipChangesNumberIff(WordBits(word), n - 1);
    }
  }

  lemma TopCell(bits: seq<bool>)
    requires |bits| == 12
    ensures SequenceNumber(bits) >= 128 <==> bits[2]
  {
  }

  lemma RepairsAllIff(bits: seq<bool>)
    requires |bits| == 12
    ensures (forall e :: 0 <= e < 12 ==> SequenceNumber(Corrected(Flip(bits, e))) == SequenceNumber(bits))
            <==> Syndrome(bits) == 0
  {
    if Syndrome(bits) == 0 {
      forall e | 0 <= e < 12 ensures Corrected(Flip(bits, e)) == bits {
        OneErrorIsCorrected(bits, e);
      }
    } else {
      FlipIsBlamedIff(bits, 2);
      TopCell(bits);
      TopCell(Corrected(Flip(bits, 2)));
    }
  }

  /** Every single error is repaired if and only if the parity cells held even values before. */
  lemma ErrorsAreRepairedIff(word: seq<byte>, seqNo: byte, old0: byte, old1: byte, old3: byte, old7: byte)
    requires Carries(word, seqNo) && ParityCells(word, old0, old1, old3, old7)
    ensures (forall e :: 0 <= e < 12 ==> SequenceNumber(Corrected(Flip(WordBits(word), e))) == seqNo as int)
            <==> old0 % 2 == 0 && old1 % 2 == 0 && old3 % 2 == 0 && old7 % 2 == 0
  {
    SyndromeIsOldContent(word, seqNo, old0, old1, old3, old7);
    CarriedNumber(word, seqNo);
    RepairsAllIff(WordBits(word));
  }

  // ----- the transmitter -----

  /** The word has even parity over the cells that each parity cell checks, up to its old content. */
  ghost predicate ParityCells(word: seq<byte>, old0: byte, old1: byte, old3: byte, old7: byte)
    requires |word| == 12
  {
    && word[0] as int == (old0 as int + word[2] as int + word[4] as int + word[6] as int
                           + word[8] as int + word[10] as int) % 2
    && word[1] as int == (old1 as int + word[2] as int + word[5] as int + word[6] as int
                           + word[9] as int + word[10] as int) % 2
    && word[3] as int == (old3 as int + word[4] as int + word[5] as int + word[6] as int + word[11] as int) % 2
    && word[7] as int == (old7 as int + word[8] as int + word[9] as int + word[10] as int + word[11] as int) % 2
  }

  /** The data cells first, then the parity cells, each of which also adds its own old content. */
  method FillU8Hamming(sendBuf: array<byte>, seqNo: byte)
    requires sendBuf.Length == 12
    modifies sendBuf
    ensures Carries(sendBuf[..], seqNo) && SequenceNumber(WordBits(sendBuf[..])) == seqNo as int
    ensures ParityCells(sendBuf[..], old(sendBuf[0]), old(sendBuf[1]), old(sendBuf[3]), old(sendBuf[7]))
  {
    FillData(sendBuf, seqNo);
    var p0 := sendBuf[0] as int + sendBuf[2] as int + sendBuf[4] as int + sendBuf[6] as int
              + sendBuf[8] as int + sendBuf[10] as int;
    sendBuf[0] := Cell(p0 % 2 != 0);
    var p1 := sendBuf[1] as int + sendBuf[2] as int + sendBuf[5] as int + sendBuf[6] as int
              + sendBuf[9] as int + sendBuf[10] as int;
    sendBuf[1] := Cell(p1 % 2 != 0);
    var p3 := sendBuf[3] as int + sendBuf[4] as int + sendBuf[5] as int + sendBuf[6] as int + sendBuf[11] as int;
    sendBuf[3] := Cell(p3 % 2 != 0);
    var p7 := sendBuf[7] as int + sendBuf[8] as int + sendBuf[9] as int + sendBuf[10] as int + sendBuf[11] as int;
    sendBuf[7] := Cell(p7 % 2 != 0);
    CarriedNumber(sendBuf[..], seqNo);
  }

  /** The loop over the data cells. */
  method FillData(sendBuf: array<byte>, seqNo: byte)
    requires sendBuf.Length == 12
    modifies sendBuf
    ensures Carries(sendBuf[..], seqNo)
    ensures forall c :: 0 <= c < 12 && c in {0, 1, 3, 7} ==> sendBuf[c] == old(sendBuf[c])
  {
    for idx := 0 to 8
      invariant forall i :: 0 <= i < idx ==> sendBuf[DATA[i]] == Cell(GetBit([seqNo], 7 - i))
      invariant forall c :: 0 <= c < 12 && c in {0, 1, 3, 7} ==> sendBuf[c] == old(sendBuf[c])
    {
      sendBuf[DATA[idx]] := Cell(GetBit([seqNo], 7 - idx));
    }
  }

  /** Symbol k repeats the two ticks before it for a zero bit and swaps them for a one bit. */
  predicate SymbolRule(s: seq<byte>, k: nat, one: bool)
  {
    && 6 + 2 * k <= |s|
    && (!one ==> s[4 + 2 * k] == s[2 + 2 * k] && s[5 + 2 * k] == s[3 + 2 * k])
    && (one ==> s[4 + 2 * k] == s[3 + 2 * k] && s[5 + 2 * k] == s[2 + 2 * k])
  }

  lemma RuleFollows(s: seq<byte>, bits: seq<bool>, k: nat)
    requires |s| == Period(|bits|) && k < |bits|
    requires forall j :: 0 <= j < |s| ==> s[j] == Level(bits, j)
    ensures SymbolRule(s, k, bits[k])
  {
    PreviousSymbol(bits, k, 2 + 2 * k);
    SymbolLevels(bits, k);
    assert 5 + 2 * k < |s|;
  }

  class Transmitter {
    const pattern: array<byte>
    var idx: nat

    constructor (n: nat)
      ensures pattern.Length == Period(n) && fresh(pattern)
    {
      pattern := new byte[Period(n)];
      idx := 0;
    }

    /** The pattern holds one period of the signal. */
    ghost predicate Prepared(bits: seq<bool>)
      reads this, pattern
    {
      pattern.Length == Period(|bits|) && forall j :: 0 <= j < pattern.Length ==> pattern[j] == Level(bits, j)
    }

    method PreparePattern(word: seq<byte>)
      requires pattern.Length == Period(|word|)
      modifies this`idx, pattern
      ensures Prepared(WordBits(word)) && idx == 0
      ensures pattern[..4] == [255, 255, 255, 64]
      ensures forall k :: 0 <= k < |word| ==> SymbolRule(pattern[..], k, word[k] != 0)
    {
      idx := 0;
      ghost var bits := WordBits(word);
      pattern[0], pattern[1], pattern[2], pattern[3] := HIGH, HIGH, HIGH, LOW;
      for k := 0 to |word|
        modifies pattern
        invariant forall j :: 0 <= j < SYNC + 2 * k ==> pattern[j] == Level(bits, j)
      {
        WriteSymbol(bits, k, word[k] != 0);
      }
      forall k: nat | k < |word| ensures SymbolRule(pattern[..], k, word[k] != 0) {
        RuleFollows(pattern[..], bits, k);
      }
    }

    /** The body of the loop: copy the symbol before, swapped for a one bit. */
    method WriteSymbol(ghost bits: seq<bool>, k: nat, one: bool)
      requires pattern.Length == Period(|bits|) && k < |bits| && one == bits[k]
      requires forall j :: 0 <= j < SYNC + 2 * k ==> pattern[j] == Level(bits, j)
      modifies pattern
      ensures forall j :: 0 <= j < SYNC + 2 * (k + 1) ==> pattern[j] == Level(bits, j)
    {
      var first := SYNC + k * 2;
      var second := SYNC + k * 2 + 1;
      PreviousSymbol(bits, k, first - 2);
      SymbolLevels(bits, k);
      pattern[first] := if one then pattern[first - 1] else pattern[first - 2];
      pattern[second] := if one then pattern[second - 3] else pattern[second - 2];
    }

    /** With the Hamming word of a sequence number, built in a buffer whose content is arbitrary. */
    method PrepareSequence(seqNo: byte) returns (ghost word: seq<byte>)
      requires pattern.Length == Period(12)
      modifies this`idx, pattern
      ensures Carries(word, seqNo) && Prepared(WordBits(word)) && idx == 0
    {
      var hammingSeq := new byte[12];
      FillU8Hamming(hammingSeq, seqNo);
      word := hammingSeq[..];
      PreparePattern(hammingSeq[..]);
    }

    /** The timer callback; `duty` is what the LED controller is set to. */
    method Timeout() returns (duty: int)
      requires pattern.Length > 0
      modifies this`idx
      ensures idx == NextPlace(old(idx), pattern.Length) + 1
      ensures duty == pattern[NextPlace(old(idx), pattern.Length)] as int * MAX_DUTY / 0x100
    {
      if idx >= pattern.Length {
        idx := 0;
      }
      duty := pattern[idx] as int * MAX_DUTY / 0x100;
      idx := idx + 1;
    }
  }

  /** The place that the callback shows when it starts with `idx`. */
  function NextPlace(idx: nat, len: nat): (p: nat)
    requires len > 0
    ensures p < len
  {
    if idx >= len then 0 else idx
  }

  /** The index before the k-th callback. */
  function IndexBefore(idx: nat, len: nat, k: nat): nat
    requires len > 0
  {
    if k == 0 then idx else NextPlace(IndexBefore(idx, len, k - 1), len) + 1
  }

  /** Whatever pattern was shown before, the callbacks run through the new one cyclically. */
  lemma {:induction false} CallbacksAreCyclic(idx: nat, len: nat, k: nat)
    requires len > 0
    ensures NextPlace(IndexBefore(idx, len, k), len) == (NextPlace(idx, len) + k) % len
    decreases k
  {
    var start := NextPlace(idx, len);
    if k == 0 {
      DivModUnique(start, len, 0, start);
    } else {
      CallbacksAreCyclic(idx, len, k - 1);
      ModStep(start + (k - 1), 1, len);
    }
  }

  /** The two duties differ, so the levels can be told apart. */
  function DutyLevel(duty: int): byte
  {
    if duty >= 2000 then 255 else 64
  }

  lemma DutyShowsLevel(bits: seq<bool>, j: nat)
    requires j < Period(|bits|)
    ensures var duty := Level(bits, j) as int * MAX_DUTY / 0x100;
            DutyLevel(duty) == Level(bits, j) && duty == if Level(bits, j) == 255 then 3984 else 1000
  {
  }

  /** The duties set by the callbacks from the k-th on. */
  function Duties(bits: seq<bool>, idx: nat, k: nat, len: nat): (s: seq<int>)
    ensures |s| == len
  {
    seq(len, i requires 0 <= i < len =>
      Level(bits, NextPlace(IndexBefore(idx, Period(|bits|), k + i), Period(|bits|))) as int * MAX_DUTY / 0x100)
  }

  function Levels(duties: seq<int>): (s: seq<byte>)
    ensures |s| == |duties|
  {
    seq(|duties|, i requires 0 <= i < |duties| => DutyLevel(duties[i]))
  }

  /** End to end: from any callback on, two periods of light give back the sequence number. */
  lemma SequenceNumberIsReceived(word: seq<byte>, seqNo: byte, idx: nat, k: nat)
    requires Carries(word, seqNo)
    ensures var duties := Duties(WordBits(word), idx, k, 2 * 28);
            var seen := Levels(duties);
            && (forall d :: d in duties ==> d == 3984 || d == 1000)
            && |Receive(seen, 12)| == 12 && SequenceNumber(Receive(seen, 12)) == seqNo as int
  {
    var bits := WordBits(word);
    var p := Period(12);
    var t := NextPlace(idx, p) + k;
    var seen := Levels(Duties(bits, idx, k, 2 * p));
    forall i | 0 <= i < 2 * p
      ensures seen[i] == Seen(bits, t, 2 * p)[i]
    {
      CallbacksAreCyclic(idx, p, k + i);
      DutyShowsLevel(bits, NextPlace(IndexBefore(idx, p, k + i), p));
      assert t + i == NextPlace(idx, p) + (k + i);
    }
    assert seen == Seen(bits, t, 2 * p);
    forall i | 0 <= i < 2 * p
      ensures Duties(bits, idx, k, 2 * p)[i] == 3984 || Duties(bits, idx, k, 2 * p)[i] == 1000
    {
      DutyShowsLevel(bits, NextPlace(IndexBefore(idx, p, k + i), p));
    }
    ReceiverRecoversBits(bits, t);
    CarriedNumber(word, seqNo);
  }
}
