/**
Polynomials over GF(2), written as bit strings with the highest power first, and
the 16-bit shift register that divides by a generator of degree 16.
*/
module Gf2 {

  type Bits = seq<bool>

  type Reg = r: Bits | |r| == 16 witness Zeros(16)

  /** Degree 16 with a constant term, so that the register can be run backwards. */
  type Generator = g: Bits | |g| == 17 && g[0] && g[16] witness [true] + Zeros(15) + [true]

  function Zeros(n: nat): (z: Bits)
    ensures |z| == n && forall i :: 0 <= i < n ==> !z[i]
  {
    seq(n, _ => false)
  }

  function Xor(a: Bits, b: Bits): (c: Bits)
    requires |a| == |b|
    ensures |c| == |a| && forall i :: 0 <= i < |a| ==> c[i] == (a[i] != b[i])
  {
    seq(|a|, i requires 0 <= i < |a| => a[i] != b[i])
  }

  function Scaled(bit: bool, g: Bits): (r: Bits)
    ensures |r| == |g| && forall i :: 0 <= i < |g| ==> r[i] == (bit && g[i])
  {
    if bit then g else Zeros(|g|)
  }

  /** Schoolbook product: every set coefficient of q adds one shifted copy of g. */
  function Mul(q: Bits, g: Bits): (p: Bits)
    requires |g| >= 1
    ensures |p| == |q| + |g| - 1
  {
    if q == [] then Zeros(|g| - 1)
    else Xor(Scaled(q[0], g) + Zeros(|q| - 1), [false] + Mul(q[1..], g))
  }

  /** x^16 * m + r is the multiple q * g of g. */
  ghost predicate Divides(g: Generator, m: Bits, q: Bits, r: Reg)
  {
    |q| == |m| && m + Zeros(16) == Xor(Mul(q, g), Zeros(|m|) + r)
  }

  /** r is the remainder of x^16 * m by g. */
  ghost predicate IsRemainder(g: Generator, m: Bits, r: Reg)
  {
    exists q: Bits :: Divides(g, m, q, r)
  }

  /** One clock of the shift register with input bit `bit`. */
  function Feed(g: Generator, c: Reg, bit: bool): Reg
  {
    Xor(c[1..] + [false], Scaled(c[0] != bit, g[1..]))
  }

  function FeedAll(g: Generator, c: Reg, m: Bits): Reg
    decreases |m|
  {
    if m == [] then c else FeedAll(g, Feed(g, c, m[0]), m[1..])
  }

  /** n clocks with no input. */
  function Shift(g: Generator, c: Reg, n: nat): Reg
    decreases n
  {
    if n == 0 then c else Shift(g, Feed(g, c, false), n - 1)
  }

  lemma {:induction false} FeedAllConcat(g: Generator, c: Reg, m: Bits, n: Bits)
    ensures FeedAll(g, c, m + n) == FeedAll(g, FeedAll(g, c, m), n)
    decreases |m|
  {
    if m == [] {
      assert m + n == n;
    } else {
      assert (m + n)[1..] == m[1..] + n;
      FeedAllConcat(g, Feed(g, c, m[0]), m[1..], n);
    }
  }

  lemma {:induction false} ShiftOnce(g: Generator, c: Reg, n: nat)
    ensures Shift(g, c, n + 1) == Feed(g, Shift(g, c, n), false)
    decreases n
  {
    if n != 0 {
      ShiftOnce(g, Feed(g, c, false), n - 1);
    }
  }

  // ----- the register computes the remainder -----

  function Quotient(g: Generator, c: Reg, m: Bits): (q: Bits)
    ensures |q| == |m|
    decreases |m|
  {
    if m == [] then [] else [c[0] != m[0]] + Quotient(g, Feed(g, c, m[0]), m[1..])
  }

  /** One row of the division: bit i of the dividend, compared with the rest of the division. */
  lemma DivisionBit(g: Generator, c: Reg, m: Bits, i: nat)
    requires |m| > 0 && i < |m| + 16
    ensures
      var n := |m| - 1;
      var t := c[0] != m[0];
      var lhs := (m + Zeros(16))[i] != (c + Zeros(|m|))[i];
      var row := (Scaled(t, g) + Zeros(n))[i];
      if i == 0 then lhs == row
      else lhs == (row != ((m[1..] + Zeros(16))[i - 1] != (Feed(g, c, m[0]) + Zeros(n))[i - 1]))
  {
  }

  lemma MulBit(q: Bits, g: Bits, i: nat)
    requires q != [] && |g| >= 1 && i < |q| + |g| - 1
    ensures Mul(q, g)[i] == ((Scaled(q[0], g) + Zeros(|q| - 1))[i] != (i > 0 && Mul(q[1..], g)[i - 1]))
  {
  }

  /** One step of the division, bit by bit: bit i of the dividend against bit i of product and remainder. */
  ghost predicate DivisionAt(g: Generator, c: Reg, m: Bits, i: nat)
    requires i < |m| + 16
  {
    ((m + Zeros(16))[i] != (c + Zeros(|m|))[i])
    == (Mul(Quotient(g, c, m), g)[i] != (Zeros(|m|) + FeedAll(g, c, m))[i])
  }

  lemma DivisionStep(g: Generator, c: Reg, m: Bits, i: nat)
    requires m != [] && i < |m| + 16
    requires i > 0 ==> DivisionAt(g, Feed(g, c, m[0]), m[1..], i - 1)
    ensures DivisionAt(g, c, m, i)
  {
    var q, next := Quotient(g, c, m), Feed(g, c, m[0]);
    DivisionBit(g, c, m, i);
    MulBit(q, g, i);
    assert q[0] == (c[0] != m[0]) && q[1..] == Quotient(g, next, m[1..]);
    var r := FeedAll(g, c, m);
    assert r == FeedAll(g, next, m[1..]);
    assert i > 0 ==> (Zeros(|m|) + r)[i] == (Zeros(|m| - 1) + r)[i - 1];
  }

  /** Long division, with the register's old content added to the leading bits. */
  lemma {:induction false} Division(g: Generator, c: Reg, m: Bits, i: nat)
    requires i < |m| + 16
    ensures DivisionAt(g, c, m, i)
    decreases |m|
  {
    if m != [] {
      if i > 0 {
        Division(g, Feed(g, c, m[0]), m[1..], i - 1);
      }
      DivisionStep(g, c, m, i);
    }
  }

  /** Starting from zero, the register ends with the remainder of x^16 * m. */
  lemma RegisterIsRemainder(g: Generator, m: Bits)
    ensures IsRemainder(g, m, FeedAll(g, Zeros(16), m))
  {
    var q := Quotient(g, Zeros(16), m);
    forall i: nat | i < |m| + 16
      ensures (m + Zeros(16))[i] == (Mul(q, g)[i] != (Zeros(|m|) + FeedAll(g, Zeros(16), m))[i])
    {
      Division(g, Zeros(16), m, i);
    }
    assert Divides(g, m, q, FeedAll(g, Zeros(16), m));
  }

  // ----- the remainder is unique -----

  lemma {:induction false} MulLinear(p: Bits, q: Bits, g: Bits, i: nat)
    requires |p| == |q| && |g| >= 1 && i < |p| + |g| - 1
    ensures Mul(Xor(p, q), g)[i] == (Mul(p, g)[i] != Mul(q, g)[i])
    decreases |p|
  {
    if p != [] {
      assert Xor(p, q)[1..] == Xor(p[1..], q[1..]);
      if i > 0 {
        MulLinear(p[1..], q[1..], g, i - 1);
      }
    }
  }

  /** A multiple of g (leading coefficient 1) with no high part is the zero multiple. */
  lemma {:induction false} NoSmallMultiple(q: Bits, g: Bits)
    requires |g| >= 1 && g[0]
    requires forall i :: 0 <= i < |q| ==> !Mul(q, g)[i]
    ensures forall i :: 0 <= i < |Mul(q, g)| ==> !Mul(q, g)[i]
    decreases |q|
  {
    if q != [] {
      var rest := Mul(q[1..], g);
      assert Mul(q, g)[0] == q[0];
      assert forall i :: 0 <= i < |rest| ==> Mul(q, g)[i + 1] == rest[i];
      NoSmallMultiple(q[1..], g);
      forall i | 0 <= i < |Mul(q, g)|
        ensures !Mul(q, g)[i]
      {
        if i > 0 { assert Mul(q, g)[(i - 1) + 1] == rest[i - 1]; }
      }
    }
  }

  lemma DifferenceOfRemainders(g: Generator, m: Bits, p: Bits, r: Reg, q: Bits, s: Reg, i: nat)
    requires Divides(g, m, p, r) && Divides(g, m, q, s) && i < |m| + 16
    ensures Mul(Xor(p, q), g)[i] == (i >= |m| && r[i - |m|] != s[i - |m|])
  {
    MulLinear(p, q, g, i);
    var a, b := Mul(p, g), Mul(q, g);
    assert (m + Zeros(16))[i] == (a[i] != (Zeros(|m|) + r)[i]);
    assert (m + Zeros(16))[i] == (b[i] != (Zeros(|m|) + s)[i]);
  }

  lemma RemainderUnique(g: Generator, m: Bits, r: Reg, s: Reg)
    requires IsRemainder(g, m, r) && IsRemainder(g, m, s)
    ensures r == s
  {
    var p: Bits :| Divides(g, m, p, r);
    var q: Bits :| Divides(g, m, q, s);
    var diff := Mul(Xor(p, q), g);
    forall i: nat | i < |m|
      ensures !diff[i]
    {
      DifferenceOfRemainders(g, m, p, r, q, s, i);
    }
    NoSmallMultiple(Xor(p, q), g);
    forall i: nat | i < 16
      ensures r[i] == s[i]
    {
      DifferenceOfRemainders(g, m, p, r, q, s, |m| + i);
    }
  }

  // ----- linearity, invertibility and bursts -----

  lemma {:induction false} FeedAllLinear(g: Generator, c: Reg, d: Reg, m: Bits, e: Bits)
    requires |m| == |e|
    ensures FeedAll(g, Xor(c, d), Xor(m, e)) == Xor(FeedAll(g, c, m), FeedAll(g, d, e))
    decreases |m|
  {
    if m != [] {
      assert Feed(g, Xor(c, d), m[0] != e[0]) == Xor(Feed(g, c, m[0]), Feed(g, d, e[0]));
      assert Xor(m, e)[1..] == Xor(m[1..], e[1..]);
      FeedAllLinear(g, Feed(g, c, m[0]), Feed(g, d, e[0]), m[1..], e[1..]);
    }
  }

  ghost predicate NonZero(e: Bits)
  {
    exists i :: 0 <= i < |e| && e[i]
  }

  /** The free-running register is invertible, so it never forgets a difference. */
  lemma {:induction false} ShiftKeepsNonZero(g: Generator, c: Reg, n: nat)
    requires NonZero(c)
    ensures NonZero(Shift(g, c, n))
    decreases n
  {
    if n != 0 {
      var d := Feed(g, c, false);
      assert d[15] == c[0];
      var i :| 0 <= i < 16 && c[i];
      if !c[0] {
        assert d[i - 1] == c[i];
      }
      ShiftKeepsNonZero(g, d, n - 1);
    }
  }

  lemma AddThenFeed(g: Generator, c: Reg, d: Bits)
    requires 0 < |d| <= 16
    ensures Feed(g, Xor(c, d + Zeros(16 - |d|)), false)
         == Xor(Feed(g, c, d[0]), d[1..] + Zeros(16 - |d[1..]|))
  {
    var sum := Xor(c, d + Zeros(16 - |d|));
    var lhs := Feed(g, sum, false);
    var rhs := Xor(Feed(g, c, d[0]), d[1..] + Zeros(17 - |d|));
    forall i | 0 <= i < 16
      ensures lhs[i] == rhs[i]
    {
      assert i < 15 ==> sum[i + 1] == (c[i + 1] != (d[1..] + Zeros(17 - |d|))[i]);
    }
  }

  /** The register c with the bits d added at its top. */
  function AddTop(c: Reg, d: Bits): Reg
    requires |d| <= 16
  {
    Xor(c, d + Zeros(16 - |d|))
  }

  lemma AddNothing(c: Reg)
    ensures AddTop(c, []) == c
  {
    assert [] + Zeros(16) == Zeros(16);
  }

  /** Adding up to 16 message bits at the top and then shifting equals feeding them one by one. */
  lemma {:induction false} FeedIsAddThenShift(g: Generator, c: Reg, d: Bits)
    requires |d| <= 16
    ensures FeedAll(g, c, d) == Shift(g, AddTop(c, d), |d|)
    decreases |d|
  {
    if d == [] {
      AddNothing(c);
    } else {
      AddThenFeed(g, c, d);
      FeedIsAddThenShift(g, Feed(g, c, d[0]), d[1..]);
    }
  }

  lemma {:induction false} FeedZerosIsShift(g: Generator, c: Reg, n: nat)
    ensures FeedAll(g, c, Zeros(n)) == Shift(g, c, n)
    decreases n
  {
    if n != 0 {
      assert Zeros(n)[1..] == Zeros(n - 1);
      FeedZerosIsShift(g, Feed(g, c, false), n - 1);
    }
  }

  lemma {:induction false} ShiftOfZero(g: Generator, n: nat)
    ensures Shift(g, Zeros(16), n) == Zeros(16)
    decreases n
  {
    if n != 0 {
      assert Feed(g, Zeros(16), false) == Zeros(16);
      ShiftOfZero(g, n - 1);
    }
  }

  /** A non-zero burst of at most 16 bits leaves the zero register non-zero, wherever it sits. */
  lemma BurstLeavesNonZero(g: Generator, before: nat, burst: Bits, after: nat)
    requires |burst| <= 16 && NonZero(burst)
    ensures NonZero(FeedAll(g, Zeros(16), Zeros(before) + burst + Zeros(after)))
  {
    FeedAllConcat(g, Zeros(16), Zeros(before) + burst, Zeros(after));
    FeedAllConcat(g, Zeros(16), Zeros(before), burst);
    FeedZerosIsShift(g, Zeros(16), before);
    ShiftOfZero(g, before);
    FeedIsAddThenShift(g, Zeros(16), burst);
    var top := Xor(Zeros(16), burst + Zeros(16 - |burst|));
    var i :| 0 <= i < |burst| && burst[i];
    assert top[i];
    ShiftKeepsNonZero(g, top, |burst|);
    var mid := FeedAll(g, Zeros(16), burst);
    FeedZerosIsShift(g, mid, after);
    ShiftKeepsNonZero(g, mid, after);
  }

  /** Two messages that differ by such a burst leave different remainders. */
  lemma BurstChangesRemainder(g: Generator, c: Reg, m: Bits, before: nat, burst: Bits, after: nat)
    requires |burst| <= 16 && NonZero(burst)
    requires |m| == before + |burst| + after
    ensures FeedAll(g, c, Xor(m, Zeros(before) + burst + Zeros(after))) != FeedAll(g, c, m)
  {
    var e := Zeros(before) + burst + Zeros(after);
    FeedAllLinear(g, c, Zeros(16), m, e);
    assert Xor(c, Zeros(16)) == c;
    BurstLeavesNonZero(g, before, burst, after);
    var d := FeedAll(g, Zeros(16), e);
    var i :| 0 <= i < 16 && d[i];
    assert Xor(FeedAll(g, c, m), d)[i] != FeedAll(g, c, m)[i];
  }
}
