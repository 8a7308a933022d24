/** Bytes and the little-endian words made of them. */
module Bytes {

  newtype byte = x: int | 0 <= x < 256

  type Int16 = x: int | -0x8000 <= x < 0x8000

  /** The unsigned 16-bit value of two bytes, low byte first. */
  function U2(lo: byte, hi: byte): (u: nat)
    ensures u < 0x1_0000
  {
    lo as int + 256 * hi as int
  }

  /** The same two bytes read as a two's complement number. */
  function I2(lo: byte, hi: byte): (v: Int16)
    ensures (lo as int + 256 * hi as int - v) % 0x1_0000 == 0
  {
    var u := U2(lo, hi);
    if u < 0x8000 then u else u - 0x1_0000
  }

  function PutI2(v: Int16): (s: seq<byte>)
    ensures |s| == 2 && I2(s[0], s[1]) == v
  {
    var u := if v < 0 then v + 0x1_0000 else v;
    [(u % 256) as byte, (u / 256) as byte]
  }

  lemma PutI2Back(lo: byte, hi: byte)
    ensures PutI2(I2(lo, hi)) == [lo, hi]
  {
  }

  lemma SubSlice<T>(p: seq<T>, ofs: nat, n: nat, lo: nat, hi: nat)
    requires ofs + n <= |p| && lo <= hi <= n
    ensures p[ofs..ofs + n][lo..hi] == p[ofs + lo..ofs + hi]
  {
    var s, t := p[ofs..ofs + n][lo..hi], p[ofs + lo..ofs + hi];
    assert |s| == |t|;
    assert forall i :: 0 <= i < |s| ==> s[i] == p[ofs..ofs + n][lo + i] == t[i];
  }

  lemma MiddlePart<T>(a: seq<T>, x: seq<T>, b: seq<T>)
    ensures (a + x + b)[|a|..|a| + |x|] == x
  {
  }
}
