/** Division with remainder, 32-bit wrap-around and binary digits. */
module Arith {

  const WRAP := 0x1_0000_0000

  function Digit(b: bool): nat
  {
    if b then 1 else 0
  }

  lemma MultipleAtLeast(d: int, size: nat)
    requires d >= 1
    ensures d * size >= size
  {
  }

  /** Quotient and remainder are unique. */
  lemma DivModUnique(i: int, size: nat, q: int, r: int)
    requires size > 0 && i == q * size + r && 0 <= r < size
    ensures i / size == q && i % size == r
  {
    var q0, r0 := i / size, i % size;
    assert i == q0 * size + r0;
    assert (q - q0) * size == r0 - r;
    assert (q0 - q) * size == r - r0;
    if q > q0 {
      MultipleAtLeast(q - q0, size);
    } else if q < q0 {
      MultipleAtLeast(q0 - q, size);
    }
  }

  /** A remainder after a step of at most one period. */
  lemma ModStep(t: int, k: int, size: nat)
    requires size > 0 && 0 <= k <= size
    ensures (t + k) % size == if t % size + k < size then t % size + k else t % size + k - size
  {
    var q, r := t / size, t % size;
    assert t == q * size + r;
    if r + k < size {
      DivModUnique(t + k, size, q, r + k);
    } else {
      assert t + k == (q + 1) * size + (r + k - size);
      DivModUnique(t + k, size, q + 1, r + k - size);
    }
  }
}
