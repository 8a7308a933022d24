/** Linear systems over the reals, and the row operations of tests/ellip.c on them. */
module LinearSystem {

  type Row = seq<real>
  type Mat = seq<Row>

  /** n rows of n coefficients and one right-hand side. */
  ghost predicate Shape(m: Mat, n: nat)
  {
    |m| == n && forall i :: 0 <= i < n ==> |m[i]| == n + 1
  }

  /** u[lo] * x[lo] + ... + u[hi - 1] * x[hi - 1] */
  ghost function Dot(u: Row, x: Row, lo: nat, hi: nat): real
    requires lo <= hi <= |u| && hi <= |x|
    decreases hi - lo
  {
    if lo == hi then 0.0 else u[lo] * x[lo] + Dot(u, x, lo + 1, hi)
  }

  function Plus(s: Row, d: Row): (t: Row)
    requires |s| == |d|
    ensures |t| == |s| && forall i :: 0 <= i < |s| ==> t[i] == s[i] + d[i]
  {
    seq(|s|, i requires 0 <= i < |s| => s[i] + d[i])
  }

  lemma {:induction false} DotPlus(u: Row, s: Row, d: Row, lo: nat, hi: nat)
    requires lo <= hi <= |u| && hi <= |s| == |d|
    ensures Dot(u, Plus(s, d), lo, hi) == Dot(u, s, lo, hi) + Dot(u, d, lo, hi)
    decreases hi - lo
  {
    if lo < hi {
      DotPlus(u, s, d, lo + 1, hi);
      assert u[lo] * (s[lo] + d[lo]) == u[lo] * s[lo] + u[lo] * d[lo];
    }
  }

  ghost predicate Satisfies(u: Row, x: Row)
    requires |u| == |x| + 1
  {
    Dot(u, x, 0, |x|) == u[|x|]
  }

  ghost predicate Solves(m: Mat, x: Row)
    requires Shape(m, |x|)
  {
    forall i :: 0 <= i < |x| ==> Satisfies(m[i], x)
  }

  // ----- row operations -----

  function RowAdd(u: Row, k: real, v: Row): (w: Row)
    requires |u| == |v|
    ensures |w| == |u|
  {
    seq(|u|, j requires 0 <= j < |u| => u[j] + k * v[j])
  }

  function RowScale(k: real, u: Row): (w: Row)
    ensures |w| == |u|
  {
    seq(|u|, j requires 0 <= j < |u| => u[j] * k)
  }

  function SwapRows(m: Mat, i: nat, j: nat): (r: Mat)
    requires i < |m| && j < |m|
    ensures |r| == |m|
  {
    m[i := m[j]][j := m[i]]
  }

  /** Add k times row i to row j. */
  function AddRow(m: Mat, k: real, i: nat, j: nat): (r: Mat)
    requires i < |m| && j < |m| && |m[i]| == |m[j]|
    ensures |r| == |m|
  {
    m[j := RowAdd(m[j], k, m[i])]
  }

  function ScaleRow(m: Mat, k: real, i: nat): (r: Mat)
    requires i < |m|
    ensures |r| == |m|
  {
    m[i := RowScale(k, m[i])]
  }

  /** Two systems with the same solutions. */
  ghost predicate SameSolutions(a: Mat, b: Mat, n: nat)
    requires Shape(a, n) && Shape(b, n)
  {
    forall x: Row :: |x| == n ==> (Solves(a, x) <==> Solves(b, x))
  }

  lemma {:induction false} DotRowAdd(u: Row, k: real, v: Row, x: Row, lo: nat, hi: nat)
    requires |u| == |v| && lo <= hi <= |u| && hi <= |x|
    ensures Dot(RowAdd(u, k, v), x, lo, hi) == Dot(u, x, lo, hi) + k * Dot(v, x, lo, hi)
    decreases hi - lo
  {
    if lo < hi {
      DotRowAdd(u, k, v, x, lo + 1, hi);
      assert (u[lo] + k * v[lo]) * x[lo] == u[lo] * x[lo] + k * (v[lo] * x[lo]);
    }
  }

  lemma {:induction false} DotRowScale(k: real, u: Row, x: Row, lo: nat, hi: nat)
    requires lo <= hi <= |u| && hi <= |x|
    ensures Dot(RowScale(k, u), x, lo, hi) == k * Dot(u, x, lo, hi)
    decreases hi - lo
  {
    if lo < hi {
      DotRowScale(k, u, x, lo + 1, hi);
      assert u[lo] * k * x[lo] == k * (u[lo] * x[lo]);
    }
  }

  lemma SwapKeepsSolutions(m: Mat, i: nat, j: nat, n: nat)
    requires Shape(m, n) && i < n && j < n
    ensures Shape(SwapRows(m, i, j), n) && SameSolutions(m, SwapRows(m, i, j), n)
  {
    var r := SwapRows(m, i, j);
    assert Shape(r, n);
    forall x: Row | |x| == n
      ensures Solves(m, x) <==> Solves(r, x)
    {
      assert m[i] == r[j] && m[j] == r[i];
      assert forall h :: 0 <= h < n && h != i && h != j ==> m[h] == r[h];
      if Solves(m, x) {
        assert Satisfies(m[i], x) && Satisfies(m[j], x);
      }
      if Solves(r, x) {
        assert Satisfies(r[i], x) && Satisfies(r[j], x);
        assert forall h :: 0 <= h < n && h != i && h != j ==> Satisfies(r[h], x);
      }
    }
  }

  lemma AddKeepsSolutions(m: Mat, k: real, i: nat, j: nat, n: nat)
    requires Shape(m, n) && i < n && j < n && i != j
    ensures Shape(AddRow(m, k, i, j), n) && SameSolutions(m, AddRow(m, k, i, j), n)
  {
    var r := AddRow(m, k, i, j);
    assert Shape(r, n);
    forall x: Row | |x| == n
      ensures Solves(m, x) <==> Solves(r, x)
    {
      DotRowAdd(m[j], k, m[i], x, 0, n);
      assert Satisfies(m[i], x) ==> (Satisfies(m[j], x) <==> Satisfies(r[j], x));
      assert forall h :: 0 <= h < n && h != j ==> r[h] == m[h];
      if Solves(r, x) {
        assert Satisfies(r[i], x) && Satisfies(r[j], x);
        assert forall h :: 0 <= h < n && h != j ==> Satisfies(r[h], x);
      }
    }
  }

  lemma ScaleKeepsSolutions(m: Mat, k: real, i: nat, n: nat)
    requires Shape(m, n) && i < n && k != 0.0
    ensures Shape(ScaleRow(m, k, i), n) && SameSolutions(m, ScaleRow(m, k, i), n)
  {
    var r := ScaleRow(m, k, i);
    assert Shape(r, n);
    forall x: Row | |x| == n
      ensures Solves(m, x) <==> Solves(r, x)
    {
      DotRowScale(k, m[i], x, 0, n);
      var d, b := Dot(m[i], x, 0, n), m[i][n];
      assert r[i][n] == b * k;
      ScaleCancels(k, d, b);
      assert Satisfies(m[i], x) <==> Satisfies(r[i], x);
      assert forall h :: 0 <= h < n && h != i ==> r[h] == m[h];
      if Solves(r, x) {
        assert forall h :: 0 <= h < n && h != i ==> Satisfies(r[h], x);
      }
    }
  }

  lemma ScaleCancels(k: real, d: real, b: real)
    requires k != 0.0
    ensures d == b <==> k * d == b * k
  {
  }

  // ----- elimination, for any rule that decides the row swaps -----

  /** Decides whether row `row` is swapped into place k. */
  type SwapRule = (Mat, nat, nat) -> bool

  /** The pass that brings a row into place k, from `row` on. */
  function SortFrom(rule: SwapRule, m: Mat, k: nat, row: nat): (r: Mat)
    requires k < row <= |m|
    ensures |r| == |m|
    decreases |m| - row
  {
    if row == |m| then m
    else SortFrom(rule, if rule(m, k, row) then SwapRows(m, k, row) else m, k, row + 1)
  }

  /** Clear column k in the rows from `row` on. */
  function ClearFrom(m: Mat, n: nat, k: nat, row: nat): (r: Mat)
    requires |m| == n && (forall i :: 0 <= i < n ==> |m[i]| == n + 1)
    requires k < row <= n && m[k][k] != 0.0
    ensures |r| == n && forall i :: 0 <= i < n ==> |r[i]| == n + 1
    decreases n - row
  {
    if row == n then m
    else ClearFrom(AddRow(m, -m[row][k] / m[k][k], k, row), n, k, row + 1)
  }

  datatype Elimination = Reduced(m: Mat) | ZeroPivot(m: Mat)

  function EliminateFrom(rule: SwapRule, m: Mat, n: nat, k: nat): (r: Elimination)
    requires |m| == n && (forall i :: 0 <= i < n ==> |m[i]| == n + 1)
    requires k <= n
    decreases n - k
  {
    if k == n then Reduced(m)
    else
      SortKeepsShape(rule, m, n, k, k + 1);
      var s := SortFrom(rule, m, k, k + 1);
      if s[k][k] == 0.0 then ZeroPivot(s)
      else EliminateFrom(rule, ClearFrom(s, n, k, k + 1), n, k + 1)
  }

  /** One turn of the elimination. */
  lemma EliminateStep(rule: SwapRule, m: Mat, n: nat, k: nat)
    requires Shape(m, n) && k < n
    ensures Shape(SortFrom(rule, m, k, k + 1), n)
    ensures var s := SortFrom(rule, m, k, k + 1);
            var rest := if s[k][k] == 0.0 then ZeroPivot(s)
                        else EliminateFrom(rule, ClearFrom(s, n, k, k + 1), n, k + 1);
            EliminateFrom(rule, m, n, k) == rest
  {
    SortKeepsShape(rule, m, n, k, k + 1);
  }

  lemma {:induction false} SortKeepsShape(rule: SwapRule, m: Mat, n: nat, k: nat, row: nat)
    requires Shape(m, n) && k < row <= n
    ensures Shape(SortFrom(rule, m, k, row), n)
    decreases n - row
  {
    if row < n {
      SortKeepsShape(rule, if rule(m, k, row) then SwapRows(m, k, row) else m, n, k, row + 1);
    }
  }

  /** The first k columns are zero below the diagonal. */
  ghost predicate Cleared(m: Mat, n: nat, k: nat)
    requires Shape(m, n) && k <= n
  {
    forall i, j :: 0 <= j < k && j < i < n ==> m[i][j] == 0.0
  }

  ghost predicate NonZeroDiagonal(m: Mat, n: nat, k: nat)
    requires Shape(m, n) && k <= n
  {
    forall i :: 0 <= i < k ==> m[i][i] != 0.0
  }

  lemma {:induction false} SortFacts(rule: SwapRule, m: Mat, n: nat, k: nat, row: nat)
    requires Shape(m, n) && k < row <= n
    requires Cleared(m, n, k) && NonZeroDiagonal(m, n, k)
    ensures Shape(SortFrom(rule, m, k, row), n)
    ensures Cleared(SortFrom(rule, m, k, row), n, k) && NonZeroDiagonal(SortFrom(rule, m, k, row), n, k)
    ensures SameSolutions(m, SortFrom(rule, m, k, row), n)
    decreases n - row
  {
    if row < n {
      var next := if rule(m, k, row) then SwapRows(m, k, row) else m;
      SwapKeepsSolutions(m, k, row, n);
      SortFacts(rule, next, n, k, row + 1);
    }
  }

  /** Clearing one row. */
  lemma ClearStep(m: Mat, n: nat, k: nat, row: nat)
    requires Shape(m, n) && k < row < n && m[k][k] != 0.0
    requires Cleared(m, n, k) && NonZeroDiagonal(m, n, k)
    ensures var next := AddRow(m, -m[row][k] / m[k][k], k, row);
            && Shape(next, n) && Cleared(next, n, k) && NonZeroDiagonal(next, n, k)
            && next[row][k] == 0.0 && (forall i :: 0 <= i < n && i != row ==> next[i] == m[i])
            && SameSolutions(m, next, n)
  {
    AddKeepsSolutions(m, -m[row][k] / m[k][k], k, row, n);
    QuotientCancels(m[row][k], m[k][k]);
  }

  lemma {:induction false} ClearFacts(m: Mat, n: nat, k: nat, row: nat)
    requires Shape(m, n) && k < row <= n && m[k][k] != 0.0
    requires Cleared(m, n, k) && NonZeroDiagonal(m, n, k)
    requires forall i :: k < i < row ==> m[i][k] == 0.0
    ensures Cleared(ClearFrom(m, n, k, row), n, k + 1)
    ensures NonZeroDiagonal(ClearFrom(m, n, k, row), n, k + 1)
    ensures SameSolutions(m, ClearFrom(m, n, k, row), n)
    decreases n - row
  {
    if row < n {
      ClearStep(m, n, k, row);
      ClearFacts(AddRow(m, -m[row][k] / m[k][k], k, row), n, k, row + 1);
    }
  }

  lemma QuotientCancels(a: real, p: real)
    requires p != 0.0
    ensures a + -a / p * p == 0.0
  {
  }

  ghost predicate UpperTriangular(m: Mat, n: nat)
    requires Shape(m, n)
  {
    Cleared(m, n, n)
  }

  /** With no zero pivot the result is triangular and has the input's solutions, whatever was swapped. */
  lemma {:induction false} EliminationSound(rule: SwapRule, m: Mat, n: nat, k: nat)
    requires Shape(m, n) && k <= n
    requires Cleared(m, n, k) && NonZeroDiagonal(m, n, k)
    requires EliminateFrom(rule, m, n, k).Reduced?
    ensures var r := EliminateFrom(rule, m, n, k).m;
            && Shape(r, n) && UpperTriangular(r, n) && NonZeroDiagonal(r, n, n)
            && SameSolutions(m, r, n)
    decreases n - k
  {
    if k < n {
      SortFacts(rule, m, n, k, k + 1);
      var s := SortFrom(rule, m, k, k + 1);
      ClearFacts(s, n, k, k + 1);
      EliminationSound(rule, ClearFrom(s, n, k, k + 1), n, k + 1);
    }
  }

  // ----- the rule the program has -----

  /**
  `Abs(p) < Abs(q)` as the macro expands: the comparison ends up inside the false
  branch of the first conditional, so it is true when p < 0 or else when q != 0.
  */
  const MACRO_RULE: SwapRule :=
    (m: Mat, k: nat, row: nat) =>
      k < |m| && row < |m| && k < |m[k]| && k < |m[row]| && MacroTest(m[k][k], m[row][k])

  predicate MacroTest(p: real, q: real)
  {
    if p < 0.0 then true else q != 0.0
  }

  /** The pivot after a pass over the entries q below it. */
  function PivotAfter(p: real, q: seq<real>): real
    decreases |q|
  {
    if q == [] then p else PivotAfter(if MacroTest(p, q[0]) then q[0] else p, q[1..])
  }

  /** Column k from row `row` on. */
  function Column(m: Mat, n: nat, k: nat, row: nat): (c: seq<real>)
    requires |m| == n && (forall i :: 0 <= i < n ==> |m[i]| == n + 1)
    requires k < n && row <= n
    ensures |c| == n - row && forall i :: 0 <= i < n - row ==> c[i] == m[row + i][k]
  {
    seq(n - row, i requires 0 <= i < n - row => m[row + i][k])
  }

  lemma {:induction false} SortLeavesPivot(m: Mat, n: nat, k: nat, row: nat)
    requires Shape(m, n) && k < row <= n
    ensures |SortFrom(MACRO_RULE, m, k, row)[k]| == n + 1
    ensures SortFrom(MACRO_RULE, m, k, row)[k][k] == PivotAfter(m[k][k], Column(m, n, k, row))
    decreases n - row
  {
    if row < n {
      var next := if MACRO_RULE(m, k, row) then SwapRows(m, k, row) else m;
      assert Column(next, n, k, row + 1) == Column(m, n, k, row)[1..];
      SortLeavesPivot(next, n, k, row + 1);
    }
  }

  /** s[p] is the last non-zero entry. */
  ghost predicate LastNonZero(s: seq<real>, p: nat)
  {
    p < |s| && s[p] != 0.0 && forall i :: p < i < |s| ==> s[i] == 0.0
  }

  /**
  The pass takes the last non-zero entry, not the largest one, and loses even that
  one when it is negative and not in the last row.
  */
  lemma {:induction false} PivotIsLastNonZero(a: real, q: seq<real>, p: nat)
    requires LastNonZero([a] + q, p)
    ensures PivotAfter(a, q) == if ([a] + q)[p] > 0.0 || p == |q| then ([a] + q)[p] else 0.0
    decreases |q|
  {
    var s := [a] + q;
    if q != [] {
      var next := if MacroTest(a, q[0]) then q[0] else a;
      var t := [next] + q[1..];
      assert s[0] == a && s[1] == q[0] && t[0] == next;
      assert forall i :: 1 <= i < |t| ==> t[i] == s[i + 1];
      if p >= 1 {
        PivotIsLastNonZero(next, q[1..], p - 1);
      } else if a > 0.0 {
        PivotIsLastNonZero(next, q[1..], 0);
      } else {
        assert forall i :: 0 <= i < |q| - 1 ==> q[1..][i] == s[i + 2];
        PivotOfZeros(next, q[1..]);
      }
    }
  }

  lemma {:induction false} PivotOfZeros(a: real, q: seq<real>)
    requires a == 0.0 && forall i :: 0 <= i < |q| ==> q[i] == 0.0
    ensures PivotAfter(a, q) == 0.0
    decreases |q|
  {
    if q != [] {
      PivotOfZeros(a, q[1..]);
    }
  }

  /** When the pass leaves a zero pivot: the whole column is zero, or its last non-zero entry is lost. */
  lemma ZeroPivotIff(a: real, q: seq<real>)
    ensures PivotAfter(a, q) == 0.0 <==>
            forall p: nat :: LastNonZero([a] + q, p) ==> ([a] + q)[p] < 0.0 && p < |q|
  {
    var s := [a] + q;
    if exists p: nat :: LastNonZero(s, p) {
      var p: nat :| LastNonZero(s, p);
      PivotIsLastNonZero(a, q, p);
      assert forall r: nat :: LastNonZero(s, r) ==> r == p;
    } else {
      AllZero(s, |s|);
      assert s[0] == a && s[1..] == q;
      PivotOfZeros(a, q);
    }
  }

  lemma {:induction false} AllZero(s: seq<real>, k: nat)
    requires k <= |s| && forall p: nat :: !LastNonZero(s, p)
    ensures forall i :: |s| - k <= i < |s| ==> s[i] == 0.0
    decreases k
  {
    if k > 0 {
      AllZero(s, k - 1);
      assert !LastNonZero(s, |s| - k);
    }
  }

  // ----- normalising the diagonal and substituting back -----

  function NormalizeFrom(m: Mat, n: nat, row: nat): (r: Mat)
    requires |m| == n && (forall i :: 0 <= i < n ==> |m[i]| == n + 1)
    requires row <= n && forall i :: row <= i < n ==> m[i][i] != 0.0
    decreases n - row
  {
    if row == n then m else NormalizeFrom(ScaleRow(m, 1.0 / m[row][row], row), n, row + 1)
  }

  ghost predicate UnitDiagonal(m: Mat, n: nat, k: nat)
    requires Shape(m, n) && k <= n
  {
    forall i :: 0 <= i < k ==> m[i][i] == 1.0
  }

  lemma InverseFacts(p: real)
    requires p != 0.0
    ensures 1.0 / p != 0.0 && p * (1.0 / p) == 1.0
  {
  }

  lemma {:induction false} NormalizeFacts(m: Mat, n: nat, row: nat)
    requires Shape(m, n) && row <= n && UpperTriangular(m, n)
    requires UnitDiagonal(m, n, row) && forall i :: row <= i < n ==> m[i][i] != 0.0
    ensures var r := NormalizeFrom(m, n, row);
            && Shape(r, n) && UpperTriangular(r, n) && UnitDiagonal(r, n, n)
            && SameSolutions(m, r, n)
    decreases n - row
  {
    if row < n {
      var k := 1.0 / m[row][row];
      InverseFacts(m[row][row]);
      ScaleKeepsSolutions(m, k, row, n);
      NormalizeFacts(ScaleRow(m, k, row), n, row + 1);
    }
  }

  /** Unknown i is what row u leaves once the later unknowns are known. */
  ghost predicate Determined(u: Row, x: Row, i: nat, n: nat)
    requires i < n == |x| && |u| == n + 1
  {
    x[i] == u[n] - Dot(u, x, i + 1, n)
  }

  /** What back substitution computes, row by row from the last. */
  ghost predicate Substituted(m: Mat, n: nat, x: Row, row: nat)
    requires Shape(m, n) && |x| == n && row <= n
  {
    forall i :: row <= i < n ==> Determined(m[i], x, i, n)
  }

  lemma {:induction false} DotSkipsZeros(u: Row, x: Row, lo: nat, mid: nat, hi: nat)
    requires lo <= mid <= hi <= |u| && hi <= |x|
    requires forall j :: lo <= j < mid ==> u[j] == 0.0
    ensures Dot(u, x, lo, hi) == Dot(u, x, mid, hi)
    decreases mid - lo
  {
    if lo < mid {
      DotSkipsZeros(u, x, lo + 1, mid, hi);
    }
  }

  lemma {:induction false} DotFrame(u: Row, x: Row, y: Row, lo: nat, hi: nat)
    requires lo <= hi <= |u| && hi <= |x| && hi <= |y|
    requires forall j :: lo <= j < hi ==> x[j] == y[j]
    ensures Dot(u, x, lo, hi) == Dot(u, y, lo, hi)
    decreases hi - lo
  {
    if lo < hi {
      DotFrame(u, x, y, lo + 1, hi);
    }
  }

  /** A row only looks at the later unknowns. */
  lemma DeterminedFrame(u: Row, x: Row, y: Row, i: nat, n: nat)
    requires i < n == |x| == |y| && |u| == n + 1
    requires y[i] == x[i] && Determined(u, x, i, n) && forall j :: i < j < n ==> y[j] == x[j]
    ensures Determined(u, y, i, n)
  {
    DotFrame(u, x, y, i + 1, n);
  }

  /** Setting unknown `row` from the later ones extends the substitution by one row. */
  lemma SubstituteOne(m: Mat, n: nat, x: Row, y: Row, row: nat)
    requires Shape(m, n) && |x| == |y| == n && row < n
    requires Substituted(m, n, x, row + 1)
    requires forall i :: 0 <= i < n && i != row ==> y[i] == x[i]
    requires y[row] == m[row][n] - Dot(m[row], x, row + 1, n)
    ensures Substituted(m, n, y, row)
  {
    forall i | row < i < n
      ensures Determined(m[i], y, i, n)
    {
      DeterminedFrame(m[i], x, y, i, n);
    }
    DotFrame(m[row], x, y, row + 1, n);
    assert Determined(m[row], y, row, n);
  }

  lemma TriangularRow(m: Mat, n: nat, x: Row, i: nat)
    requires Shape(m, n) && UpperTriangular(m, n) && UnitDiagonal(m, n, n) && |x| == n && i < n
    ensures Satisfies(m[i], x) <==> Determined(m[i], x, i, n)
  {
    DotSkipsZeros(m[i], x, 0, i, n);
  }

  /** On a normalised triangular system, substituting back gives a solution. */
  lemma SubstitutionSolves(m: Mat, n: nat, x: Row)
    requires Shape(m, n) && UpperTriangular(m, n) && UnitDiagonal(m, n, n) && |x| == n
    requires Substituted(m, n, x, 0)
    ensures Solves(m, x)
  {
    forall i | 0 <= i < n
      ensures Satisfies(m[i], x)
    {
      TriangularRow(m, n, x, i);
    }
  }

  /** And it is the only one. */
  lemma {:induction false} TriangularUnique(m: Mat, n: nat, x: Row, y: Row, row: nat)
    requires Shape(m, n) && UpperTriangular(m, n) && UnitDiagonal(m, n, n)
    requires |x| == n && |y| == n && row <= n
    requires Solves(m, x) && Solves(m, y)
    ensures forall i :: row <= i < n ==> x[i] == y[i]
    decreases n - row
  {
    if row < n {
      TriangularUnique(m, n, x, y, row + 1);
      TriangularRow(m, n, x, row);
      TriangularRow(m, n, y, row);
      assert Satisfies(m[row], x) && Satisfies(m[row], y);
      DotFrame(m[row], x, y, row + 1, n);
    }
  }

  /** x is the one solution of m. */
  ghost predicate OnlySolution(m: Mat, n: nat, x: Row)
    requires Shape(m, n) && |x| == n
  {
    Solves(m, x) && forall y: Row :: |y| == n && Solves(m, y) ==> y == x
  }

  /** The three stages together: a success yields the one solution of the original system. */
  lemma StagesSolve(rule: SwapRule, m: Mat, n: nat, x: Row)
    requires Shape(m, n) && |x| == n
    requires EliminateFrom(rule, m, n, 0).Reduced?
    ensures var r := EliminateFrom(rule, m, n, 0).m;
            && Shape(r, n) && (forall i :: 0 <= i < n ==> r[i][i] != 0.0)
            && Shape(NormalizeFrom(r, n, 0), n)
            && (Substituted(NormalizeFrom(r, n, 0), n, x, 0) ==> OnlySolution(m, n, x))
  {
    EliminationSound(rule, m, n, 0);
    var r := EliminateFrom(rule, m, n, 0).m;
    NormalizeFacts(r, n, 0);
    var s := NormalizeFrom(r, n, 0);
    if Substituted(s, n, x, 0) {
      SubstitutionSolves(s, n, x);
      assert Solves(r, x) && Solves(m, x);
      forall y: Row | |y| == n && Solves(m, y)
        ensures y == x
      {
        assert Solves(r, y) && Solves(s, y);
        TriangularUnique(s, n, x, y, 0);
      }
    }
  }

  lemma OnlySolutionTransfers(a: Mat, b: Mat, n: nat, x: Row)
    requires Shape(a, n) && Shape(b, n) && |x| == n
    requires SameSolutions(a, b, n) && OnlySolution(b, n, x)
    ensures OnlySolution(a, n, x)
  {
    assert Solves(a, x);
    forall y: Row | |y| == n && Solves(a, y)
      ensures y == x
    {
      assert Solves(b, y);
    }
  }

  // ----- which systems the program rejects -----

  ghost predicate HasOnlySolution(m: Mat, n: nat)
    requires Shape(m, n)
  {
    exists x: Row :: |x| == n && OnlySolution(m, n, x)
  }

  lemma SameHasOnly(a: Mat, b: Mat, n: nat)
    requires Shape(a, n) && Shape(b, n) && SameSolutions(a, b, n)
    ensures HasOnlySolution(a, n) <==> HasOnlySolution(b, n)
  {
    if HasOnlySolution(a, n) {
      var x: Row :| |x| == n && OnlySolution(a, n, x);
      OnlySolutionTransfers(b, a, n, x);
    }
    if HasOnlySolution(b, n) {
      var x: Row :| |x| == n && OnlySolution(b, n, x);
      OnlySolutionTransfers(a, b, n, x);
    }
  }

  /** The pass drops the last non-zero entry of a column: it is negative and above the last row. */
  ghost predicate PivotLost(c: seq<real>)
  {
    exists p: nat :: LastNonZero(c, p) && c[p] < 0.0 && p + 1 < |c|
  }

  /** From column k on, some pass drops the pivot of a column that is not zero. */
  ghost predicate LosesPivot(m: Mat, n: nat, k: nat)
    requires Shape(m, n) && k <= n
    decreases n - k
  {
    k < n && (
      PivotLost(Column(m, n, k, k))
      || (Sorted(m, n, k)[k][k] != 0.0 && LosesPivot(NextSystem(m, n, k), n, k + 1)))
  }

  /** After the pass for column k. */
  ghost function Sorted(m: Mat, n: nat, k: nat): (s: Mat)
    requires Shape(m, n) && k < n
    ensures Shape(s, n) && s == SortFrom(MACRO_RULE, m, k, k + 1)
  {
    SortKeepsShape(MACRO_RULE, m, n, k, k + 1);
    SortFrom(MACRO_RULE, m, k, k + 1)
  }

  /** After the turn for column k, if it ends. */
  ghost function NextSystem(m: Mat, n: nat, k: nat): (s: Mat)
    requires Shape(m, n) && k < n
    ensures Shape(s, n)
    ensures Sorted(m, n, k)[k][k] != 0.0 ==> s == ClearFrom(Sorted(m, n, k), n, k, k + 1)
  {
    if Sorted(m, n, k)[k][k] == 0.0 then Sorted(m, n, k) else ClearFrom(Sorted(m, n, k), n, k, k + 1)
  }

  /** The pass ends with a zero pivot exactly when it drops one or the column is zero. */
  lemma PassFails(m: Mat, n: nat, k: nat)
    requires Shape(m, n) && k < n
    ensures |SortFrom(MACRO_RULE, m, k, k + 1)[k]| == n + 1
    ensures SortFrom(MACRO_RULE, m, k, k + 1)[k][k] == 0.0 <==>
            PivotLost(Column(m, n, k, k)) || forall i :: k <= i < n ==> m[i][k] == 0.0
  {
    var q := Column(m, n, k, k + 1);
    var c := Column(m, n, k, k);
    assert [m[k][k]] + q == c;
    SortLeavesPivot(m, n, k, k + 1);
    ZeroPivotIff(m[k][k], q);
    if forall i :: k <= i < n ==> m[i][k] == 0.0 {
      assert forall p: nat :: !LastNonZero(c, p);
    } else if exists p: nat :: LastNonZero(c, p) {
      var p: nat :| LastNonZero(c, p);
      assert forall r: nat :: LastNonZero(c, r) ==> r == p;
    } else {
      AllZero(c, |c|);
      assert forall i :: k <= i < n ==> m[i][k] == c[i - k];
    }
  }

  /** A vector that the first k rows map to zero, found from row k - 1 upwards. */
  ghost function KernelFrom(m: Mat, n: nat, k: nat, row: nat): (v: Row)
    requires Shape(m, n) && row <= k < n && NonZeroDiagonal(m, n, k)
    ensures |v| == n
    decreases k - row
  {
    if row == k then seq(n, j => if j == k then 1.0 else 0.0)
    else
      var w := KernelFrom(m, n, k, row + 1);
      w[row := -Dot(m[row], w, row + 1, n) / m[row][row]]
  }

  lemma {:induction false} KernelFacts(m: Mat, n: nat, k: nat, row: nat)
    requires Shape(m, n) && row <= k < n && NonZeroDiagonal(m, n, k)
    ensures var v := KernelFrom(m, n, k, row);
            && v[k] == 1.0 && (forall j :: k < j < n ==> v[j] == 0.0)
            && forall i :: row <= i < k ==> Dot(m[i], v, i, n) == 0.0
    decreases k - row
  {
    if row < k {
      KernelFacts(m, n, k, row + 1);
      var w, v := KernelFrom(m, n, k, row + 1), KernelFrom(m, n, k, row);
      forall i | row < i < k
        ensures Dot(m[i], v, i, n) == 0.0
      {
        DotFrame(m[i], w, v, i, n);
      }
      DotFrame(m[row], w, v, row + 1, n);
      QuotientCancels(Dot(m[row], w, row + 1, n), m[row][row]);
    }
  }

  lemma {:induction false} DotOfZeros(u: Row, x: Row, lo: nat, hi: nat)
    requires lo <= hi <= |u| && hi <= |x|
    requires forall j :: lo <= j < hi ==> x[j] == 0.0
    ensures Dot(u, x, lo, hi) == 0.0
    decreases hi - lo
  {
    if lo < hi {
      DotOfZeros(u, x, lo + 1, hi);
    }
  }

  /** A zero column below a cleared part leaves a direction in which nothing changes. */
  lemma ZeroColumnKernel(m: Mat, n: nat, k: nat) returns (v: Row)
    requires Shape(m, n) && k < n && Cleared(m, n, k) && NonZeroDiagonal(m, n, k)
    requires forall i :: k <= i < n ==> m[i][k] == 0.0
    ensures |v| == n && v[k] == 1.0 && forall i :: 0 <= i < n ==> Dot(m[i], v, 0, n) == 0.0
  {
    v := KernelFrom(m, n, k, 0);
    KernelFacts(m, n, k, 0);
    forall i | 0 <= i < n
      ensures Dot(m[i], v, 0, n) == 0.0
    {
      if i < k {
        DotSkipsZeros(m[i], v, 0, i, n);
      } else {
        DotSkipsZeros(m[i], v, 0, k, n);
        DotOfZeros(m[i], v, k + 1, n);
      }
    }
  }

  lemma ZeroColumnIsSingular(m: Mat, n: nat, k: nat)
    requires Shape(m, n) && k < n && Cleared(m, n, k) && NonZeroDiagonal(m, n, k)
    requires forall i :: k <= i < n ==> m[i][k] == 0.0
    ensures !HasOnlySolution(m, n)
  {
    if HasOnlySolution(m, n) {
      var x: Row :| |x| == n && OnlySolution(m, n, x);
      var v := ZeroColumnKernel(m, n, k);
      var y := Plus(x, v);
      assert y[k] != x[k];
      forall i | 0 <= i < n
        ensures Satisfies(m[i], y)
      {
        DotPlus(m[i], x, v, 0, n);
        assert Satisfies(m[i], x);
      }
    }
  }

  lemma TurnFacts(m: Mat, n: nat, k: nat)
    requires Shape(m, n) && k < n && Cleared(m, n, k) && NonZeroDiagonal(m, n, k)
    requires Sorted(m, n, k)[k][k] != 0.0
    ensures Cleared(NextSystem(m, n, k), n, k + 1) && NonZeroDiagonal(NextSystem(m, n, k), n, k + 1)
    ensures SameSolutions(m, Sorted(m, n, k), n) && SameSolutions(Sorted(m, n, k), NextSystem(m, n, k), n)
  {
    SortFacts(MACRO_RULE, m, n, k, k + 1);
    ClearFacts(Sorted(m, n, k), n, k, k + 1);
  }

  lemma TurnKeepsHasOnly(m: Mat, n: nat, k: nat)
    requires Shape(m, n) && k < n
    requires SameSolutions(m, Sorted(m, n, k), n) && SameSolutions(Sorted(m, n, k), NextSystem(m, n, k), n)
    ensures HasOnlySolution(NextSystem(m, n, k), n) <==> HasOnlySolution(m, n)
  {
    SameHasOnly(m, Sorted(m, n, k), n);
    SameHasOnly(Sorted(m, n, k), NextSystem(m, n, k), n);
  }

  lemma {:induction false} RejectionMeans(m: Mat, n: nat, k: nat)
    requires Shape(m, n) && k <= n && Cleared(m, n, k) && NonZeroDiagonal(m, n, k)
    requires EliminateFrom(MACRO_RULE, m, n, k).ZeroPivot?
    ensures LosesPivot(m, n, k) || !HasOnlySolution(m, n)
    decreases n - k
  {
    PassFails(m, n, k);
    if Sorted(m, n, k)[k][k] == 0.0 {
      if !PivotLost(Column(m, n, k, k)) {
        ZeroColumnIsSingular(m, n, k);
      }
    } else {
      TurnFacts(m, n, k);
      TurnKeepsHasOnly(m, n, k);
      RejectionMeans(NextSystem(m, n, k), n, k + 1);
    }
  }

  lemma {:induction false} SuccessKeepsPivots(m: Mat, n: nat, k: nat)
    requires Shape(m, n) && k <= n
    requires EliminateFrom(MACRO_RULE, m, n, k).Reduced?
    ensures !LosesPivot(m, n, k)
    decreases n - k
  {
    if k < n {
      PassFails(m, n, k);
      SuccessKeepsPivots(NextSystem(m, n, k), n, k + 1);
    }
  }

  /** The vector that back substitution finds. */
  ghost function Substitution(m: Mat, n: nat, row: nat): (x: Row)
    requires Shape(m, n) && row <= n
    ensures |x| == n
    decreases n - row
  {
    if row == n then seq(n, _ => 0.0)
    else
      var w := Substitution(m, n, row + 1);
      w[row := m[row][n] - Dot(m[row], w, row + 1, n)]
  }

  lemma {:induction false} SubstitutionExists(m: Mat, n: nat, row: nat)
    requires Shape(m, n) && row <= n
    ensures Substituted(m, n, Substitution(m, n, row), row)
    decreases n - row
  {
    if row < n {
      SubstitutionExists(m, n, row + 1);
      SubstituteOne(m, n, Substitution(m, n, row + 1), Substitution(m, n, row), row);
    }
  }

  lemma SuccessHasOnly(rule: SwapRule, m: Mat, n: nat)
    requires Shape(m, n) && EliminateFrom(rule, m, n, 0).Reduced?
    ensures HasOnlySolution(m, n)
  {
    EliminationSound(rule, m, n, 0);
    var r := EliminateFrom(rule, m, n, 0).m;
    NormalizeFacts(r, n, 0);
    var x := Substitution(NormalizeFrom(r, n, 0), n, 0);
    SubstitutionExists(NormalizeFrom(r, n, 0), n, 0);
    StagesSolve(rule, m, n, x);
  }

  /** A system is accepted exactly when it has one solution and no pass drops a pivot. */
  lemma AcceptedIff(m: Mat, n: nat)
    requires Shape(m, n)
    ensures EliminateFrom(MACRO_RULE, m, n, 0).Reduced? <==> HasOnlySolution(m, n) && !LosesPivot(m, n, 0)
  {
    if EliminateFrom(MACRO_RULE, m, n, 0).Reduced? {
      SuccessHasOnly(MACRO_RULE, m, n);
      SuccessKeepsPivots(m, n, 0);
    } else {
      RejectionMeans(m, n, 0);
    }
  }

  /** One comparison of the pass. */
  lemma SortStep(m: Mat, n: nat, k: nat, row: nat)
    requires Shape(m, n) && k < row < n
    ensures SortFrom(MACRO_RULE, m, k, row)
         == SortFrom(MACRO_RULE, if MacroTest(m[k][k], m[row][k]) then SwapRows(m, k, row) else m, k, row + 1)
  {
  }

  /** What clearing does to a row. */
  lemma {:induction false} ClearFromAt(m: Mat, n: nat, k: nat, row: nat, i: nat)
    requires Shape(m, n) && k < row <= n && m[k][k] != 0.0 && i < n
    ensures ClearFrom(m, n, k, row)[i] == if i < row then m[i] else RowAdd(m[i], -m[i][k] / m[k][k], m[k])
    decreases n - row
  {
    if row < n {
      ClearFromAt(AddRow(m, -m[row][k] / m[k][k], k, row), n, k, row + 1, i);
    }
  }

  /** Column j where the pivot row repeats the pivot. */
  lemma ClearedEntry(m: Mat, n: nat, k: nat, i: nat, j: nat)
    requires Shape(m, n) && k < i < n && j <= n && m[k][k] != 0.0 && m[k][j] == m[k][k]
    ensures ClearFrom(m, n, k, k + 1)[i][j] == m[i][j] - m[i][k]
  {
    ClearFromAt(m, n, k, k + 1, i);
    QuotientCancels(m[i][k], m[k][k]);
  }

  // ----- scaling a whole system -----

  function ScaleAll(f: real, m: Mat): (r: Mat)
    ensures |r| == |m| && forall i :: 0 <= i < |m| ==> r[i] == RowScale(f, m[i])
  {
    seq(|m|, i requires 0 <= i < |m| => RowScale(f, m[i]))
  }

  lemma ScaleAllKeepsSolutions(f: real, m: Mat, n: nat)
    requires Shape(m, n) && f != 0.0
    ensures Shape(ScaleAll(f, m), n) && SameSolutions(m, ScaleAll(f, m), n)
  {
    var a := ScaleAll(f, m);
    forall x: Row | |x| == n
      ensures Solves(m, x) <==> Solves(a, x)
    {
      forall i | 0 <= i < n
        ensures Satisfies(m[i], x) <==> Satisfies(a[i], x)
      {
        DotRowScale(f, m[i], x, 0, n);
        ScaleCancels(f, Dot(m[i], x, 0, n), m[i][n]);
      }
    }
  }

  lemma TestScaled(f: real, p: real, q: real)
    requires f > 0.0
    ensures MacroTest(p * f, q * f) == MacroTest(p, q)
    ensures p * f < 0.0 <==> p < 0.0
    ensures p * f == 0.0 <==> p == 0.0
  {
  }

  lemma SwapScaled(f: real, m: Mat, k: nat, row: nat)
    requires k < |m| && row < |m|
    ensures SwapRows(ScaleAll(f, m), k, row) == ScaleAll(f, SwapRows(m, k, row))
  {
  }

  lemma {:induction false} SortScaled(f: real, m: Mat, n: nat, k: nat, row: nat)
    requires Shape(m, n) && k < row <= n && f > 0.0
    ensures SortFrom(MACRO_RULE, ScaleAll(f, m), k, row) == ScaleAll(f, SortFrom(MACRO_RULE, m, k, row))
    decreases n - row
  {
    if row < n {
      TestScaled(f, m[k][k], m[row][k]);
      assert MACRO_RULE(ScaleAll(f, m), k, row) == MACRO_RULE(m, k, row);
      SwapScaled(f, m, k, row);
      SortScaled(f, if MACRO_RULE(m, k, row) then SwapRows(m, k, row) else m, n, k, row + 1);
    }
  }

  lemma FactorScaled(f: real, a: real, p: real)
    requires f > 0.0 && p != 0.0
    ensures p * f != 0.0 && -(a * f) / (p * f) == -a / p
  {
    TestScaled(f, p, p);
    var t := -a / p;
    assert t * (p * f) == (t * p) * f;
  }

  lemma RowAddScaled(f: real, u: Row, k: real, v: Row)
    requires |u| == |v|
    ensures RowAdd(RowScale(f, u), k, RowScale(f, v)) == RowScale(f, RowAdd(u, k, v))
  {
    var a, b := RowAdd(RowScale(f, u), k, RowScale(f, v)), RowScale(f, RowAdd(u, k, v));
    forall j | 0 <= j < |u|
      ensures a[j] == b[j]
    {
      ProductsScaled(f, u[j], k, v[j]);
    }
  }

  lemma ProductsScaled(f: real, a: real, k: real, b: real)
    ensures a * f + k * (b * f) == (a + k * b) * f
  {
  }

  lemma AddRowScaled(f: real, m: Mat, t: real, k: nat, row: nat)
    requires k < |m| && row < |m| && k != row && |m[k]| == |m[row]|
    ensures AddRow(ScaleAll(f, m), t, k, row) == ScaleAll(f, AddRow(m, t, k, row))
  {
    RowAddScaled(f, m[row], t, m[k]);
    var a, b := AddRow(ScaleAll(f, m), t, k, row), ScaleAll(f, AddRow(m, t, k, row));
    assert forall i :: 0 <= i < |m| ==> a[i] == b[i];
  }

  lemma {:induction false} ClearScaled(f: real, m: Mat, n: nat, k: nat, row: nat)
    requires Shape(m, n) && k < row <= n && f > 0.0 && m[k][k] != 0.0
    ensures ScaleAll(f, m)[k][k] != 0.0
    ensures ClearFrom(ScaleAll(f, m), n, k, row) == ScaleAll(f, ClearFrom(m, n, k, row))
    decreases n - row
  {
    FactorScaled(f, m[k][k], m[k][k]);
    if row < n {
      var t := -m[row][k] / m[k][k];
      FactorScaled(f, m[row][k], m[k][k]);
      assert -ScaleAll(f, m)[row][k] / ScaleAll(f, m)[k][k] == t;
      AddRowScaled(f, m, t, k, row);
      ClearScaled(f, AddRow(m, t, k, row), n, k, row + 1);
    }
  }

  lemma PivotLostScaled(f: real, m: Mat, n: nat, k: nat)
    requires Shape(m, n) && k < n && f > 0.0
    ensures PivotLost(Column(ScaleAll(f, m), n, k, k)) <==> PivotLost(Column(m, n, k, k))
  {
    var c, d := Column(m, n, k, k), Column(ScaleAll(f, m), n, k, k);
    forall i | 0 <= i < n - k
      ensures (d[i] == 0.0 <==> c[i] == 0.0) && (d[i] < 0.0 <==> c[i] < 0.0)
    {
      assert d[i] == c[i] * f;
      TestScaled(f, c[i], c[i]);
    }
    assert forall p: nat :: LastNonZero(d, p) <==> LastNonZero(c, p);
  }

  lemma NextScaled(f: real, m: Mat, n: nat, k: nat)
    requires Shape(m, n) && k < n && f > 0.0
    ensures Sorted(ScaleAll(f, m), n, k)[k][k] == 0.0 <==> Sorted(m, n, k)[k][k] == 0.0
    ensures NextSystem(ScaleAll(f, m), n, k) == ScaleAll(f, NextSystem(m, n, k))
  {
    var s := Sorted(m, n, k);
    SortScaled(f, m, n, k, k + 1);
    assert Sorted(ScaleAll(f, m), n, k) == ScaleAll(f, s);
    TestScaled(f, s[k][k], s[k][k]);
    if s[k][k] != 0.0 {
      ClearScaled(f, s, n, k, k + 1);
    }
  }

  /** Whether a pivot is dropped does not depend on the unit of measurement. */
  lemma {:induction false} LosesPivotScaled(f: real, m: Mat, n: nat, k: nat)
    requires Shape(m, n) && k <= n && f > 0.0
    ensures LosesPivot(ScaleAll(f, m), n, k) <==> LosesPivot(m, n, k)
    decreases n - k
  {
    if k < n {
      PivotLostScaled(f, m, n, k);
      NextScaled(f, m, n, k);
      LosesPivotScaled(f, NextSystem(m, n, k), n, k + 1);
    }
  }

  /** Dividing all equations by the number of points changes nothing about which systems are accepted. */
  lemma AcceptedInAnyUnit(f: real, m: Mat, n: nat)
    requires Shape(m, n) && f > 0.0
    ensures EliminateFrom(MACRO_RULE, ScaleAll(f, m), n, 0).Reduced? <==>
            HasOnlySolution(m, n) && !LosesPivot(m, n, 0)
  {
    ScaleAllKeepsSolutions(f, m, n);
    SameHasOnly(m, ScaleAll(f, m), n);
    LosesPivotScaled(f, m, n, 0);
    AcceptedIff(ScaleAll(f, m), n);
  }
}
