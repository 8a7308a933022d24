/**
The calibration of tests/ellip.c when the counter is zero, because no point was added or
because 2^32 were: the only case in which the numbers leave the reals at the first step.
*/
module ZeroCount {
  import L = LinearSystem

  /** Numbers with the special values of IEEE 754, without rounding and with one zero. */
  datatype Num = Fin(r: real) | Inf(neg: bool) | NaN

  function Sign(a: Num): bool
  {
    match a case Fin(r) => r < 0.0 case Inf(neg) => neg case NaN => false
  }

  function Neg(a: Num): Num
  {
    match a case Fin(r) => Fin(-r) case Inf(neg) => Inf(!neg) case NaN => NaN
  }

  function Add(a: Num, b: Num): Num
  {
    if a.NaN? || b.NaN? then NaN
    else if a.Fin? && b.Fin? then Fin(a.r + b.r)
    else if a.Inf? && b.Inf? then if a.neg == b.neg then a else NaN
    else if a.Inf? then a
    else b
  }

  function Mul(a: Num, b: Num): Num
  {
    if a.NaN? || b.NaN? then NaN
    else if a.Fin? && b.Fin? then Fin(a.r * b.r)
    else if a == Fin(0.0) || b == Fin(0.0) then NaN
    else Inf(Sign(a) != Sign(b))
  }

  /** A division by zero has the sign of the dividend. */
  function Div(a: Num, b: Num): Num
  {
    if a.NaN? || b.NaN? then NaN
    else if a.Inf? then if b.Inf? then NaN else Inf(Sign(a) != Sign(b))
    else if b.Inf? then Fin(0.0)
    else if b.r != 0.0 then Fin(a.r / b.r)
    else if a.r == 0.0 then NaN
    else Inf(a.r < 0.0)
  }

  type Row = seq<Num>
  type Mat = seq<Row>

  ghost predicate Shape(m: Mat, n: nat)
  {
    |m| == n && forall i :: 0 <= i < n ==> |m[i]| == n + 1
  }

  /** No entry is finite. */
  ghost predicate Wild(m: Mat, n: nat)
  {
    Shape(m, n) && forall i, j :: 0 <= i < n && 0 <= j < n + 1 ==> !m[i][j].Fin?
  }

  ghost predicate AllNaN(u: Row)
  {
    forall j :: 0 <= j < |u| ==> u[j].NaN?
  }

  // ----- the stages of the fit -----

  function Average(m: Mat, count: Num): (r: Mat)
    ensures |r| == |m| && forall i :: 0 <= i < |m| ==>
              |r[i]| == |m[i]| && forall j :: 0 <= j < |m[i]| ==> r[i][j] == Div(m[i][j], count)
  {
    seq(|m|, i requires 0 <= i < |m| => seq(|m[i]|, j requires 0 <= j < |m[i]| => Div(m[i][j], count)))
  }

  /** The macro's comparison: a NaN counts as neither negative nor zero. */
  predicate MacroTest(p: Num, q: Num)
  {
    Sign(p) || q != Fin(0.0)
  }

  function SortFrom(m: Mat, n: nat, k: nat, row: nat): (r: Mat)
    requires |m| == n && (forall i :: 0 <= i < n ==> |m[i]| == n + 1) && k < row <= n
    ensures |r| == n && forall i :: 0 <= i < n ==> |r[i]| == n + 1
    decreases n - row
  {
    if row == n then m
    else SortFrom(if MacroTest(m[k][k], m[row][k]) then m[k := m[row]][row := m[k]] else m, n, k, row + 1)
  }

  function RowAdd(u: Row, k: Num, v: Row): (w: Row)
    requires |u| == |v|
    ensures |w| == |u| && forall j :: 0 <= j < |u| ==> w[j] == Add(u[j], Mul(k, v[j]))
  {
    seq(|u|, j requires 0 <= j < |u| => Add(u[j], Mul(k, v[j])))
  }

  function ClearFrom(m: Mat, n: nat, k: nat, row: nat): (r: Mat)
    requires |m| == n && (forall i :: 0 <= i < n ==> |m[i]| == n + 1) && k < row <= n
    ensures |r| == n && forall i :: 0 <= i < n ==> |r[i]| == n + 1
    decreases n - row
  {
    if row == n then m
    else ClearFrom(m[row := RowAdd(m[row], Div(Neg(m[row][k]), m[k][k]), m[k])], n, k, row + 1)
  }

  datatype Elimination = Reduced(m: Mat) | ZeroPivot

  function EliminateFrom(m: Mat, n: nat, k: nat): Elimination
    requires |m| == n && (forall i :: 0 <= i < n ==> |m[i]| == n + 1) && k <= n
    decreases n - k
  {
    if k == n then Reduced(m)
    else
      var s := SortFrom(m, n, k, k + 1);
      if s[k][k] == Fin(0.0) then ZeroPivot else EliminateFrom(ClearFrom(s, n, k, k + 1), n, k + 1)
  }

  function Normalize(m: Mat, n: nat): (r: Mat)
    requires |m| == n && forall i :: 0 <= i < n ==> |m[i]| == n + 1
    ensures |r| == n && forall i :: 0 <= i < n ==>
              |r[i]| == n + 1 && forall j :: 0 <= j < n + 1 ==> r[i][j] == Mul(m[i][j], Div(Fin(1.0), m[i][i]))
  {
    seq(n, i requires 0 <= i < n =>
      seq(n + 1, j requires 0 <= j < n + 1 => Mul(m[i][j], Div(Fin(1.0), m[i][i]))))
  }

  /** v - u[lo] * x[lo] - ... - u[n - 1] * x[n - 1], the last product first. */
  function Subtract(v: Num, u: Row, x: Row, lo: nat, n: nat): Num
    requires lo <= n <= |u| && n <= |x|
    decreases n - lo
  {
    if lo == n then v else Add(Subtract(v, u, x, lo + 1, n), Neg(Mul(u[lo], x[lo])))
  }

  /** The unknowns from the last up to `row`. */
  function Substitute(m: Mat, n: nat, x: Row, row: nat): (y: Row)
    requires |m| == n && (forall i :: 0 <= i < n ==> |m[i]| == n + 1) && |x| == n && row <= n
    ensures |y| == n
    decreases n - row
  {
    if row == n then x
    else
      var y := Substitute(m, n, x, row + 1);
      y[row := Subtract(m[row][n], m[row], y, row + 1, n)]
  }

  // ----- nothing finite comes back -----

  lemma AverageIsWild(m: Mat, n: nat)
    requires Shape(m, n) && forall i, j :: 0 <= i < n && 0 <= j < n + 1 ==> m[i][j].Fin?
    ensures Wild(Average(m, Fin(0.0)), n)
  {
  }

  lemma {:induction false} SortStaysWild(m: Mat, n: nat, k: nat, row: nat)
    requires Wild(m, n) && k < row <= n
    ensures Wild(SortFrom(m, n, k, row), n)
    decreases n - row
  {
    if row < n {
      SortStaysWild(if MacroTest(m[k][k], m[row][k]) then m[k := m[row]][row := m[k]] else m, n, k, row + 1);
    }
  }

  /** The factor is NaN, and so is all of the row. */
  lemma {:induction false} ClearStaysWild(m: Mat, n: nat, k: nat, row: nat)
    requires Wild(m, n) && k < row <= n
    ensures Wild(ClearFrom(m, n, k, row), n)
    decreases n - row
  {
    if row < n {
      var f := Div(Neg(m[row][k]), m[k][k]);
      assert f.NaN?;
      ClearStaysWild(m[row := RowAdd(m[row], f, m[k])], n, k, row + 1);
    }
  }

  lemma {:induction false} EliminationSucceeds(m: Mat, n: nat, k: nat)
    requires Wild(m, n) && k <= n
    ensures EliminateFrom(m, n, k).Reduced? && Wild(EliminateFrom(m, n, k).m, n)
    decreases n - k
  {
    if k < n {
      SortStaysWild(m, n, k, k + 1);
      var s := SortFrom(m, n, k, k + 1);
      ClearStaysWild(s, n, k, k + 1);
      EliminationSucceeds(ClearFrom(s, n, k, k + 1), n, k + 1);
    }
  }

  /** One over a pivot is NaN or zero, and either turns the rest of the row into NaN. */
  lemma NormalizedIsNaN(m: Mat, n: nat)
    requires Wild(m, n)
    ensures forall i :: 0 <= i < n ==> AllNaN(Normalize(m, n)[i])
  {
  }

  lemma {:induction false} SubtractNaN(v: Num, u: Row, x: Row, lo: nat, n: nat)
    requires lo <= n <= |u| && n <= |x| && v.NaN?
    ensures Subtract(v, u, x, lo, n).NaN?
    decreases n - lo
  {
    if lo < n {
      SubtractNaN(v, u, x, lo + 1, n);
    }
  }

  lemma {:induction false} SubstitutedIsNaN(m: Mat, n: nat, x: Row, row: nat)
    requires Shape(m, n) && |x| == n && row <= n && forall i :: 0 <= i < n ==> AllNaN(m[i])
    ensures forall i :: row <= i < n ==> Substitute(m, n, x, row)[i].NaN?
    decreases n - row
  {
    if row < n {
      SubstitutedIsNaN(m, n, x, row + 1);
      SubtractNaN(m[row][n], m[row], Substitute(m, n, x, row + 1), row + 1, n);
    }
  }

  /**
  With a counter of zero the fit reports success for every matrix of finite sums, and
  every coefficient that it reports is NaN.
  */
  lemma SucceedsWithNaN(m: Mat, n: nat, x: Row)
    requires Shape(m, n) && |x| == n && forall i, j :: 0 <= i < n && 0 <= j < n + 1 ==> m[i][j].Fin?
    ensures var r := EliminateFrom(Average(m, Fin(0.0)), n, 0);
            r.Reduced? && Shape(r.m, n) && AllNaN(Substitute(Normalize(r.m, n), n, x, 0))
  {
    AverageIsWild(m, n);
    EliminationSucceeds(Average(m, Fin(0.0)), n, 0);
    var r := EliminateFrom(Average(m, Fin(0.0)), n, 0).m;
    NormalizedIsNaN(r, n);
    SubstitutedIsNaN(Normalize(r, n), n, x, 0);
  }

  // ----- on finite numbers these are the stages of the other module -----

  function Lift(u: L.Row): (w: Row)
    ensures |w| == |u| && forall j :: 0 <= j < |u| ==> w[j] == Fin(u[j])
  {
    seq(|u|, j requires 0 <= j < |u| => Fin(u[j]))
  }

  function LiftAll(m: L.Mat): (r: Mat)
    ensures |r| == |m| && forall i :: 0 <= i < |m| ==> r[i] == Lift(m[i])
  {
    seq(|m|, i requires 0 <= i < |m| => Lift(m[i]))
  }

  lemma SwapLifts(m: L.Mat, i: nat, j: nat)
    requires i < |m| && j < |m|
    ensures LiftAll(L.SwapRows(m, i, j)) == LiftAll(m)[i := Lift(m[j])][j := Lift(m[i])]
  {
  }

  lemma {:induction false} SortLifts(m: L.Mat, n: nat, k: nat, row: nat)
    requires L.Shape(m, n) && k < row <= n
    ensures SortFrom(LiftAll(m), n, k, row) == LiftAll(L.SortFrom(L.MACRO_RULE, m, k, row))
    decreases n - row
  {
    if row < n {
      SwapLifts(m, k, row);
      L.SortStep(m, n, k, row);
      SortLifts(if L.MacroTest(m[k][k], m[row][k]) then L.SwapRows(m, k, row) else m, n, k, row + 1);
    }
  }

  lemma AddLifts(m: L.Mat, f: real, k: nat, row: nat)
    requires k < |m| && row < |m| && |m[k]| == |m[row]|
    ensures LiftAll(L.AddRow(m, f, k, row)) == LiftAll(m)[row := RowAdd(Lift(m[row]), Fin(f), Lift(m[k]))]
  {
    var a, b := Lift(L.RowAdd(m[row], f, m[k])), RowAdd(Lift(m[row]), Fin(f), Lift(m[k]));
    assert forall j :: 0 <= j < |a| ==> a[j] == b[j];
    assert a == b;
    var x, y := LiftAll(L.AddRow(m, f, k, row)), LiftAll(m)[row := b];
    assert forall i :: 0 <= i < |m| ==> x[i] == y[i];
  }

  lemma {:induction false} ClearLifts(m: L.Mat, n: nat, k: nat, row: nat)
    requires L.Shape(m, n) && k < row <= n && m[k][k] != 0.0
    ensures ClearFrom(LiftAll(m), n, k, row) == LiftAll(L.ClearFrom(m, n, k, row))
    decreases n - row
  {
    if row < n {
      var f := -m[row][k] / m[k][k];
      AddLifts(m, f, k, row);
      assert Div(Neg(LiftAll(m)[row][k]), LiftAll(m)[k][k]) == Fin(f);
      ClearLifts(L.AddRow(m, f, k, row), n, k, row + 1);
    }
  }

  function LiftResult(e: L.Elimination): Elimination
  {
    match e case Reduced(m) => Reduced(LiftAll(m)) case ZeroPivot(_) => ZeroPivot
  }

  lemma TurnLifts(m: L.Mat, n: nat, k: nat, s: L.Mat)
    requires L.Shape(m, n) && k < n && s == L.SortFrom(L.MACRO_RULE, m, k, k + 1)
    ensures L.Shape(s, n) && SortFrom(LiftAll(m), n, k, k + 1) == LiftAll(s)
    ensures LiftAll(s)[k][k] == Fin(0.0) <==> s[k][k] == 0.0
    ensures s[k][k] != 0.0 ==> ClearFrom(LiftAll(s), n, k, k + 1) == LiftAll(L.ClearFrom(s, n, k, k + 1))
  {
    L.SortKeepsShape(L.MACRO_RULE, m, n, k, k + 1);
    SortLifts(m, n, k, k + 1);
    if s[k][k] != 0.0 {
      ClearLifts(s, n, k, k + 1);
    }
  }

  lemma ResultLifts(m: L.Mat, n: nat, k: nat, s: L.Mat, next: L.Elimination)
    requires L.Shape(m, n) && k < n && L.Shape(s, n) && SortFrom(LiftAll(m), n, k, k + 1) == LiftAll(s)
    requires LiftAll(s)[k][k] == Fin(0.0) <==> s[k][k] == 0.0
    requires next == if s[k][k] == 0.0 then L.ZeroPivot(s)
                     else L.EliminateFrom(L.MACRO_RULE, L.ClearFrom(s, n, k, k + 1), n, k + 1)
    requires s[k][k] != 0.0 ==> EliminateFrom(ClearFrom(LiftAll(s), n, k, k + 1), n, k + 1) == LiftResult(next)
    ensures EliminateFrom(LiftAll(m), n, k) == LiftResult(next)
  {
  }

  /** With finite entries the elimination is that of LinearSystem. */
  lemma {:induction false} EliminationLifts(m: L.Mat, n: nat, k: nat)
    requires L.Shape(m, n) && k <= n
    ensures EliminateFrom(LiftAll(m), n, k) == LiftResult(L.EliminateFrom(L.MACRO_RULE, m, n, k))
    decreases n - k
  {
    if k < n {
      L.EliminateStep(L.MACRO_RULE, m, n, k);
      var s := L.SortFrom(L.MACRO_RULE, m, k, k + 1);
      TurnLifts(m, n, k, s);
      if s[k][k] != 0.0 {
        EliminationLifts(L.ClearFrom(s, n, k, k + 1), n, k + 1);
      }
      ResultLifts(m, n, k, s, L.EliminateFrom(L.MACRO_RULE, m, n, k));
    }
  }

  lemma {:induction false} NormalizedRow(m: L.Mat, n: nat, row: nat, i: nat)
    requires L.Shape(m, n) && row <= n && i < n && forall h :: row <= h < n ==> m[h][h] != 0.0
    ensures |L.NormalizeFrom(m, n, row)| == n
    ensures L.NormalizeFrom(m, n, row)[i] == if i < row then m[i] else L.RowScale(1.0 / m[i][i], m[i])
    decreases n - row
  {
    if row < n {
      NormalizedRow(L.ScaleRow(m, 1.0 / m[row][row], row), n, row + 1, i);
    }
  }

  /** And so is the normalisation. */
  lemma NormalizeLifts(m: L.Mat, n: nat)
    requires L.Shape(m, n) && forall h :: 0 <= h < n ==> m[h][h] != 0.0
    ensures Normalize(LiftAll(m), n) == LiftAll(L.NormalizeFrom(m, n, 0))
  {
    if n > 0 {
      NormalizedRow(m, n, 0, 0);
    }
    forall i | 0 <= i < n
      ensures |L.NormalizeFrom(m, n, 0)| == n && Normalize(LiftAll(m), n)[i] == Lift(L.NormalizeFrom(m, n, 0)[i])
    {
      NormalizedRow(m, n, 0, i);
      var a, b := Normalize(LiftAll(m), n)[i], Lift(L.RowScale(1.0 / m[i][i], m[i]));
      assert forall j :: 0 <= j < n + 1 ==> a[j] == b[j];
    }
  }

  lemma {:induction false} SubtractLifts(v: real, u: L.Row, x: L.Row, lo: nat, n: nat)
    requires lo <= n <= |u| && n <= |x|
    ensures Subtract(Fin(v), Lift(u), Lift(x), lo, n) == Fin(v - L.Dot(u, x, lo, n))
    decreases n - lo
  {
    if lo < n {
      SubtractLifts(v, u, x, lo + 1, n);
    }
  }

  /** And so is the back substitution. */
  lemma {:induction false} SubstitutionLifts(m: L.Mat, n: nat, x: L.Row, row: nat) returns (y: L.Row)
    requires L.Shape(m, n) && |x| == n && row <= n
    ensures |y| == n && Substitute(LiftAll(m), n, Lift(x), row) == Lift(y) && L.Substituted(m, n, y, row)
    decreases n - row
  {
    if row == n {
      y := x;
    } else {
      var w := SubstitutionLifts(m, n, x, row + 1);
      y := w[row := m[row][n] - L.Dot(m[row], w, row + 1, n)];
      SubtractLifts(m[row][n], m[row], w, row + 1, n);
      assert Lift(y) == Lift(w)[row := Fin(y[row])];
      L.SubstituteOne(m, n, w, y, row);
    }
  }
}
