/** Least squares over the reals: the normal equations and the minimum they describe. */
module LeastSquares {
  import opened LinearSystem

  // ----- sums over observations -----

  function SumOfProducts(u: seq<real>, v: seq<real>): real
    requires |u| == |v|
    decreases |u|
  {
    if u == [] then 0.0 else SumOfProducts(u[..|u| - 1], v[..|v| - 1]) + u[|u| - 1] * v[|v| - 1]
  }

  function Minus(s: seq<real>, d: seq<real>): (t: seq<real>)
    requires |s| == |d|
    ensures |t| == |s| && forall i :: 0 <= i < |s| ==> t[i] == s[i] - d[i]
  {
    seq(|s|, i requires 0 <= i < |s| => s[i] - d[i])
  }

  lemma SquareOfSum(e: real, l: real)
    ensures (e + l) * (e + l) == e * e + 2.0 * (l * e) + l * l
  {
  }

  lemma {:induction false} SquaresOfSums(e: seq<real>, l: seq<real>)
    requires |e| == |l|
    ensures SumOfProducts(Plus(e, l), Plus(e, l))
         == SumOfProducts(e, e) + 2.0 * SumOfProducts(l, e) + SumOfProducts(l, l)
    decreases |e|
  {
    if e != [] {
      var n := |e| - 1;
      assert Plus(e, l)[..n] == Plus(e[..n], l[..n]);
      SquaresOfSums(e[..n], l[..n]);
      SquareOfSum(e[n], l[n]);
    }
  }

  lemma PositiveProduct(a: real, b: real) returns (q: real)
    requires a > 0.0 && b > 0.0
    ensures q == a * b && q > 0.0
  {
    q := a * b;
  }

  lemma SquarePositive(l: real) returns (q: real)
    ensures q == l * l
    ensures if l == 0.0 then q == 0.0 else q > 0.0
  {
    if l > 0.0 {
      q := PositiveProduct(l, l);
    } else if l < 0.0 {
      q := PositiveProduct(-l, -l);
    } else {
      q := 0.0;
    }
  }

  lemma {:induction false} SumOfSquares(l: seq<real>)
    ensures SumOfProducts(l, l) >= 0.0
    ensures SumOfProducts(l, l) == 0.0 ==> forall i :: 0 <= i < |l| ==> l[i] == 0.0
    decreases |l|
  {
    if l != [] {
      var n := |l| - 1;
      SumOfSquares(l[..n]);
      var q := SquarePositive(l[n]);
      assert forall i :: 0 <= i < n ==> l[i] == l[..n][i];
    }
  }

  // ----- observations and their normal equations -----

  /** Each observation is a row of n features and the observed right-hand side. */
  ghost predicate Observations(vs: seq<Row>, n: nat)
  {
    forall i :: 0 <= i < |vs| ==> |vs[i]| == n + 1
  }

  /** Feature c over all observations. */
  function Feature(vs: seq<Row>, n: nat, c: nat): (f: seq<real>)
    requires (forall i :: 0 <= i < |vs| ==> |vs[i]| == n + 1) && c <= n
    ensures |f| == |vs| && forall i :: 0 <= i < |vs| ==> f[i] == vs[i][c]
  {
    seq(|vs|, i requires 0 <= i < |vs| => vs[i][c])
  }

  function Normal(vs: seq<Row>, n: nat): (m: Mat)
    requires forall i :: 0 <= i < |vs| ==> |vs[i]| == n + 1
    ensures |m| == n && forall i :: 0 <= i < n ==> |m[i]| == n + 1
    ensures forall r, c :: 0 <= r < n && 0 <= c <= n ==>
              m[r][c] == SumOfProducts(Feature(vs, n, r), Feature(vs, n, c))
  {
    seq(n, r requires 0 <= r < n =>
      seq(n + 1, c requires 0 <= c <= n => SumOfProducts(Feature(vs, n, r), Feature(vs, n, c))))
  }

  lemma NormalGrows(vs: seq<Row>, v: Row, n: nat, r: nat, c: nat)
    requires Observations(vs, n) && |v| == n + 1 && r < n && c <= n
    ensures Observations(vs + [v], n)
    ensures Normal(vs + [v], n)[r][c] == Normal(vs, n)[r][c] + v[r] * v[c]
  {
    var f, g := Feature(vs + [v], n, r), Feature(vs + [v], n, c);
    assert f[..|vs|] == Feature(vs, n, r) && f[|vs|] == v[r];
    assert g[..|vs|] == Feature(vs, n, c) && g[|vs|] == v[c];
  }

  /** Adding v[i] * v[j] to every entry accounts for one more observation. */
  lemma ObservationAdded(a: Mat, b: Mat, vs: seq<Row>, v: Row, n: nat)
    requires Observations(vs, n) && |v| == n + 1 && Shape(b, n) && a == Normal(vs, n)
    requires forall i, j :: 0 <= i < n && 0 <= j < n + 1 ==> b[i][j] == a[i][j] + v[i] * v[j]
    ensures Observations(vs + [v], n) && b == Normal(vs + [v], n)
  {
    assert Observations(vs + [v], n);
    var r := Normal(vs + [v], n);
    forall i | 0 <= i < n
      ensures b[i] == r[i]
    {
      forall j: nat | j < n + 1
        ensures b[i][j] == r[i][j]
      {
        NormalGrows(vs, v, n, i, j);
      }
    }
  }

  /** v . x for each observation. */
  ghost function Products(vs: seq<Row>, n: nat, x: Row): (p: seq<real>)
    requires Observations(vs, n) && |x| == n
    ensures |p| == |vs| && forall i :: 0 <= i < |vs| ==> p[i] == Dot(vs[i], x, 0, n)
  {
    seq(|vs|, i requires 0 <= i < |vs| => Dot(vs[i], x, 0, n))
  }

  /** By how much each observation misses its right-hand side. */
  ghost function Misses(vs: seq<Row>, n: nat, x: Row): (e: seq<real>)
    requires Observations(vs, n) && |x| == n
    ensures |e| == |vs| && forall i :: 0 <= i < |vs| ==> e[i] == Dot(vs[i], x, 0, n) - vs[i][n]
  {
    seq(|vs|, i requires 0 <= i < |vs| => Dot(vs[i], x, 0, n) - vs[i][n])
  }

  ghost function SquaredError(vs: seq<Row>, n: nat, x: Row): real
    requires Observations(vs, n) && |x| == n
  {
    SumOfProducts(Misses(vs, n, x), Misses(vs, n, x))
  }

  /** The sum of e[i] times row i. */
  ghost function Combination(vs: seq<Row>, n: nat, e: seq<real>): (g: Row)
    requires Observations(vs, n) && |e| == |vs|
    ensures |g| == n + 1
    decreases |vs|
  {
    if vs == [] then seq(n + 1, _ => 0.0)
    else RowAdd(Combination(vs[..|vs| - 1], n, e[..|e| - 1]), e[|e| - 1], vs[|vs| - 1])
  }

  lemma {:induction false} CombinationDot(vs: seq<Row>, n: nat, e: seq<real>, x: Row)
    requires Observations(vs, n) && |e| == |vs| && |x| == n
    ensures Dot(Combination(vs, n, e), x, 0, n) == SumOfProducts(e, Products(vs, n, x))
    decreases |vs|
  {
    if vs == [] {
      DotSkipsZeros(Combination(vs, n, e), x, 0, n, n);
    } else {
      var k := |vs| - 1;
      CombinationDot(vs[..k], n, e[..k], x);
      assert Products(vs, n, x)[..k] == Products(vs[..k], n, x);
      DotRowAdd(Combination(vs[..k], n, e[..k]), e[k], vs[k], x, 0, n);
    }
  }

  lemma {:induction false} CombinationAt(vs: seq<Row>, n: nat, e: seq<real>, c: nat)
    requires Observations(vs, n) && |e| == |vs| && c <= n
    ensures Combination(vs, n, e)[c] == SumOfProducts(e, Feature(vs, n, c))
    decreases |vs|
  {
    if vs != [] {
      var k := |vs| - 1;
      CombinationAt(vs[..k], n, e[..k], c);
      assert Feature(vs, n, c)[..k] == Feature(vs[..k], n, c);
    }
  }

  /** Row r of the normal equations is the combination of the rows weighted by feature r. */
  lemma NormalIsCombination(vs: seq<Row>, n: nat, r: nat)
    requires Observations(vs, n) && r < n
    ensures Normal(vs, n)[r] == Combination(vs, n, Feature(vs, n, r))
  {
    forall c: nat | c <= n
      ensures Normal(vs, n)[r][c] == Combination(vs, n, Feature(vs, n, r))[c]
    {
      CombinationAt(vs, n, Feature(vs, n, r), c);
    }
  }

  lemma {:induction false} SumOfDifferences(u: seq<real>, a: seq<real>, b: seq<real>)
    requires |u| == |a| == |b|
    ensures SumOfProducts(u, Minus(a, b)) == SumOfProducts(u, a) - SumOfProducts(u, b)
    decreases |u|
  {
    if u != [] {
      var n := |u| - 1;
      assert Minus(a, b)[..n] == Minus(a[..n], b[..n]);
      SumOfDifferences(u[..n], a[..n], b[..n]);
      assert u[n] * (a[n] - b[n]) == u[n] * a[n] - u[n] * b[n];
    }
  }

  lemma {:induction false} SumCommutes(u: seq<real>, v: seq<real>)
    requires |u| == |v|
    ensures SumOfProducts(u, v) == SumOfProducts(v, u)
    decreases |u|
  {
    if u != [] {
      SumCommutes(u[..|u| - 1], v[..|v| - 1]);
    }
  }

  /** How far x misses row r of the normal equations. */
  lemma NormalRow(vs: seq<Row>, n: nat, x: Row, r: nat)
    requires Observations(vs, n) && |x| == n && r < n
    ensures Dot(Normal(vs, n)[r], x, 0, n) - Normal(vs, n)[r][n]
         == SumOfProducts(Feature(vs, n, r), Misses(vs, n, x))
  {
    var f := Feature(vs, n, r);
    NormalIsCombination(vs, n, r);
    CombinationDot(vs, n, f, x);
    assert Misses(vs, n, x) == Minus(Products(vs, n, x), Feature(vs, n, n));
    SumOfDifferences(f, Products(vs, n, x), Feature(vs, n, n));
  }

  /** The misses of a solution are orthogonal to every direction of change. */
  lemma SolutionIsOrthogonal(vs: seq<Row>, n: nat, x: Row, d: Row)
    requires Observations(vs, n) && |x| == |d| == n && Solves(Normal(vs, n), x)
    ensures SumOfProducts(Products(vs, n, d), Misses(vs, n, x)) == 0.0
  {
    var e := Misses(vs, n, x);
    var g := Combination(vs, n, e);
    forall r: nat | r < n
      ensures g[r] == 0.0
    {
      CombinationAt(vs, n, e, r);
      SumCommutes(e, Feature(vs, n, r));
      NormalRow(vs, n, x, r);
      assert Satisfies(Normal(vs, n)[r], x);
    }
    DotSkipsZeros(g, d, 0, n, n);
    CombinationDot(vs, n, e, d);
    SumCommutes(e, Products(vs, n, d));
  }

  lemma MissesMove(vs: seq<Row>, n: nat, x: Row, d: Row)
    requires Observations(vs, n) && |x| == |d| == n
    ensures Misses(vs, n, Plus(x, d)) == Plus(Misses(vs, n, x), Products(vs, n, d))
  {
    var e, l := Misses(vs, n, x), Products(vs, n, d);
    forall i | 0 <= i < |vs|
      ensures Misses(vs, n, Plus(x, d))[i] == Plus(e, l)[i]
    {
      DotPlus(vs[i], x, d, 0, n);
    }
  }

  /** Moving from a solution by d adds the spread of d to the error. */
  lemma ErrorExpansion(vs: seq<Row>, n: nat, x: Row, d: Row)
    requires Observations(vs, n) && |x| == |d| == n && Solves(Normal(vs, n), x)
    ensures SquaredError(vs, n, Plus(x, d))
         == SquaredError(vs, n, x) + SumOfProducts(Products(vs, n, d), Products(vs, n, d))
  {
    ErrorMoves(vs, n, x, d);
    SolutionIsOrthogonal(vs, n, x, d);
  }

  /** A direction without spread leads to another solution. */
  lemma NoSpreadKeepsSolution(vs: seq<Row>, n: nat, x: Row, d: Row)
    requires Observations(vs, n) && |x| == |d| == n && Solves(Normal(vs, n), x)
    requires SumOfProducts(Products(vs, n, d), Products(vs, n, d)) == 0.0
    ensures Solves(Normal(vs, n), Plus(x, d))
  {
    SumOfSquares(Products(vs, n, d));
    forall r: nat | r < n
      ensures Satisfies(Normal(vs, n)[r], Plus(x, d))
    {
      var f := Feature(vs, n, r);
      NormalIsCombination(vs, n, r);
      CombinationDot(vs, n, f, d);
      SumWithZeros(f, Products(vs, n, d));
      DotPlus(Normal(vs, n)[r], x, d, 0, n);
      assert Satisfies(Normal(vs, n)[r], x);
    }
  }

  lemma {:induction false} SumWithZeros(u: seq<real>, z: seq<real>)
    requires |u| == |z| && forall i :: 0 <= i < |z| ==> z[i] == 0.0
    ensures SumOfProducts(u, z) == 0.0
    decreases |u|
  {
    if u != [] {
      SumWithZeros(u[..|u| - 1], z[..|z| - 1]);
    }
  }

  /** The only solution of the normal equations has a smaller error than every other vector. */
  lemma OnlySolutionMinimises(vs: seq<Row>, n: nat, x: Row, y: Row)
    requires Observations(vs, n) && |x| == |y| == n
    requires OnlySolution(Normal(vs, n), n, x) && y != x
    ensures SquaredError(vs, n, x) < SquaredError(vs, n, y)
  {
    var d := Minus(y, x);
    assert Plus(x, d) == y;
    ErrorExpansion(vs, n, x, d);
    SumOfSquares(Products(vs, n, d));
    if SumOfProducts(Products(vs, n, d), Products(vs, n, d)) == 0.0 {
      NoSpreadKeepsSolution(vs, n, x, d);
    }
  }

  // ----- a strict minimum solves the normal equations -----

  /** x has a smaller error than every other vector. */
  ghost predicate StrictMinimum(vs: seq<Row>, n: nat, x: Row)
    requires Observations(vs, n) && |x| == n
  {
    forall y: Row :: |y| == n && y != x ==> SquaredError(vs, n, x) < SquaredError(vs, n, y)
  }

  /** t in place r and zero elsewhere. */
  function Along(n: nat, r: nat, t: real): (d: Row)
    requires r < n
    ensures |d| == n && forall j :: 0 <= j < n ==> d[j] == if j == r then t else 0.0
  {
    seq(n, j => if j == r then t else 0.0)
  }

  lemma DotAlong(u: Row, n: nat, r: nat, t: real, a: real, p: real)
    requires r < n <= |u| && u[r] == a && p == a * t
    ensures Dot(u, Along(n, r, t), 0, n) == p
  {
    DotSkips(u, Along(n, r, t), 0, r, n);
    DotOfZeros(u, Along(n, r, t), r + 1, n);
  }

  lemma {:induction false} DotSkips(u: Row, x: Row, lo: nat, mid: nat, hi: nat)
    requires lo <= mid <= hi <= |u| && hi <= |x|
    requires forall j :: lo <= j < mid ==> x[j] == 0.0
    ensures Dot(u, x, lo, hi) == Dot(u, x, mid, hi)
    decreases mid - lo
  {
    if lo < mid {
      DotSkips(u, x, lo + 1, mid, hi);
    }
  }

  /** Weighted by e, moving along feature r by t counts t times the weighted feature. */
  lemma WeightAlong(vs: seq<Row>, n: nat, e: seq<real>, r: nat, t: real, a: real, p: real)
    requires Observations(vs, n) && |e| == |vs| && r < n
    requires a == SumOfProducts(e, Feature(vs, n, r)) && p == a * t
    ensures SumOfProducts(Products(vs, n, Along(n, r, t)), e) == p
  {
    CombinationAt(vs, n, e, r);
    DotAlong(Combination(vs, n, e), n, r, t, a, p);
    CombinationDot(vs, n, e, Along(n, r, t));
    SumCommutes(Products(vs, n, Along(n, r, t)), e);
  }

  /** The error is a parabola along feature r. */
  lemma ErrorAlong(vs: seq<Row>, n: nat, x: Row, r: nat, t: real,
                   g: real, s: real, p: real, w: real, q: real)
    requires Observations(vs, n) && |x| == n && r < n
    requires g == SumOfProducts(Misses(vs, n, x), Feature(vs, n, r))
    requires s == SumOfProducts(Feature(vs, n, r), Feature(vs, n, r))
    requires p == g * t && w == s * t && q == w * t
    ensures SquaredError(vs, n, Plus(x, Along(n, r, t))) == SquaredError(vs, n, x) + 2.0 * p + q
  {
    var d := Along(n, r, t);
    WeightAlong(vs, n, Misses(vs, n, x), r, t, g, p);
    WeightAlong(vs, n, Feature(vs, n, r), r, t, s, w);
    SumCommutes(Products(vs, n, d), Feature(vs, n, r));
    WeightAlong(vs, n, Products(vs, n, d), r, t, w, q);
    ErrorMoves(vs, n, x, d);
  }

  lemma ErrorMoves(vs: seq<Row>, n: nat, x: Row, d: Row)
    requires Observations(vs, n) && |x| == |d| == n
    ensures SquaredError(vs, n, Plus(x, d))
         == SquaredError(vs, n, x) + 2.0 * SumOfProducts(Products(vs, n, d), Misses(vs, n, x))
            + SumOfProducts(Products(vs, n, d), Products(vs, n, d))
  {
    MissesMove(vs, n, x, d);
    SquaresOfSums(Misses(vs, n, x), Products(vs, n, d));
  }

  /** A parabola with slope 2 g at zero has a lower point. */
  lemma Descent(g: real, s: real) returns (t: real, p: real, w: real, q: real)
    requires g != 0.0 && s > 0.0
    ensures t != 0.0 && p == g * t && w == s * t && q == w * t && 2.0 * p + q < 0.0
  {
    t := -g / s;
    p, w := g * t, s * t;
    q := w * t;
    assert w == -g;
    var square := SquarePositive(g);
    assert p * s == -square;
  }

  lemma StrictMinimumSatisfies(vs: seq<Row>, n: nat, x: Row, r: nat)
    requires Observations(vs, n) && |x| == n && r < n && StrictMinimum(vs, n, x)
    ensures Satisfies(Normal(vs, n)[r], x)
  {
    var f, e := Feature(vs, n, r), Misses(vs, n, x);
    NormalRow(vs, n, x, r);
    SumOfSquares(f);
    SumCommutes(f, e);
    if SumOfProducts(f, f) == 0.0 {
      SumWithZeros(e, f);
    } else if SumOfProducts(e, f) != 0.0 {
      var y := LowerPoint(vs, n, x, r);
    }
  }

  /** A point with a smaller error, when the error has a slope along feature r. */
  lemma LowerPoint(vs: seq<Row>, n: nat, x: Row, r: nat) returns (y: Row)
    requires Observations(vs, n) && |x| == n && r < n
    requires SumOfProducts(Misses(vs, n, x), Feature(vs, n, r)) != 0.0
    requires SumOfProducts(Feature(vs, n, r), Feature(vs, n, r)) > 0.0
    ensures |y| == n && y != x && SquaredError(vs, n, y) < SquaredError(vs, n, x)
  {
    var f, e := Feature(vs, n, r), Misses(vs, n, x);
    var g, s := SumOfProducts(e, f), SumOfProducts(f, f);
    var t, p, w, q := Descent(g, s);
    y := Plus(x, Along(n, r, t));
    assert y[r] != x[r];
    ErrorAlong(vs, n, x, r, t, g, s, p, w, q);
  }

  /** The converse of OnlySolutionMinimises. */
  lemma StrictMinimumIsOnlySolution(vs: seq<Row>, n: nat, x: Row)
    requires Observations(vs, n) && |x| == n && StrictMinimum(vs, n, x)
    ensures OnlySolution(Normal(vs, n), n, x)
  {
    forall r: nat | r < n
      ensures Satisfies(Normal(vs, n)[r], x)
    {
      StrictMinimumSatisfies(vs, n, x, r);
    }
    forall y: Row | |y| == n && Solves(Normal(vs, n), y)
      ensures y == x
    {
      var d := Minus(x, y);
      assert Plus(y, d) == x;
      ErrorExpansion(vs, n, y, d);
      SumOfSquares(Products(vs, n, d));
    }
  }
}
