/** The calibration context of tests/ellip.c, over exact real arithmetic. */
module Ellipsoid {
  import opened Arith
  import opened LinearSystem
  import opened LeastSquares

  datatype Point = Point(x: real, y: real, z: real)

  datatype Status = Succeed | Ready | Failed

  /** The unknowns a, b, c, d, e, f of the fitted quadric. */
  const UNKNOWNS := 6

  /** The vector V of a point: six features and the right-hand side. */
  function Features(p: Point): (v: Row)
    ensures |v| == UNKNOWNS + 1
  {
    [p.y * p.y, p.z * p.z, p.x, p.y, p.z, 1.0, -p.x * p.x]
  }

  function Data(pts: seq<Point>): (vs: seq<Row>)
    ensures |vs| == |pts| && forall i :: 0 <= i < |pts| ==> vs[i] == Features(pts[i])
    ensures forall i :: 0 <= i < |vs| ==> |vs[i]| == UNKNOWNS + 1
  {
    seq(|pts|, i requires 0 <= i < |pts| => Features(pts[i]))
  }

  /** a y^2 + b z^2 + c x + d y + e z + f + x^2: by how much a point misses the quadric. */
  function Miss(s: Row, p: Point): real
    requires |s| == UNKNOWNS
  {
    s[0] * (p.y * p.y) + s[1] * (p.z * p.z) + s[2] * p.x + s[3] * p.y + s[4] * p.z + s[5] + p.x * p.x
  }

  function TotalError(s: Row, pts: seq<Point>): real
    requires |s| == UNKNOWNS
  {
    var e := seq(|pts|, i requires 0 <= i < |pts| => Miss(s, pts[i]));
    SumOfProducts(e, e)
  }

  /** s is the coefficient vector with the smallest sum of squared misses, and the only one. */
  ghost predicate BestFit(s: Row, pts: seq<Point>)
    requires |s| == UNKNOWNS
  {
    forall t: Row :: |t| == UNKNOWNS && t != s ==> TotalError(s, pts) < TotalError(t, pts)
  }

  lemma MissIsDot(s: Row, p: Point)
    requires |s| == UNKNOWNS
    ensures Miss(s, p) == Dot(Features(p), s, 0, UNKNOWNS) - Features(p)[UNKNOWNS]
  {
  }

  lemma ErrorsAgree(s: Row, pts: seq<Point>)
    requires |s| == UNKNOWNS
    ensures TotalError(s, pts) == SquaredError(Data(pts), UNKNOWNS, s)
  {
    var e := seq(|pts|, i requires 0 <= i < |pts| => Miss(s, pts[i]));
    forall i | 0 <= i < |pts|
      ensures e[i] == Misses(Data(pts), UNKNOWNS, s)[i]
    {
      MissIsDot(s, pts[i]);
    }
    assert e == Misses(Data(pts), UNKNOWNS, s);
  }

  lemma OnlySolutionIsBestFit(s: Row, pts: seq<Point>)
    requires |s| == UNKNOWNS && OnlySolution(Normal(Data(pts), UNKNOWNS), UNKNOWNS, s)
    ensures BestFit(s, pts)
  {
    forall t: Row | |t| == UNKNOWNS && t != s
      ensures TotalError(s, pts) < TotalError(t, pts)
    {
      ErrorsAgree(s, pts);
      ErrorsAgree(t, pts);
      OnlySolutionMinimises(Data(pts), UNKNOWNS, s, t);
    }
  }

  ghost predicate HasBestFit(pts: seq<Point>)
  {
    exists s: Row :: |s| == UNKNOWNS && BestFit(s, pts)
  }

  lemma BestFitIsOnlySolution(s: Row, pts: seq<Point>)
    requires |s| == UNKNOWNS && BestFit(s, pts)
    ensures OnlySolution(Normal(Data(pts), UNKNOWNS), UNKNOWNS, s)
  {
    forall t: Row | |t| == UNKNOWNS && t != s
      ensures SquaredError(Data(pts), UNKNOWNS, s) < SquaredError(Data(pts), UNKNOWNS, t)
    {
      ErrorsAgree(s, pts);
      ErrorsAgree(t, pts);
    }
    StrictMinimumIsOnlySolution(Data(pts), UNKNOWNS, s);
  }

  /** The normal equations have one solution exactly when there is a best fit. */
  lemma HasBestFitIff(pts: seq<Point>)
    ensures HasBestFit(pts) <==> HasOnlySolution(Normal(Data(pts), UNKNOWNS), UNKNOWNS)
  {
    var m := Normal(Data(pts), UNKNOWNS);
    if HasBestFit(pts) {
      var s: Row :| |s| == UNKNOWNS && BestFit(s, pts);
      BestFitIsOnlySolution(s, pts);
    }
    if HasOnlySolution(m, UNKNOWNS) {
      var s: Row :| |s| == UNKNOWNS && OnlySolution(m, UNKNOWNS, s);
      OnlySolutionIsBestFit(s, pts);
    }
  }

  /** The points have a best fit, and no pass over their normal equations drops a pivot. */
  ghost predicate Accepted(pts: seq<Point>)
  {
    HasBestFit(pts) && !LosesPivot(Normal(Data(pts), UNKNOWNS), UNKNOWNS, 0)
  }

  lemma AcceptedPoints(pts: seq<Point>, n: real)
    requires n > 0.0
    ensures EliminateFrom(MACRO_RULE, ScaleAll(1.0 / n, Normal(Data(pts), UNKNOWNS)), UNKNOWNS, 0).Reduced? <==>
            Accepted(pts)
  {
    AcceptedInAnyUnit(1.0 / n, Normal(Data(pts), UNKNOWNS), UNKNOWNS);
    HasBestFitIff(pts);
  }

  lemma AveragedBestFit(s: Row, pts: seq<Point>, n: real)
    requires |s| == UNKNOWNS && n > 0.0
    requires OnlySolution(ScaleAll(1.0 / n, Normal(Data(pts), UNKNOWNS)), UNKNOWNS, s)
    ensures BestFit(s, pts)
  {
    var m, f := Normal(Data(pts), UNKNOWNS), 1.0 / n;
    ScaleAllKeepsSolutions(f, m, UNKNOWNS);
    OnlySolutionTransfers(m, ScaleAll(f, m), UNKNOWNS, s);
    OnlySolutionIsBestFit(s, pts);
  }

  // ----- perfect points that the program rejects -----

  /** The points where the axes through the centre (c, 0, 0) meet a sphere of radius r. */
  function Poles(c: real, r: real): (pts: seq<Point>)
    ensures |pts| == 6
  {
    [Point(c, r, 0.0), Point(c, -r, 0.0), Point(c, 0.0, r), Point(c, 0.0, -r),
     Point(c + r, 0.0, 0.0), Point(c - r, 0.0, 0.0)]
  }

  /** The quadric of that sphere. */
  function SphereFit(c: real, r: real): (s: Row)
    ensures |s| == UNKNOWNS
  {
    [1.0, 1.0, -2.0 * c, 0.0, 0.0, c * c - r * r]
  }

  lemma SphereMisses(c: real, r: real)
    ensures forall i :: 0 <= i < 6 ==> Miss(SphereFit(c, r), Poles(c, r)[i]) == 0.0
  {
    var s, p := SphereFit(c, r), Poles(c, r);
    assert (c + r) * (c + r) == c * c + 2.0 * (c * r) + r * r;
    assert (c - r) * (c - r) == c * c - 2.0 * (c * r) + r * r;
    assert -2.0 * c * (c + r) == -2.0 * (c * c) - 2.0 * (c * r);
    assert -2.0 * c * (c - r) == -2.0 * (c * c) + 2.0 * (c * r);
    assert (-r) * (-r) == r * r;
    assert Miss(s, p[0]) == 0.0 && Miss(s, p[1]) == 0.0 && Miss(s, p[2]) == 0.0;
    assert Miss(s, p[3]) == 0.0 && Miss(s, p[4]) == 0.0 && Miss(s, p[5]) == 0.0;
  }

  lemma Cancel(r: real, a: real)
    requires r > 0.0 && a * r == 0.0
    ensures a == 0.0
  {
  }

  lemma SphereOnly(c: real, r: real, t: Row)
    requires r > 0.0 && |t| == UNKNOWNS
    requires forall i :: 0 <= i < 6 ==> Miss(t, Poles(c, r)[i]) == 0.0
    ensures t == SphereFit(c, r)
  {
    var p := Poles(c, r);
    assert (c + r) * (c + r) == c * c + 2.0 * (c * r) + r * r;
    assert (c - r) * (c - r) == c * c - 2.0 * (c * r) + r * r;
    assert t[2] * (c + r) == t[2] * c + t[2] * r;
    assert t[2] * (c - r) == t[2] * c - t[2] * r;
    assert Miss(t, p[4]) == 0.0 && Miss(t, p[5]) == 0.0;
    assert (t[2] + 2.0 * c) * r == 0.0;
    Cancel(r, t[2] + 2.0 * c);
    assert Miss(t, p[0]) == 0.0 && Miss(t, p[1]) == 0.0 && Miss(t, p[2]) == 0.0 && Miss(t, p[3]) == 0.0;
    assert (-r) * (-r) == r * r;
    assert t[3] * (-r) == -(t[3] * r) && t[4] * (-r) == -(t[4] * r);
    Cancel(r, t[3]);
    Cancel(r, t[4]);
    assert t[2] * c == -2.0 * (c * c);
    assert t[5] == c * c - r * r;
    var q := PositiveProduct(r, r);
    assert (t[0] - 1.0) * q == 0.0 && (t[1] - 1.0) * q == 0.0;
    Cancel(q, t[0] - 1.0);
    Cancel(q, t[1] - 1.0);
    var s := SphereFit(c, r);
    assert t[0] == s[0] && t[1] == s[1] && t[2] == s[2] && t[3] == s[3] && t[4] == s[4] && t[5] == s[5];
    assert forall i :: 0 <= i < UNKNOWNS ==> t[i] == s[i];
  }

  /** The sphere is the best fit of its poles, without any error. */
  lemma SphereIsBestFit(c: real, r: real)
    requires r > 0.0
    ensures BestFit(SphereFit(c, r), Poles(c, r))
  {
    var s, pts := SphereFit(c, r), Poles(c, r);
    SphereMisses(c, r);
    var e := seq(|pts|, i requires 0 <= i < |pts| => Miss(s, pts[i]));
    SumWithZeros(e, e);
    forall t: Row | |t| == UNKNOWNS && t != s
      ensures TotalError(s, pts) < TotalError(t, pts)
    {
      var l := seq(|pts|, i requires 0 <= i < |pts| => Miss(t, pts[i]));
      SumOfSquares(l);
      if SumOfProducts(l, l) == 0.0 {
        assert forall i :: 0 <= i < 6 ==> l[i] == Miss(t, pts[i]);
        SphereOnly(c, r, t);
      }
    }
  }

  /** The first two columns of the normal equations of the poles. */
  ghost predicate PoleColumns(m: Mat, h: real, g: real, k: real)
  {
    && Shape(m, UNKNOWNS)
    && m[0][0] == h && m[1][0] == 0.0 && m[2][0] == g && m[3][0] == 0.0 && m[4][0] == 0.0 && m[5][0] == k
    && m[0][1] == 0.0 && m[1][1] == h && m[2][1] == g && m[3][1] == 0.0 && m[4][1] == 0.0 && m[5][1] == k
  }

  lemma SumOfSix(u: seq<real>, v: seq<real>)
    requires |u| == |v| == 6
    ensures SumOfProducts(u, v) == u[0] * v[0] + u[1] * v[1] + u[2] * v[2] + u[3] * v[3] + u[4] * v[4] + u[5] * v[5]
  {
    assert u[..5][..4] == u[..4] && u[..4][..3] == u[..3] && u[..3][..2] == u[..2] && u[..2][..1] == u[..1];
    assert v[..5][..4] == v[..4] && v[..4][..3] == v[..3] && v[..3][..2] == v[..2] && v[..2][..1] == v[..1];
    assert u[..1][..0] == [] && v[..1][..0] == [];
    assert SumOfProducts(u[..1], v[..1]) == u[0] * v[0];
    assert SumOfProducts(u[..2], v[..2]) == u[0] * v[0] + u[1] * v[1];
    assert SumOfProducts(u[..3], v[..3]) == u[0] * v[0] + u[1] * v[1] + u[2] * v[2];
    assert SumOfProducts(u[..4], v[..4]) == u[0] * v[0] + u[1] * v[1] + u[2] * v[2] + u[3] * v[3];
  }

  /** Feature i over the six poles, where q is the square of the radius. */
  function PoleFeature(c: real, r: real, q: real, i: nat): (f: seq<real>)
    requires i < UNKNOWNS
    ensures |f| == 6
  {
    match i
    case 0 => [q, q, 0.0, 0.0, 0.0, 0.0]
    case 1 => [0.0, 0.0, q, q, 0.0, 0.0]
    case 2 => [c, c, c, c, c + r, c - r]
    case 3 => [r, -r, 0.0, 0.0, 0.0, 0.0]
    case 4 => [0.0, 0.0, r, -r, 0.0, 0.0]
    case _ => [1.0, 1.0, 1.0, 1.0, 1.0, 1.0]
  }

  lemma PoleFeatures(c: real, r: real, q: real, i: nat)
    requires q == r * r && i < UNKNOWNS
    ensures Feature(Data(Poles(c, r)), UNKNOWNS, i) == PoleFeature(c, r, q, i)
  {
    assert (-r) * (-r) == q;
    var f, g := Feature(Data(Poles(c, r)), UNKNOWNS, i), PoleFeature(c, r, q, i);
    assert f[0] == g[0] && f[1] == g[1] && f[2] == g[2] && f[3] == g[3] && f[4] == g[4] && f[5] == g[5];
  }

  lemma SumOverPairs(f: seq<real>, q: real)
    requires |f| == 6
    ensures SumOfProducts(f, [q, q, 0.0, 0.0, 0.0, 0.0]) == f[0] * q + f[1] * q
    ensures SumOfProducts(f, [0.0, 0.0, q, q, 0.0, 0.0]) == f[2] * q + f[3] * q
  {
    SumOfSix(f, [q, q, 0.0, 0.0, 0.0, 0.0]);
    SumOfSix(f, [0.0, 0.0, q, q, 0.0, 0.0]);
  }

  /** The first two columns weigh each feature by q over the first or the second pair of poles. */
  lemma PairedEntries(vs: seq<Row>, f: seq<real>, q: real, i: nat)
    requires Observations(vs, UNKNOWNS) && |vs| == 6 && i < UNKNOWNS && Feature(vs, UNKNOWNS, i) == f
    requires Feature(vs, UNKNOWNS, 0) == [q, q, 0.0, 0.0, 0.0, 0.0]
    requires Feature(vs, UNKNOWNS, 1) == [0.0, 0.0, q, q, 0.0, 0.0]
    ensures Normal(vs, UNKNOWNS)[i][0] == f[0] * q + f[1] * q
    ensures Normal(vs, UNKNOWNS)[i][1] == f[2] * q + f[3] * q
  {
    SumOverPairs(f, q);
  }

  lemma PolesRow(c: real, r: real, q: real, i: nat, f: seq<real>, a: real, b: real)
    requires q == r * r && i < UNKNOWNS && f == PoleFeature(c, r, q, i)
    requires a == f[0] * q + f[1] * q && b == f[2] * q + f[3] * q
    ensures Normal(Data(Poles(c, r)), UNKNOWNS)[i][0] == a
    ensures Normal(Data(Poles(c, r)), UNKNOWNS)[i][1] == b
  {
    PoleFeatures(c, r, q, 0);
    PoleFeatures(c, r, q, 1);
    PoleFeatures(c, r, q, i);
    PairedEntries(Data(Poles(c, r)), f, q, i);
  }

  lemma PolesNormal(c: real, r: real, q: real, h: real, g: real)
    requires q == r * r && h == q * q && g == c * q
    ensures PoleColumns(Normal(Data(Poles(c, r)), UNKNOWNS), 2.0 * h, 2.0 * g, 2.0 * q)
  {
    PolesRow(c, r, q, 0, [q, q, 0.0, 0.0, 0.0, 0.0], 2.0 * h, 0.0);
    PolesRow(c, r, q, 1, [0.0, 0.0, q, q, 0.0, 0.0], 0.0, 2.0 * h);
    PolesRow(c, r, q, 2, [c, c, c, c, c + r, c - r], 2.0 * g, 2.0 * g);
    Opposite(r, q);
    PolesRow(c, r, q, 3, [r, -r, 0.0, 0.0, 0.0, 0.0], 0.0, 0.0);
    PolesRow(c, r, q, 4, [0.0, 0.0, r, -r, 0.0, 0.0], 0.0, 0.0);
    PolesRow(c, r, q, 5, [1.0, 1.0, 1.0, 1.0, 1.0, 1.0], 2.0 * q, 2.0 * q);
  }

  lemma Opposite(r: real, q: real)
    ensures r * q + (-r) * q == 0.0
  {
  }

  /** Where the pass for column 0 puts the rows. */
  lemma PolesSorted(m: Mat, h: real, g: real, k: real)
    requires PoleColumns(m, h, g, k) && h > 0.0 && g != 0.0 && k > 0.0
    ensures SortFrom(MACRO_RULE, m, 0, 1)
         == if g > 0.0 then [m[5], m[1], m[0], m[3], m[4], m[2]] else [m[5], m[1], m[0], m[2], m[4], m[3]]
  {
    SortStep(m, UNKNOWNS, 0, 1);
    SortStep(m, UNKNOWNS, 0, 2);
    var a := SwapRows(m, 0, 2);
    SortStep(a, UNKNOWNS, 0, 3);
    LastPolesSorted(if g > 0.0 then a else SwapRows(a, 0, 3), k);
  }

  /** The rest of that pass: row 4 does not move, row 5 becomes the pivot row. */
  lemma LastPolesSorted(b: Mat, k: real)
    requires Shape(b, UNKNOWNS) && b[0][0] >= 0.0 && b[4][0] == 0.0 && b[5][0] == k && k > 0.0
    ensures SortFrom(MACRO_RULE, b, 0, 4) == SwapRows(b, 0, 5)
  {
    SortStep(b, UNKNOWNS, 0, 4);
    SortStep(b, UNKNOWNS, 0, 5);
  }

  /** Behind the first column the last non-zero entry is -h, above the last row. */
  lemma PolesLosePivot(m: Mat, h: real, g: real, k: real)
    requires PoleColumns(m, h, g, k) && h > 0.0 && g != 0.0 && k > 0.0
    ensures LosesPivot(m, UNKNOWNS, 0)
  {
    PolesSorted(m, h, g, k);
    var s := Sorted(m, UNKNOWNS, 0);
    var next := NextSystem(m, UNKNOWNS, 0);
    assert next[2][1] == -h by { ClearedEntry(s, UNKNOWNS, 0, 2, 1); }
    assert next[3][1] == 0.0 by { ClearedEntry(s, UNKNOWNS, 0, 3, 1); }
    assert next[4][1] == 0.0 by { ClearedEntry(s, UNKNOWNS, 0, 4, 1); }
    assert next[5][1] == 0.0 by { ClearedEntry(s, UNKNOWNS, 0, 5, 1); }
    assert LastNonZero(Column(next, UNKNOWNS, 1, 1), 1);
  }

  /**
  The poles of every sphere with its centre on the x axis, but not at the origin, are
  rejected, although the sphere itself is their best fit and misses none of them.
  */
  lemma PolesAreRejected(c: real, r: real)
    requires r > 0.0 && c != 0.0
    ensures BestFit(SphereFit(c, r), Poles(c, r)) && !Accepted(Poles(c, r))
    ensures forall i :: 0 <= i < 6 ==> Miss(SphereFit(c, r), Poles(c, r)[i]) == 0.0
  {
    SphereIsBestFit(c, r);
    SphereMisses(c, r);
    PolesNotAccepted(c, r);
  }

  lemma PolesNotAccepted(c: real, r: real)
    requires r > 0.0 && c != 0.0
    ensures !Accepted(Poles(c, r))
  {
    var q := PositiveProduct(r, r);
    var h := PositiveProduct(q, q);
    var g := ProductNonZero(c, q);
    PolesNormal(c, r, q, h, g);
    PolesLosePivot(Normal(Data(Poles(c, r)), UNKNOWNS), 2.0 * h, 2.0 * g, 2.0 * q);
  }

  lemma ProductNonZero(a: real, b: real) returns (p: real)
    requires a != 0.0 && b > 0.0
    ensures p == a * b && p != 0.0
  {
    p := a * b;
  }

  // ----- accumulation and averaging -----

  lemma DataGrows(pts: seq<Point>, p: Point)
    ensures Data(pts + [p]) == Data(pts) + [Features(p)]
  {
  }

  lemma DivideIsScale(v: real, n: real)
    requires n != 0.0
    ensures v / n == v * (1.0 / n)
  {
  }

  // ----- the ellipsoid behind the coefficients -----

  ghost predicate IsSqrt(sqrt: real -> real)
  {
    forall v :: v >= 0.0 ==> sqrt(v) >= 0.0 && sqrt(v) * sqrt(v) == v
  }

  /** The reported centre and semi-axes, unless one of them is not a finite number. */
  datatype Shape3 = Axes(x0: real, y0: real, z0: real, a: real, b: real, c: real) | NotFinite

  lemma RootPositive(sqrt: real -> real, v: real)
    requires IsSqrt(sqrt) && v > 0.0
    ensures sqrt(v) > 0.0
  {
  }

  /** The square of the first semi-axis. */
  function Radicand(s: Row, x0: real, y0: real, z0: real): real
    requires |s| == UNKNOWNS
  {
    x0 * x0 + s[0] * y0 * y0 + s[1] * z0 * z0 - s[5]
  }

  function Derive(s: Row, sqrt: real -> real): Shape3
    requires |s| == UNKNOWNS && IsSqrt(sqrt)
  {
    if s[0] <= 0.0 || s[1] <= 0.0 then NotFinite
    else
      var x0 := -s[2] / 2.0;
      var y0 := -s[3] / (2.0 * s[0]);
      var z0 := -s[4] / (2.0 * s[1]);
      var q := Radicand(s, x0, y0, z0);
      if q < 0.0 then NotFinite
      else
        RootPositive(sqrt, s[0]);
        RootPositive(sqrt, s[1]);
        var a := sqrt(q);
        Axes(x0, y0, z0, a, a / sqrt(s[0]), a / sqrt(s[1]))
  }

  /** The left side of the printed equation of the ellipsoid. */
  function Level(f: Shape3, p: Point): real
    requires f.Axes? && f.a > 0.0 && f.b > 0.0 && f.c > 0.0
  {
    var u, v, w := (p.x - f.x0) / f.a, (p.y - f.y0) / f.b, (p.z - f.z0) / f.c;
    u * u + v * v + w * w
  }

  lemma PositiveQuotient(a: real, r: real)
    requires a > 0.0 && r > 0.0
    ensures a / r > 0.0 && a / r * r == a
  {
  }

  /** A semi-axis a / r with r * r == k weighs a squared offset by k / (a * a). */
  lemma WeighedSquare(v: real, a: real, r: real, m: real, k: real) returns (t: real)
    requires a > 0.0 && r > 0.0 && m == a / r && m > 0.0 && r * r == k
    ensures t == v / m && (t * t) * (a * a) == k * (v * v)
  {
    t := v / m;
    PositiveQuotient(a, r);
    assert t * m == v;
    assert (t * t) * (a * a) == (t * m) * (t * m) * (r * r) by {
      assert a == m * r;
      assert (t * t) * ((m * r) * (m * r)) == (t * m) * (t * m) * (r * r);
    }
  }

  /** The offsets of a point from a centre, squared and weighed. */
  function Weighed(ka: real, kb: real, p: Point, x0: real, y0: real, z0: real): real
  {
    (p.x - x0) * (p.x - x0) + ka * ((p.y - y0) * (p.y - y0)) + kb * ((p.z - z0) * (p.z - z0))
  }

  lemma Completion(s: Row, p: Point, x0: real, y0: real, z0: real, q: real)
    requires |s| == UNKNOWNS
    requires s[2] == -2.0 * x0 && s[3] == -2.0 * (s[0] * y0) && s[4] == -2.0 * (s[1] * z0)
    requires q == x0 * x0 + s[0] * y0 * y0 + s[1] * z0 * z0 - s[5]
    ensures Weighed(s[0], s[1], p, x0, y0, z0) - q == Miss(s, p)
  {
  }

  lemma HalfOf(k: real, d: real, v: real)
    requires k > 0.0 && v == -d / (2.0 * k)
    ensures d == -2.0 * (k * v)
  {
    assert v * (2.0 * k) == -d;
  }

  lemma LevelTimes(u: real, v: real, w: real, a: real, q: real)
    requires a == q
    ensures (u + v + w) * q == u * a + v * a + w * a
  {
  }

  lemma UnitLevel(l: real, q: real)
    requires q > 0.0
    ensures l == 1.0 <==> l * q == q
  {
  }

  /** The level, scaled by the square of the first semi-axis. */
  lemma LevelScaled(f: Shape3, p: Point, ra: real, rb: real, ka: real, kb: real) returns (q: real)
    requires f.Axes? && f.a > 0.0 && ra > 0.0 && rb > 0.0 && ra * ra == ka && rb * rb == kb
    requires f.b == f.a / ra && f.c == f.a / rb
    ensures f.b > 0.0 && f.c > 0.0 && q == f.a * f.a && q > 0.0
    ensures Level(f, p) == 1.0 <==> Weighed(ka, kb, p, f.x0, f.y0, f.z0) == q
  {
    PositiveQuotient(f.a, ra);
    PositiveQuotient(f.a, rb);
    q := PositiveProduct(f.a, f.a);
    var u := WeighedSquare(p.x - f.x0, f.a, 1.0, f.a, 1.0);
    var v := WeighedSquare(p.y - f.y0, f.a, ra, f.b, ka);
    var w := WeighedSquare(p.z - f.z0, f.a, rb, f.c, kb);
    LevelTimes(u * u, v * v, w * w, f.a * f.a, q);
    UnitLevel(Level(f, p), q);
  }

  /** The reported ellipsoid is the zero set of the fitted quadric. */
  lemma EllipsoidIsQuadric(s: Row, sqrt: real -> real, p: Point)
    requires |s| == UNKNOWNS && IsSqrt(sqrt)
    requires Derive(s, sqrt).Axes? && Derive(s, sqrt).a > 0.0
    ensures var f := Derive(s, sqrt);
            f.b > 0.0 && f.c > 0.0 && (Level(f, p) == 1.0 <==> Miss(s, p) == 0.0)
  {
    var f := Derive(s, sqrt);
    RootPositive(sqrt, s[0]);
    RootPositive(sqrt, s[1]);
    var q := Radicand(s, f.x0, f.y0, f.z0);
    HalfOf(1.0, s[2], f.x0);
    HalfOf(s[0], s[3], f.y0);
    HalfOf(s[1], s[4], f.z0);
    Completion(s, p, f.x0, f.y0, f.z0, q);
    var r := LevelScaled(f, p, sqrt(s[0]), sqrt(s[1]), s[0], s[1]);
    assert r == q;
  }

  lemma NotNegative(k: real, v: real) returns (t: real)
    requires k > 0.0
    ensures t == k * (v * v) && t >= 0.0
  {
    t := k * (v * v);
  }

  lemma CompletedSquare(s: Row, p: Point) returns (x0: real, y0: real, z0: real, q: real)
    requires |s| == UNKNOWNS && s[0] > 0.0 && s[1] > 0.0
    ensures x0 == -s[2] / 2.0 && y0 == -s[3] / (2.0 * s[0]) && z0 == -s[4] / (2.0 * s[1])
    ensures q == Radicand(s, x0, y0, z0) && Miss(s, p) == Weighed(s[0], s[1], p, x0, y0, z0) - q
  {
    x0, y0, z0 := -s[2] / 2.0, -s[3] / (2.0 * s[0]), -s[4] / (2.0 * s[1]);
    q := Radicand(s, x0, y0, z0);
    HalfOf(1.0, s[2], x0);
    HalfOf(s[0], s[3], y0);
    HalfOf(s[1], s[4], z0);
    Completion(s, p, x0, y0, z0, q);
  }

  /** Axes are reported exactly when y^2 and z^2 have positive coefficients and the quadric has a point at all. */
  lemma FiniteIff(s: Row, sqrt: real -> real)
    requires |s| == UNKNOWNS && IsSqrt(sqrt)
    ensures Derive(s, sqrt).Axes? <==> s[0] > 0.0 && s[1] > 0.0 && exists p: Point :: Miss(s, p) == 0.0
  {
    if s[0] > 0.0 && s[1] > 0.0 {
      if p: Point :| Miss(s, p) == 0.0 {
        var x0, y0, z0, q := CompletedSquare(s, p);
        var u := NotNegative(1.0, p.x - x0);
        var v := NotNegative(s[0], p.y - y0);
        var w := NotNegative(s[1], p.z - z0);
      }
      if Derive(s, sqrt).Axes? {
        var f := Derive(s, sqrt);
        var p := Point(f.x0 + f.a, f.y0, f.z0);
        var x0, y0, z0, q := CompletedSquare(s, p);
        assert Miss(s, p) == 0.0;
      }
    }
  }

  /** With a first semi-axis of zero the quadric is the one point reported as the centre. */
  lemma PointIsQuadric(s: Row, sqrt: real -> real, p: Point)
    requires |s| == UNKNOWNS && IsSqrt(sqrt) && Derive(s, sqrt).Axes? && Derive(s, sqrt).a == 0.0
    ensures var f := Derive(s, sqrt); Miss(s, p) == 0.0 <==> p == Point(f.x0, f.y0, f.z0)
  {
    var x0, y0, z0, q := CompletedSquare(s, p);
    var u := NotNegative(1.0, p.x - x0);
    var v := NotNegative(s[0], p.y - y0);
    var w := NotNegative(s[1], p.z - z0);
    assert q == 0.0 by {
      assert sqrt(q) == 0.0 && sqrt(q) * sqrt(q) == q;
    }
    assert Miss(s, p) == u + v + w;
    var f := Derive(s, sqrt);
    assert f.x0 == x0 && f.y0 == y0 && f.z0 == z0;
    if Miss(s, p) == 0.0 {
      assert u == 0.0 && v == 0.0 && w == 0.0;
      SquareZero(1.0, p.x - x0);
      SquareZero(s[0], p.y - y0);
      SquareZero(s[1], p.z - z0);
      assert p == Point(x0, y0, z0);
    }
  }

  lemma SquareZero(k: real, v: real)
    requires k > 0.0 && k * (v * v) == 0.0
    ensures v == 0.0
  {
    var q := SquarePositive(v);
    if v != 0.0 {
      var r := PositiveProduct(k, q);
    }
  }

  // ----- exact recovery -----

  /** A quadric that misses no point is the best fit, if there is one. */
  lemma NoMissIsBestFit(s: Row, t: Row, pts: seq<Point>)
    requires |s| == |t| == UNKNOWNS && BestFit(t, pts)
    requires forall i :: 0 <= i < |pts| ==> Miss(s, pts[i]) == 0.0
    ensures t == s
  {
    var e := seq(|pts|, i requires 0 <= i < |pts| => Miss(s, pts[i]));
    var l := seq(|pts|, i requires 0 <= i < |pts| => Miss(t, pts[i]));
    SumWithZeros(e, e);
    SumOfSquares(l);
  }

  ghost predicate Proper(e: Shape3)
  {
    e.Axes? && e.a > 0.0 && e.b > 0.0 && e.c > 0.0
  }

  /** The coefficients of an ellipsoid, with the ratios of its first semi-axis to the others. */
  function QuadricOf(e: Shape3, ka: real, kb: real): (s: Row)
    requires e.Axes?
    ensures |s| == UNKNOWNS
  {
    [ka, kb, -2.0 * e.x0, -2.0 * (ka * e.y0), -2.0 * (kb * e.z0),
     e.x0 * e.x0 + ka * e.y0 * e.y0 + kb * e.z0 * e.z0 - e.a * e.a]
  }

  lemma RatioBack(a: real, b: real) returns (r: real, k: real)
    requires a > 0.0 && b > 0.0
    ensures r == a / b && r > 0.0 && k == r * r && k > 0.0 && b == a / r
  {
    PositiveQuotient(a, b);
    r := a / b;
    k := PositiveProduct(r, r);
    PositiveQuotient(a, r);
    assert (b - a / r) * r == 0.0;
    Cancel(r, b - a / r);
  }

  lemma PointOnQuadric(e: Shape3, p: Point, ra: real, rb: real, ka: real, kb: real)
    requires Proper(e) && ra > 0.0 && rb > 0.0 && ra * ra == ka && rb * rb == kb
    requires e.b == e.a / ra && e.c == e.a / rb && Level(e, p) == 1.0
    ensures Miss(QuadricOf(e, ka, kb), p) == 0.0
  {
    var q := LevelScaled(e, p, ra, rb, ka, kb);
    Completion(QuadricOf(e, ka, kb), p, e.x0, e.y0, e.z0, q);
  }

  lemma RootIs(sqrt: real -> real, v: real, r: real)
    requires IsSqrt(sqrt) && r > 0.0 && v == r * r && v > 0.0
    ensures sqrt(v) == r
  {
    var w := sqrt(v);
    RootPositive(sqrt, v);
    assert (w - r) * (w + r) == 0.0;
    Cancel(w + r, w - r);
  }

  lemma CentreBack(k: real, v: real, d: real)
    requires k > 0.0 && d == -2.0 * (k * v)
    ensures -d / (2.0 * k) == v
  {
    var w := -d / (2.0 * k);
    assert w * (2.0 * k) == v * (2.0 * k);
    assert (w - v) * (2.0 * k) == 0.0;
    Cancel(2.0 * k, w - v);
  }

  lemma DerivedBack(e: Shape3, sqrt: real -> real, ra: real, rb: real, ka: real, kb: real)
    requires Proper(e) && IsSqrt(sqrt) && ra > 0.0 && rb > 0.0
    requires ka == ra * ra && kb == rb * rb && ka > 0.0 && kb > 0.0
    requires e.b == e.a / ra && e.c == e.a / rb
    ensures Derive(QuadricOf(e, ka, kb), sqrt) == e
  {
    var s := QuadricOf(e, ka, kb);
    CentreBack(ka, e.y0, s[3]);
    CentreBack(kb, e.z0, s[4]);
    var q := PositiveProduct(e.a, e.a);
    RootIs(sqrt, q, e.a);
    RootIs(sqrt, ka, ra);
    RootIs(sqrt, kb, rb);
    RadicandBack(e, ka, kb, q);
    assert -s[2] / 2.0 == e.x0;
  }

  lemma RadicandBack(e: Shape3, ka: real, kb: real, q: real)
    requires e.Axes? && q == e.a * e.a
    ensures Radicand(QuadricOf(e, ka, kb), e.x0, e.y0, e.z0) == q
  {
  }

  /**
  When a best fit exists and all points lie on one axis-aligned ellipsoid, the centre and
  the semi-axes derived from the fit are its own.
  */
  lemma RecoversEllipsoid(t: Row, pts: seq<Point>, e: Shape3, sqrt: real -> real)
    requires |t| == UNKNOWNS && BestFit(t, pts) && Proper(e) && IsSqrt(sqrt)
    requires forall i :: 0 <= i < |pts| ==> Level(e, pts[i]) == 1.0
    ensures Derive(t, sqrt) == e
  {
    var ra, ka := RatioBack(e.a, e.b);
    var rb, kb := RatioBack(e.a, e.c);
    forall i | 0 <= i < |pts|
      ensures Miss(QuadricOf(e, ka, kb), pts[i]) == 0.0
    {
      PointOnQuadric(e, pts[i], ra, rb, ka, kb);
    }
    NoMissIsBestFit(QuadricOf(e, ka, kb), t, pts);
    DerivedBack(e, sqrt, ra, rb, ka, kb);
  }

  // ----- the context -----

  ghost function Rows(a: array2<real>): (r: Mat)
    reads a
    ensures |r| == a.Length0
    ensures forall i :: 0 <= i < a.Length0 ==> |r[i]| == a.Length1
    ensures forall i, j :: 0 <= i < a.Length0 && 0 <= j < a.Length1 ==> r[i][j] == a[i, j]
  {
    seq(a.Length0, i requires 0 <= i < a.Length0 reads a =>
      seq(a.Length1, j requires 0 <= j < a.Length1 reads a => a[i, j]))
  }

  lemma SubtractTerm(u: Row, x: Row, c: nat, n: nat, start: real, sum: real, coefficient: real, known: real)
    requires c < n == |x| && |u| == n + 1 && coefficient == u[c] && known == x[c]
    requires sum == start - Dot(u, x, c + 1, n)
    ensures sum - coefficient * known == start - Dot(u, x, c, n)
  {
  }

  lemma CountWraps(k: nat)
    ensures (k % WRAP + 1) % WRAP == (k + 1) % WRAP
  {
  }

  lemma SameEntries(a: array2<real>, r: Mat, n: nat)
    requires a.Length0 == n && a.Length1 == n + 1 && Shape(r, n)
    requires forall i, j :: 0 <= i < n && 0 <= j < n + 1 ==> a[i, j] == r[i][j]
    ensures Rows(a) == r
  {
    forall i | 0 <= i < n
      ensures Rows(a)[i] == r[i]
    {
    }
  }

  class Context {
    const size: nat
    const m: array2<real>
    const solve: array<real>
    var n: nat
    var status: Status
    var res: Shape3
    ghost var points: seq<Point>

    ghost predicate Valid()
      reads this
    {
      && m.Length0 == size && m.Length1 == size + 1 && solve.Length == size
      && n < 0x1_0000_0000
    }

    /** The matrix holds the normal equations of the points added since the last reset. */
    ghost predicate Accumulated()
      reads this, m
    {
      && Valid() && size == UNKNOWNS
      && n == |points| % 0x1_0000_0000
      && Rows(m) == Normal(Data(points), UNKNOWNS)
    }

    /** `solve` is the best fit of the points. */
    ghost predicate Solved()
      reads `points, solve
    {
      solve.Length == UNKNOWNS && BestFit(solve[..], points)
    }

    constructor (size: nat)
      ensures Valid() && this.size == size && fresh(m) && fresh(solve)
    {
      this.size := size;
      m := new real[size, size + 1];
      solve := new real[size];
      n := 0;
      status := Ready;
      res := NotFinite;
    }

    method ResetMatrix()
      requires Valid() && size == UNKNOWNS
      modifies this, m, solve
      ensures Accumulated() && points == [] && status == Ready
      ensures forall i :: 0 <= i < size ==> solve[i] == 0.0
    {
      for row := 0 to size
        modifies solve
        invariant forall i :: 0 <= i < row ==> solve[i] == 0.0
      {
        solve[row] := 0.0;
      }
      for row := 0 to size
        modifies m
        invariant forall i, j :: 0 <= i < row && 0 <= j < size + 1 ==> m[i, j] == 0.0
      {
        for column := 0 to size + 1
          modifies m
          invariant forall i, j :: 0 <= i < row && 0 <= j < size + 1 ==> m[i, j] == 0.0
          invariant forall j :: 0 <= j < column ==> m[row, j] == 0.0
        {
          m[row, column] := 0.0;
        }
      }
      n := 0;
      points := [];
      status := Ready;
      SameEntries(m, Normal(Data([]), UNKNOWNS), size);
    }

    /** The accumulation loops: entry (i, j) grows by v[i] * v[j]. */
    method AddOuter(v: Row)
      requires Valid() && |v| == size + 1
      modifies m
      ensures forall i, j :: 0 <= i < size && 0 <= j < size + 1 ==> m[i, j] == old(m[i, j]) + v[i] * v[j]
    {
      for row := 0 to size
        invariant forall i, j :: 0 <= i < size && 0 <= j < size + 1 ==>
                    m[i, j] == if i < row then old(m[i, j]) + v[i] * v[j] else old(m[i, j])
      {
        for column := 0 to size + 1
          invariant forall i, j :: 0 <= i < size && 0 <= j < size + 1 ==>
                      m[i, j] == if i < row || (i == row && j < column) then old(m[i, j]) + v[i] * v[j]
                                 else old(m[i, j])
        {
          m[row, column] := m[row, column] + v[row] * v[column];
        }
      }
    }

    method Accumulate(v: Row)
      requires Valid() && size == UNKNOWNS && |v| == size + 1
      requires Rows(m) == Normal(Data(points), size)
      modifies m
      ensures Rows(m) == Normal(Data(points) + [v], size)
    {
      AddOuter(v);
      Grown(old(Rows(m)), v);
    }

    method AddCalData(p: Point)
      requires Accumulated()
      modifies this, m
      ensures Accumulated()
      ensures points == old(points) + [p] && status == old(status)
    {
      CountWraps(|points|);
      n := (n + 1) % WRAP;
      DataGrows(points, p);
      Accumulate(Features(p));
      points := points + [p];
    }

    lemma Grown(before: Mat, v: Row)
      requires Valid() && size == UNKNOWNS && |v| == size + 1
      requires before == Normal(Data(points), size)
      requires forall i, j :: 0 <= i < size && 0 <= j < size + 1 ==> m[i, j] == before[i][j] + v[i] * v[j]
      ensures Rows(m) == Normal(Data(points) + [v], size)
    {
      ObservationAdded(before, Rows(m), Data(points), v, size);
    }

    method CalDataAverage()
      requires Valid() && n != 0
      modifies m
      ensures Rows(m) == ScaleAll(1.0 / n as real, old(Rows(m)))
    {
      for row := 0 to size
        invariant forall i, j :: 0 <= i < size && 0 <= j < size + 1 ==>
                    m[i, j] == if i < row then old(m[i, j]) / n as real else old(m[i, j])
      {
        for column := 0 to size + 1
          invariant forall i, j :: 0 <= i < size && 0 <= j < size + 1 ==>
                      m[i, j] == if i < row || (i == row && j < column) then old(m[i, j]) / n as real
                                 else old(m[i, j])
        {
          m[row, column] := m[row, column] / n as real;
        }
      }
      ghost var a := ScaleAll(1.0 / n as real, old(Rows(m)));
      forall i, j | 0 <= i < size && 0 <= j < size + 1
        ensures m[i, j] == a[i][j]
      {
        DivideIsScale(old(m[i, j]), n as real);
        assert old(m[i, j]) == old(Rows(m))[i][j];
      }
      SameEntries(m, a, size);
    }

    method SwapRow1Row2(i: nat, j: nat)
      requires Valid() && i < size && j < size
      modifies m
      ensures Rows(m) == SwapRows(old(Rows(m)), i, j)
    {
      for column := 0 to size + 1
        invariant forall h, c :: 0 <= h < size && 0 <= c < size + 1 ==>
                    m[h, c] == if c >= column then old(m[h, c])
                               else if h == j then old(m[i, c]) else if h == i then old(m[j, c]) else old(m[h, c])
      {
        var tmp := m[i, column];
        m[i, column] := m[j, column];
        m[j, column] := tmp;
      }
      SameEntries(m, SwapRows(old(Rows(m)), i, j), size);
    }

    method RowMultiK(k: real, row: nat)
      requires Valid() && row < size
      modifies m
      ensures Rows(m) == ScaleRow(old(Rows(m)), k, row)
    {
      for column := 0 to size + 1
        invariant forall h, c :: 0 <= h < size && 0 <= c < size + 1 ==>
                    m[h, c] == if h == row && c < column then old(m[h, c]) * k else old(m[h, c])
      {
        m[row, column] := m[row, column] * k;
      }
      SameEntries(m, ScaleRow(old(Rows(m)), k, row), size);
    }

    /** Add k times row i to row j. */
    method Row2AddRow1K(k: real, i: nat, j: nat)
      requires Valid() && i < size && j < size && i != j
      modifies m
      ensures Rows(m) == AddRow(old(Rows(m)), k, i, j)
    {
      for column := 0 to size + 1
        invariant forall h, c :: 0 <= h < size && 0 <= c < size + 1 ==>
                    m[h, c] == if h == j && c < column then old(m[j, c]) + k * old(m[i, c]) else old(m[h, c])
      {
        m[j, column] := m[j, column] + k * m[i, column];
      }
      SameEntries(m, AddRow(old(Rows(m)), k, i, j), size);
    }

    method SortRows(k: nat)
      requires Valid() && k < size
      modifies m
      ensures Rows(m) == SortFrom(MACRO_RULE, old(Rows(m)), k, k + 1)
    {
      var row := k + 1;
      while row < size
        invariant k < row <= size
        invariant SortFrom(MACRO_RULE, Rows(m), k, row) == SortFrom(MACRO_RULE, old(Rows(m)), k, k + 1)
      {
        assert MACRO_RULE(Rows(m), k, row) == MacroTest(m[k, k], m[row, k]);
        if MacroTest(m[k, k], m[row, k]) {
          SwapRow1Row2(k, row);
        }
        row := row + 1;
      }
    }

    /** The rows below the pivot. */
    method ClearColumn(k: nat)
      requires Valid() && k < size && m[k, k] != 0.0
      modifies m
      ensures Rows(m) == ClearFrom(old(Rows(m)), size, k, k + 1)
    {
      for row := k + 1 to size
        invariant Rows(m)[k][k] != 0.0
        invariant ClearFrom(Rows(m), size, k, row) == ClearFrom(old(Rows(m)), size, k, k + 1)
      {
        var f := -m[row, k] / m[k, k];
        Row2AddRow1K(f, k, row);
      }
    }

    /** The body of the loop; false when the pivot is zero. */
    method EliminateColumn(cnt: nat) returns (done: bool)
      requires Valid() && cnt < size
      modifies m
      ensures EliminateFrom(MACRO_RULE, old(Rows(m)), size, cnt)
           == if done then EliminateFrom(MACRO_RULE, Rows(m), size, cnt + 1) else ZeroPivot(Rows(m))
    {
      EliminateStep(MACRO_RULE, Rows(m), size, cnt);
      SortRows(cnt);
      assert Rows(m)[cnt][cnt] == m[cnt, cnt];
      if m[cnt, cnt] == 0.0 {
        return false;
      }
      ClearColumn(cnt);
      done := true;
    }

    method GaussElimination() returns (err: int)
      requires Valid()
      modifies m
      ensures var r := EliminateFrom(MACRO_RULE, old(Rows(m)), size, 0);
              && Rows(m) == r.m
              && err == if r.Reduced? then 0 else 1
    {
      for cnt := 0 to size
        invariant EliminateFrom(MACRO_RULE, Rows(m), size, cnt) == EliminateFrom(MACRO_RULE, old(Rows(m)), size, 0)
      {
        var done := EliminateColumn(cnt);
        if !done {
          return 1;
        }
      }
      err := 0;
    }

    method SimplifyRow()
      requires Valid() && forall i :: 0 <= i < size ==> m[i, i] != 0.0
      modifies m
      ensures forall i :: 0 <= i < size ==> old(Rows(m))[i][i] != 0.0
      ensures Rows(m) == NormalizeFrom(old(Rows(m)), size, 0)
    {
      assert forall i :: 0 <= i < size ==> Rows(m)[i][i] == m[i, i];
      for row := 0 to size
        invariant forall i :: row <= i < size ==> Rows(m)[i][i] != 0.0
        invariant NormalizeFrom(Rows(m), size, row) == NormalizeFrom(old(Rows(m)), size, 0)
      {
        assert Rows(m)[row][row] == m[row, row];
        var k := 1.0 / m[row, row];
        RowMultiK(k, row);
      }
    }

    method SolveMatrix()
      requires Valid()
      modifies solve
      ensures Substituted(Rows(m), size, solve[..], 0)
    {
      var row: nat := size;
      while row > 0
        invariant row <= size
        invariant Substituted(Rows(m), size, solve[..], row)
      {
        row := row - 1;
        SolveRow(row);
      }
    }

    method SolveRow(row: nat)
      requires Valid() && row < size
      requires Substituted(Rows(m), size, solve[..], row + 1)
      modifies solve
      ensures Substituted(Rows(m), size, solve[..], row)
    {
      ghost var x, rows := solve[..], Rows(m);
      solve[row] := m[row, size];
      SubtractKnown(row, x);
      SubstituteOne(rows, size, x, solve[..], row);
    }

    /** The inner loop: subtract the known unknowns, the last first. */
    method SubtractKnown(row: nat, ghost x: Row)
      requires Valid() && row < size == |x|
      requires forall i :: 0 <= i < size && i != row ==> solve[i] == x[i]
      modifies solve
      ensures forall i :: 0 <= i < size && i != row ==> solve[i] == x[i]
      ensures solve[row] == old(solve[row]) - Dot(Rows(m)[row], x, row + 1, size)
    {
      ghost var u := Rows(m)[row];
      ghost var start := solve[row];
      var column := size;
      while column > row + 1
        invariant row < column <= size
        invariant forall i :: 0 <= i < size && i != row ==> solve[i] == x[i]
        invariant solve[row] == start - Dot(u, x, column, size)
      {
        column := column - 1;
        SubtractTerm(u, x, column, size, start, solve[row], m[row, column], solve[column]);
        solve[row] := solve[row] - m[row, column] * solve[column];
      }
    }

    /** Elimination, normalisation and back substitution: the branch structure of fit_ellipsoid. */
    method SolveSystem() returns (err: int)
      requires Valid()
      modifies m, solve
      ensures err == 0 <==> EliminateFrom(MACRO_RULE, old(Rows(m)), size, 0).Reduced?
      ensures err == 0 <==> HasOnlySolution(old(Rows(m)), size) && !LosesPivot(old(Rows(m)), size, 0)
      ensures err == 0 ==> OnlySolution(old(Rows(m)), size, solve[..])
    {
      AcceptedIff(Rows(m), size);
      err := GaussElimination();
      if err == 0 {
        StagesSolve(MACRO_RULE, old(Rows(m)), size, solve[..]);
        ghost var reduced := Rows(m);
        assert forall i :: 0 <= i < size ==> reduced[i][i] == m[i, i];
        SimplifyRow();
        SolveMatrix();
        StagesSolve(MACRO_RULE, old(Rows(m)), size, solve[..]);
      }
    }

    /** On success `solve` is the best fit of exactly the points added. */
    method FitCoefficients() returns (code: int)
      requires Accumulated() && n != 0
      modifies this`status, m, solve
      ensures status == if code == 0 then Succeed else Failed
      ensures code == 0 || code == 255
      ensures code == 0 <==> Accepted(points)
      ensures code == 0 ==> Solved()
    {
      AcceptedPoints(points, n as real);
      CalDataAverage();
      var err := SolveSystem();
      if err != 0 {
        status := Failed;
        return 255;
      }
      AveragedBestFit(solve[..], points, n as real);
      status := Succeed;
      code := 0;
    }

    method StoreShape(sqrt: real -> real)
      requires solve.Length == UNKNOWNS && IsSqrt(sqrt)
      modifies this`res
      ensures res == Derive(solve[..], sqrt)
    {
      res := Derive(solve[..], sqrt);
    }

    method FitEllipsoid(sqrt: real -> real) returns (code: int)
      requires Accumulated() && n != 0 && IsSqrt(sqrt)
      modifies this`status, this`res, m, solve
      ensures status == if code == 0 then Succeed else Failed
      ensures code == 0 || code == 255
      ensures code == 0 <==> Accepted(points)
      ensures code == 0 ==> Solved() && res == Derive(solve[..], sqrt)
      ensures code != 0 ==> res == old(res)
    {
      code := FitCoefficients();
      if code == 0 {
        StoreShape(sqrt);
      }
    }
  }
}
