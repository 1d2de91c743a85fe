/**
 One-pass moments: the streaming updates behind stddev, skew, covariance and Pearson
 correlation, over exact reals, against their two-pass definitions.
 */
module Moments {
  // ----- two-pass definitions -----

  function Sum(xs: seq<real>): real {
    if xs == [] then 0.0 else Sum(xs[..|xs| - 1]) + xs[|xs| - 1]
  }

  function Mean(xs: seq<real>): real {
    if xs == [] then 0.0 else Sum(xs) / |xs| as real
  }

  /** The sum of the products of deviations of `xs` from `a` and of `ys` from `b`. */
  function CoDeviation(xs: seq<real>, ys: seq<real>, a: real, b: real): real
    requires |xs| == |ys|
  {
    if xs == [] then 0.0 else
    var n := |xs| - 1;
    CoDeviation(xs[..n], ys[..n], a, b) + Product(xs[n] - a, ys[n] - b)
  }

  function Product(x: real, y: real): real {
    x * y
  }

  function Cube(x: real): real {
    x * x * x
  }

  /** The sum of the cubed deviations of `xs` from `a`. */
  function CubedDeviation(xs: seq<real>, a: real): real {
    if xs == [] then 0.0 else
    var n := |xs| - 1;
    CubedDeviation(xs[..n], a) + Cube(xs[n] - a)
  }

  function Covariation(xs: seq<real>, ys: seq<real>): real
    requires |xs| == |ys|
  {
    CoDeviation(xs, ys, Mean(xs), Mean(ys))
  }

  // ----- moving the centre -----

  /** What moving the centre by `s` and `t` adds to a sum of products of deviations. */
  function ShiftTerm(n: real, sx: real, sy: real, a: real, b: real, s: real, t: real): real {
    n * (s * t) - t * (sx - n * a) - s * (sy - n * b)
  }

  lemma ShiftTermStep(n: real, n': real, sx: real, sy: real, x: real, y: real, a: real, b: real, s: real, t: real)
    requires n' == n + 1.0
    ensures ShiftTerm(n', sx + x, sy + y, a, b, s, t)
            == ShiftTerm(n, sx, sy, a, b, s, t) + Product(x - (a + s), y - (b + t)) - Product(x - a, y - b)
  {
  }

  lemma {:induction false} CoDeviationShift(xs: seq<real>, ys: seq<real>, a: real, b: real, s: real, t: real)
    requires |xs| == |ys|
    ensures CoDeviation(xs, ys, a + s, b + t)
            == CoDeviation(xs, ys, a, b) + ShiftTerm(|xs| as real, Sum(xs), Sum(ys), a, b, s, t)
  {
    if xs == [] {
      assert Sum(ys) == 0.0;
    } else {
      var n := |xs| - 1;
      CoDeviationShift(xs[..n], ys[..n], a, b, s, t);
      ShiftTermStep(n as real, |xs| as real, Sum(xs[..n]), Sum(ys[..n]), xs[n], ys[n], a, b, s, t);
    }
  }

  function CubeTerm(n: real, sx: real, m2: real, a: real, s: real): real {
    3.0 * s * s * (sx - n * a) - 3.0 * s * m2 - n * (s * s * s)
  }

  lemma CubeTermStep(n: real, n': real, sx: real, sx': real, m2: real, m2': real, x: real, a: real, s: real)
    requires n' == n + 1.0 && sx' == sx + x && m2' == m2 + Product(x - a, x - a)
    ensures CubeTerm(n', sx', m2', a, s)
            == CubeTerm(n, sx, m2, a, s) + Cube(x - (a + s)) - Cube(x - a)
  {
    var d := x - a;
    assert x - (a + s) == d - s;
    assert (d - s) * (d - s) == d * d - 2.0 * d * s + s * s;
    assert Cube(d - s) == d * d * d - 3.0 * s * (d * d) + 3.0 * s * s * d - s * s * s;
    assert 3.0 * s * s * (sx + x - n' * a) == 3.0 * s * s * (sx - n * a) + 3.0 * s * s * d;
    assert 3.0 * s * (m2 + d * d) == 3.0 * s * m2 + 3.0 * s * (d * d);
    assert n' * (s * s * s) == n * (s * s * s) + s * s * s;
  }

  lemma CubeTermZero(a: real, s: real)
    ensures CubeTerm(0.0, 0.0, 0.0, a, s) == 0.0
  {
  }

  lemma {:induction false} CubedDeviationShift(xs: seq<real>, a: real, s: real)
    ensures CubedDeviation(xs, a + s)
            == CubedDeviation(xs, a) + CubeTerm(|xs| as real, Sum(xs), CoDeviation(xs, xs, a, a), a, s)
  {
    if xs == [] {
      CubeTermZero(a, s);
    } else {
      var n := |xs| - 1;
      CubedDeviationShift(xs[..n], a, s);
      CubedDeviationLast(xs, n, a + s);
      CubedDeviationLast(xs, n, a);
      CubeTermLast(xs, n, a, s);
    }
  }

  lemma CoDeviationLast(xs: seq<real>, ys: seq<real>, n: nat, a: real, b: real)
    requires |xs| == |ys| == n + 1
    ensures CoDeviation(xs, ys, a, b) == CoDeviation(xs[..n], ys[..n], a, b) + Product(xs[n] - a, ys[n] - b)
  {
  }

  lemma CubedDeviationLast(xs: seq<real>, n: nat, a: real)
    requires |xs| == n + 1
    ensures CubedDeviation(xs, a) == CubedDeviation(xs[..n], a) + Cube(xs[n] - a)
  {
  }

  /** What a last value adds when the centre moves, on the side of the correction term. */
  lemma CubeTermLast(xs: seq<real>, n: nat, a: real, s: real)
    requires |xs| == n + 1
    ensures CubeTerm(|xs| as real, Sum(xs), CoDeviation(xs, xs, a, a), a, s)
            == CubeTerm(n as real, Sum(xs[..n]), CoDeviation(xs[..n], xs[..n], a, a), a, s)
              + Cube(xs[n] - (a + s)) - Cube(xs[n] - a)
  {
    CoDeviationLast(xs, xs, n, a, a);
    CubeTermStep(n as real, |xs| as real, Sum(xs[..n]), Sum(xs), CoDeviation(xs[..n], xs[..n], a, a),
      CoDeviation(xs, xs, a, a), xs[n], a, s);
  }

  // ----- one more value -----

  lemma SumIsMean(xs: seq<real>)
    ensures Sum(xs) == |xs| as real * Mean(xs)
  {
  }

  lemma Append<T>(xs: seq<T>, x: T)
    ensures (xs + [x])[..|xs|] == xs && (xs + [x])[|xs|] == x
  {
  }

  lemma MeanAlgebra(n: real, m: real, x: real, s: real)
    requires n >= 0.0
    requires s == (x - m) / (n + 1.0)
    ensures (n * m + x) / (n + 1.0) == m + s
    ensures x - m == (n + 1.0) * s
    ensures x - (m + s) == n * s
  {
    assert (n + 1.0) * s == x - m;
    assert n * m + x == (n + 1.0) * (m + s);
  }

  /** Moving the mean by the new value's share keeps it the mean. */
  lemma MeanStep(xs: seq<real>, x: real, s: real)
    requires s == (x - Mean(xs)) / (|xs| as real + 1.0)
    ensures Mean(xs + [x]) == Mean(xs) + s
    ensures x - Mean(xs) == (|xs| as real + 1.0) * s
    ensures x - (Mean(xs) + s) == |xs| as real * s
  {
    Append(xs, x);
    SumIsMean(xs);
    assert Sum(xs + [x]) == Sum(xs) + x;
    MeanAlgebra(|xs| as real, Mean(xs), x, s);
  }

  lemma CovariationAlgebra(n: real, sx: real, sy: real, m: real, k: real, s: real, t: real, x: real, y: real)
    requires sx == n * m && sy == n * k
    requires x - m == (n + 1.0) * s && y - k == (n + 1.0) * t
    ensures ShiftTerm(n, sx, sy, m, k, s, t) + Product(x - (m + s), y - (k + t)) == Product(x - m, y - (k + t))
  {
    var ex, ey := n * s, n * t;
    assert x - (m + s) == ex && y - (k + t) == ey;
    assert ShiftTerm(n, sx, sy, m, k, s, t) == n * (s * t);
    assert (x - m) * ey == ex * ey + s * ey;
    assert s * ey == n * (s * t);
  }

  lemma CoDeviationAppend(xs: seq<real>, ys: seq<real>, x: real, y: real, a: real, b: real)
    requires |xs| == |ys|
    ensures CoDeviation(xs + [x], ys + [y], a, b) == CoDeviation(xs, ys, a, b) + Product(x - a, y - b)
  {
    Append(xs, x);
    Append(ys, y);
  }

  lemma CovariationCore(xs: seq<real>, ys: seq<real>, x: real, y: real, m: real, k: real, s: real, t: real)
    requires |xs| == |ys|
    requires Sum(xs) == |xs| as real * m && Sum(ys) == |xs| as real * k
    requires x - m == (|xs| as real + 1.0) * s && y - k == (|xs| as real + 1.0) * t
    ensures CoDeviation(xs + [x], ys + [y], m + s, k + t)
            == CoDeviation(xs, ys, m, k) + Product(x - m, y - (k + t))
  {
    CovariationAlgebra(|xs| as real, Sum(xs), Sum(ys), m, k, s, t, x, y);
    CoDeviationAppend(xs, ys, x, y, m + s, k + t);
    CoDeviationShift(xs, ys, m, k, s, t);
  }

  /** The update of the sum of products: the old deviation of x times the new deviation of y. */
  lemma CovariationStep(xs: seq<real>, ys: seq<real>, x: real, y: real, m: real, k: real, s: real, t: real)
    requires |xs| == |ys|
    requires m == Mean(xs) && s == (x - m) / (|xs| as real + 1.0)
    requires k == Mean(ys) && t == (y - k) / (|ys| as real + 1.0)
    ensures Covariation(xs + [x], ys + [y]) == Covariation(xs, ys) + Product(x - m, y - (k + t))
  {
    MeanStep(xs, x, s);
    MeanStep(ys, y, t);
    SumIsMean(xs);
    SumIsMean(ys);
    CovariationCore(xs, ys, x, y, m, k, s, t);
  }

  /** What a value that deviates by `delta`, `s` per value, adds to the sum of squares over `n` earlier values. */
  function SquareTerm(n: real, delta: real, s: real): real {
    delta * s * n
  }

  /** What a value adds to the sum of cubes, when `n` counts it and `t` is what it adds to the sum
      of squares, `m2` before. */
  function SkewTerm(n: real, t: real, s: real, m2: real): real {
    t * s * (n - 2.0) - 3.0 * s * m2
  }

  lemma SkewAlgebra(n: real, sx: real, m: real, m2: real, s: real, x: real)
    requires sx == n * m
    requires x - m == (n + 1.0) * s
    ensures CubeTerm(n, sx, m2, m, s) + Cube(x - (m + s)) == SkewTerm(n + 1.0, SquareTerm(n, x - m, s), s, m2)
  {
    assert x - (m + s) == n * s;
    SkewPolynomial(n, s);
  }

  lemma SkewPolynomial(n: real, s: real)
    ensures Cube(n * s) - n * (s * s * s) == (n + 1.0) * s * s * n * s * (n + 1.0 - 2.0)
  {
    var q := s * s * s;
    assert Cube(n * s) == n * n * n * q;
    assert (n + 1.0) * s * s * n * s == (n + 1.0) * n * q;
    assert (n + 1.0) * n * q * (n - 1.0) == n * n * n * q - n * q;
  }

  lemma CubedDeviationAppend(xs: seq<real>, x: real, a: real)
    ensures CubedDeviation(xs + [x], a) == CubedDeviation(xs, a) + Cube(x - a)
  {
    Append(xs, x);
  }

  lemma SkewCore(xs: seq<real>, x: real, m: real, s: real)
    requires Sum(xs) == |xs| as real * m
    requires x - m == (|xs| as real + 1.0) * s
    ensures CubedDeviation(xs + [x], m + s)
            == CubedDeviation(xs, m)
              + SkewTerm(|xs| as real + 1.0, SquareTerm(|xs| as real, x - m, s), s, CoDeviation(xs, xs, m, m))
  {
    SkewAlgebra(|xs| as real, Sum(xs), m, CoDeviation(xs, xs, m, m), s, x);
    CubedDeviationAppend(xs, x, m + s);
    CubedDeviationShift(xs, m, s);
  }

  /** The sum of the cubed deviations from the mean. */
  function SkewSum(xs: seq<real>): real {
    CubedDeviation(xs, Mean(xs))
  }

  /** The update of the sum of cubes. */
  lemma SkewStep(xs: seq<real>, x: real, m: real, s: real)
    requires m == Mean(xs) && s == (x - m) / (|xs| as real + 1.0)
    ensures SkewSum(xs + [x]) == SkewSum(xs)
            + SkewTerm(|xs| as real + 1.0, SquareTerm(|xs| as real, x - m, s), s, Covariation(xs, xs))
  {
    MeanStep(xs, x, s);
    SumIsMean(xs);
    SkewCore(xs, x, m, s);
  }

  // ----- the Cauchy-Schwarz inequality -----

  /** Whether the three sums of products are those of two columns: non-negative and bounding each other. */
  predicate Bounded(xx: real, yy: real, xy: real) {
    xx >= 0.0 && yy >= 0.0 && Product(xy, xy) <= Product(xx, yy)
  }

  lemma SquaresAreNonNegative(x: real)
    ensures x * x >= 0.0
  {
  }

  lemma ZeroTimes(x: real)
    ensures 0.0 * x == 0.0
  {
  }

  /** The cross term of a product of two sums is bounded by the outer ones. */
  lemma CrossTerm(a: real, b: real, c: real, x: real, y: real)
    requires a > 0.0 && b >= 0.0 && c * c <= a * b
    ensures 2.0 * (c * (x * y)) <= a * (y * y) + b * (x * x)
  {
    var d := a * (y * y) + b * (x * x) - 2.0 * (c * (x * y));
    var u := a * y - c * x;
    SquaresAreNonNegative(u);
    SquaresAreNonNegative(x);
    assert a * d == u * u + (a * b - c * c) * (x * x) by { CrossIdentity(a, b, c, x, y); }
    assert (a * b - c * c) * (x * x) >= 0.0;
    assert d < 0.0 ==> a * d < 0.0;
  }

  lemma CrossIdentity(a: real, b: real, c: real, x: real, y: real)
    ensures a * (a * (y * y) + b * (x * x) - 2.0 * (c * (x * y)))
            == (a * y - c * x) * (a * y - c * x) + (a * b - c * c) * (x * x)
  {
    assert (a * y - c * x) * (a * y - c * x) == a * a * (y * y) - 2.0 * (a * c * (x * y)) + c * c * (x * x);
  }

  lemma PositiveProduct(x: real, y: real)
    requires x > 0.0 && y > 0.0
    ensures Product(x, y) > 0.0
  {
  }

  lemma SquareOfOpposite(x: real)
    ensures Product(0.0 - x, 0.0 - x) == Product(x, x)
  {
  }

  lemma ZeroProduct(x: real)
    ensures Product(0.0, x) == 0.0
  {
  }

  lemma ZeroSquare(x: real)
    ensures Product(x, x) >= 0.0
    ensures Product(x, x) == 0.0 <==> x == 0.0
  {
    if x > 0.0 {
      PositiveProduct(x, x);
    } else if x < 0.0 {
      PositiveProduct(0.0 - x, 0.0 - x);
      SquareOfOpposite(x);
    } else {
      ZeroProduct(x);
    }
  }

  lemma CrossTermAnyway(a: real, b: real, c: real, x: real, y: real)
    requires Bounded(a, b, c)
    ensures 2.0 * (c * (x * y)) <= a * (y * y) + b * (x * x)
  {
    if a > 0.0 {
      CrossTerm(a, b, c, x, y);
    } else {
      ZeroProduct(b);
      ZeroSquare(c);
      ZeroTimes(x * y);
      ZeroTimes(y * y);
      SquaresAreNonNegative(x);
      assert b * (x * x) >= 0.0;
    }
  }

  lemma BoundedStep(a: real, b: real, c: real, x: real, y: real)
    requires Bounded(a, b, c)
    ensures Bounded(a + Product(x, x), b + Product(y, y), c + Product(x, y))
  {
    CrossTermAnyway(a, b, c, x, y);
    SquaresAreNonNegative(x);
    SquaresAreNonNegative(y);
    assert (c + x * y) * (c + x * y) == c * c + 2.0 * (c * (x * y)) + (x * y) * (x * y);
    assert (a + x * x) * (b + y * y) == a * b + a * (y * y) + b * (x * x) + (x * x) * (y * y);
    assert (x * y) * (x * y) == (x * x) * (y * y);
  }

  lemma {:induction false} CauchySchwarz(xs: seq<real>, ys: seq<real>, a: real, b: real)
    requires |xs| == |ys|
    ensures Bounded(CoDeviation(xs, xs, a, a), CoDeviation(ys, ys, b, b), CoDeviation(xs, ys, a, b))
  {
    if xs != [] {
      var n := |xs| - 1;
      CauchySchwarz(xs[..n], ys[..n], a, b);
      BoundedStep(CoDeviation(xs[..n], xs[..n], a, a), CoDeviation(ys[..n], ys[..n], b, b),
        CoDeviation(xs[..n], ys[..n], a, b), xs[n] - a, ys[n] - b);
      CoDeviationLast(xs, xs, n, a, a);
      CoDeviationLast(ys, ys, n, b, b);
      CoDeviationLast(xs, ys, n, a, b);
    }
  }

  // ----- constant columns -----

  ghost predicate Constant(xs: seq<real>) {
    forall i, j :: 0 <= i < |xs| && 0 <= j < |xs| ==> xs[i] == xs[j]
  }

  ghost predicate AllAt(xs: seq<real>, a: real) {
    forall i :: 0 <= i < |xs| ==> xs[i] == a
  }

  lemma {:induction false} NoDeviation(xs: seq<real>, a: real)
    ensures CoDeviation(xs, xs, a, a) >= 0.0
    ensures CoDeviation(xs, xs, a, a) == 0.0 <==> AllAt(xs, a)
    ensures AllAt(xs, a) ==> CubedDeviation(xs, a) == 0.0
  {
    if xs != [] {
      var n := |xs| - 1;
      NoDeviation(xs[..n], a);
      AllAtLast(xs, n, a);
      CoDeviationLast(xs, xs, n, a, a);
      CubedDeviationLast(xs, n, a);
      ZeroSquare(xs[n] - a);
      ZeroCube();
    }
  }

  lemma AllAtLast(xs: seq<real>, n: nat, a: real)
    requires |xs| == n + 1
    ensures AllAt(xs, a) <==> AllAt(xs[..n], a) && xs[n] == a
  {
    assert xs == xs[..n] + [xs[n]];
  }

  lemma ZeroCube()
    ensures Cube(0.0) == 0.0
  {
  }

  lemma {:induction false} SumOfConstant(xs: seq<real>, a: real)
    requires AllAt(xs, a)
    ensures Sum(xs) == |xs| as real * a
  {
    if xs != [] {
      SumOfConstant(xs[..|xs| - 1], a);
    }
  }

  lemma ConstantIsAtMean(xs: seq<real>)
    ensures Constant(xs) <==> AllAt(xs, Mean(xs))
  {
    if Constant(xs) && xs != [] {
      SumOfConstant(xs, xs[0]);
      assert Mean(xs) == xs[0];
    }
  }

  /** A column has no spread exactly when it is constant, and then it has no skew sum either. */
  lemma SpreadIffVarying(xs: seq<real>)
    ensures Covariation(xs, xs) >= 0.0
    ensures Covariation(xs, xs) == 0.0 <==> Constant(xs)
    ensures Constant(xs) ==> SkewSum(xs) == 0.0
  {
    NoDeviation(xs, Mean(xs));
    ConstantIsAtMean(xs);
  }

  // ----- read-out -----

  /** A quotient as the floating-point division gives it, rounding and the sign of infinity aside. */
  datatype Float = NaN | Infinite | Finite(value: real)

  function Divide(x: real, y: real): Float {
    if y != 0.0 then Finite(x / y) else if x == 0.0 then NaN else Infinite
  }

  /** Whether `root` is the square root of `v`. */
  predicate IsRoot(root: real, v: real) {
    root >= 0.0 && Product(root, root) == v
  }

  lemma QuotientBound(x: real, y: real)
    requires y > 0.0 && 0.0 - y <= x <= y
    ensures -1.0 <= x / y <= 1.0
  {
  }

  lemma SquaresAreMonotone(x: real, y: real)
    requires 0.0 <= y < x
    ensures Product(y, y) < Product(x, x)
  {
    assert x * x - y * y == (x - y) * (x + y);
    PositiveProduct(x - y, x + y);
  }

  lemma RootBound(x: real, root: real)
    requires root >= 0.0 && Product(x, x) <= Product(root, root)
    ensures 0.0 - root <= x <= root
  {
    SquareOfOpposite(x);
    if x > root {
      SquaresAreMonotone(x, root);
    } else if 0.0 - x > root {
      SquaresAreMonotone(0.0 - x, root);
    }
  }

  lemma ProductIsZero(x: real, y: real)
    ensures Product(x, y) == 0.0 <==> x == 0.0 || y == 0.0
  {
    if x != 0.0 && Product(x, y) == 0.0 {
      assert y == Product(x, y) / x;
    }
  }

  /**
    The correlation lies between -1 and 1 when both columns vary, and is not a number otherwise; it is
    never infinite.
   */
  lemma PearsonBound(xs: seq<real>, ys: seq<real>, root: real)
    requires |xs| == |ys|
    requires IsRoot(root, Product(Covariation(xs, xs), Covariation(ys, ys)))
    ensures Constant(xs) || Constant(ys) ==> Divide(Covariation(xs, ys), root).NaN?
    ensures !Constant(xs) && !Constant(ys) ==>
              var r := Divide(Covariation(xs, ys), root);
              r.Finite? && -1.0 <= r.value <= 1.0
  {
    var xx, yy, xy := Covariation(xs, xs), Covariation(ys, ys), Covariation(xs, ys);
    CauchySchwarz(xs, ys, Mean(xs), Mean(ys));
    SpreadIffVarying(xs);
    SpreadIffVarying(ys);
    ProductIsZero(xx, yy);
    ZeroSquare(root);
    RootBound(xy, root);
    if root > 0.0 {
      QuotientBound(xy, root);
    }
  }

  /** A quotient times its divisor. */
  lemma QuotientTimes(x: real, y: real)
    ensures Divide(x, y).Finite? <==> y != 0.0
    ensures y != 0.0 ==> Divide(x, y).value * y == x
  {
  }

  // ----- perfect correlation -----

  /** The second column is a multiple of the first plus a constant. */
  ghost predicate Line(xs: seq<real>, ys: seq<real>, a: real, b: real)
    requires |xs| == |ys|
  {
    forall i | 0 <= i < |xs| :: ys[i] == a * xs[i] + b
  }

  lemma LineSum(a: real, b: real, n: real, sx: real, x: real)
    ensures Product(a, sx) + n * b + (a * x + b) == Product(a, sx + x) + (n + 1.0) * b
  {
  }

  lemma {:induction false} SumOfLine(xs: seq<real>, ys: seq<real>, a: real, b: real)
    requires |xs| == |ys| && Line(xs, ys, a, b)
    ensures Sum(ys) == Product(a, Sum(xs)) + |xs| as real * b
  {
    if xs == [] {
      assert ys == [];
    } else {
      var n := |xs| - 1;
      SumOfLine(xs[..n], ys[..n], a, b);
      LineSum(a, b, n as real, Sum(xs[..n]), xs[n]);
    }
  }

  lemma LineMean(a: real, b: real, n: real, sx: real, sy: real)
    requires n > 0.0 && sy == Product(a, sx) + n * b
    ensures sy / n == a * (sx / n) + b
  {
    assert (a * sx) / n == a * (sx / n);
  }

  lemma MeanOfLine(xs: seq<real>, ys: seq<real>, a: real, b: real)
    requires |xs| == |ys| && xs != [] && Line(xs, ys, a, b)
    ensures Mean(ys) == a * Mean(xs) + b
  {
    SumOfLine(xs, ys, a, b);
    LineMean(a, b, |xs| as real, Sum(xs), Sum(ys));
  }

  /** What a row adds to the sums of products when the deviations are multiples. */
  lemma MultipleStep(a: real, xx: real, dx: real, dy: real)
    requires dy == Product(a, dx)
    ensures Product(a, xx) + Product(dx, dy) == Product(a, xx + Product(dx, dx))
    ensures Product(a, Product(a, xx)) + Product(dy, dy) == Product(a, Product(a, xx + Product(dx, dx)))
  {
    assert dy * dy == a * (a * (dx * dx));
  }

  lemma {:induction false} MultipleDeviations(xs: seq<real>, ys: seq<real>, a: real, m: real, k: real)
    requires |xs| == |ys| && forall i | 0 <= i < |xs| :: ys[i] - k == Product(a, xs[i] - m)
    ensures CoDeviation(xs, ys, m, k) == Product(a, CoDeviation(xs, xs, m, m))
    ensures CoDeviation(ys, ys, k, k) == Product(a, Product(a, CoDeviation(xs, xs, m, m)))
  {
    if xs == [] {
      assert ys == [];
    } else {
      var n := |xs| - 1;
      MultipleDeviations(xs[..n], ys[..n], a, m, k);
      MultipleStep(a, CoDeviation(xs[..n], xs[..n], m, m), xs[n] - m, ys[n] - k);
      CoDeviationLast(xs, ys, n, m, k);
      CoDeviationLast(xs, xs, n, m, m);
      CoDeviationLast(ys, ys, n, k, k);
    }
  }

  lemma LineDeviation(a: real, b: real, x: real, m: real)
    ensures (a * x + b) - (a * m + b) == Product(a, x - m)
  {
  }

  lemma LineSpreads(xs: seq<real>, ys: seq<real>, a: real, b: real)
    requires |xs| == |ys| && Line(xs, ys, a, b)
    ensures Covariation(xs, ys) == Product(a, Covariation(xs, xs))
    ensures Covariation(ys, ys) == Product(a, Product(a, Covariation(xs, xs)))
  {
    if xs != [] {
      MeanOfLine(xs, ys, a, b);
      forall i | 0 <= i < |xs| ensures ys[i] - Mean(ys) == Product(a, xs[i] - Mean(xs)) {
        LineDeviation(a, b, xs[i], Mean(xs));
      }
    }
    MultipleDeviations(xs, ys, a, Mean(xs), Mean(ys));
  }

  /** The sum of the squares of `dy - a * dx`, from the sums of products. */
  function Residual(a: real, xx: real, yy: real, xy: real): real {
    yy - 2.0 * Product(a, xy) + Product(a, Product(a, xx))
  }

  lemma ResidualStep(a: real, xx: real, yy: real, xy: real, dx: real, dy: real, dz: real)
    requires dz == dy - Product(a, dx)
    ensures Residual(a, xx + Product(dx, dx), yy + Product(dy, dy), xy + Product(dx, dy))
            == Residual(a, xx, yy, xy) + Product(dz, dz)
  {
    var q := Product(a, dx);
    SquareOfDifference(dy, q);
    Regroup(a, dx, dy);
    Distributes(a, xy, Product(dx, dy));
    Distributes(a, xx, Product(dx, dx));
    Distributes(a, Product(a, xx), Product(a, Product(dx, dx)));
  }

  lemma SquareOfDifference(x: real, y: real)
    ensures Product(x - y, x - y) == Product(x, x) - 2.0 * Product(x, y) + Product(y, y)
  {
  }

  lemma Regroup(a: real, dx: real, dy: real)
    ensures Product(dy, Product(a, dx)) == Product(a, Product(dx, dy))
    ensures Product(Product(a, dx), Product(a, dx)) == Product(a, Product(a, Product(dx, dx)))
  {
  }

  lemma Distributes(a: real, x: real, y: real)
    ensures Product(a, x + y) == Product(a, x) + Product(a, y)
  {
  }

  lemma {:induction false} ResidualIsSpread(
    xs: seq<real>, ys: seq<real>, zs: seq<real>, a: real, m: real, k: real, c: real)
    requires |xs| == |ys| == |zs| && forall i | 0 <= i < |xs| :: zs[i] - c == (ys[i] - k) - Product(a, xs[i] - m)
    ensures CoDeviation(zs, zs, c, c)
            == Residual(a, CoDeviation(xs, xs, m, m), CoDeviation(ys, ys, k, k), CoDeviation(xs, ys, m, k))
  {
    if xs == [] {
      assert ys == [] && zs == [];
    } else {
      var n := |xs| - 1;
      ResidualIsSpread(xs[..n], ys[..n], zs[..n], a, m, k, c);
      ResidualStep(a, CoDeviation(xs[..n], xs[..n], m, m), CoDeviation(ys[..n], ys[..n], k, k),
        CoDeviation(xs[..n], ys[..n], m, k), xs[n] - m, ys[n] - k, zs[n] - c);
      CoDeviationLast(xs, ys, n, m, k);
      CoDeviationLast(xs, xs, n, m, m);
      CoDeviationLast(ys, ys, n, k, k);
      CoDeviationLast(zs, zs, n, c, c);
    }
  }

  lemma NoResidual(a: real, xx: real, yy: real, xy: real)
    requires xx > 0.0 && a == xy / xx && Product(xy, xy) == Product(xx, yy)
    ensures Residual(a, xx, yy, xy) == 0.0
  {
    assert a * xx == xy;
    assert xx * (a * xy) == xx * yy;
    assert a * xy == yy;
  }

  /** Where Cauchy and Schwarz hold with equality, the columns are on a line. */
  lemma EqualityIsLine(xs: seq<real>, ys: seq<real>) returns (a: real, b: real)
    requires |xs| == |ys| && !Constant(xs)
    requires var xx, yy, xy := Covariation(xs, xs), Covariation(ys, ys), Covariation(xs, ys);
             Product(xy, xy) == Product(xx, yy)
    ensures Covariation(xs, xs) > 0.0 && a == Covariation(xs, ys) / Covariation(xs, xs) && Line(xs, ys, a, b)
  {
    SpreadIffVarying(xs);
    a := Covariation(xs, ys) / Covariation(xs, xs);
    var m, k := Mean(xs), Mean(ys);
    b := k - Product(a, m);
    var zs := seq(|xs|, i requires 0 <= i < |xs| => ys[i] - Product(a, xs[i]));
    forall i | 0 <= i < |xs| ensures zs[i] - b == (ys[i] - k) - Product(a, xs[i] - m) {
      Distributes(a, m, xs[i] - m);
    }
    ResidualIsSpread(xs, ys, zs, a, m, k, b);
    NoResidual(a, Covariation(xs, xs), Covariation(ys, ys), Covariation(xs, ys));
    NoDeviation(zs, b);
    LevelIsLine(xs, ys, zs, a, b);
  }

  lemma LevelIsLine(xs: seq<real>, ys: seq<real>, zs: seq<real>, a: real, b: real)
    requires |xs| == |ys| == |zs| && AllAt(zs, b) && forall i | 0 <= i < |xs| :: zs[i] == ys[i] - Product(a, xs[i])
    ensures Line(xs, ys, a, b)
  {
    assert forall i | 0 <= i < |xs| :: zs[i] == b;
  }

  lemma RootIsUnique(root: real, other: real)
    requires root >= 0.0 && other >= 0.0 && Product(root, root) == Product(other, other)
    ensures root == other
  {
    if root < other {
      SquaresAreMonotone(other, root);
    } else if other < root {
      SquaresAreMonotone(root, other);
    }
  }

  lemma LineRoot(a: real, xx: real, root: real)
    requires xx > 0.0 && IsRoot(root, Product(xx, Product(a, Product(a, xx))))
    ensures root == if a >= 0.0 then Product(a, xx) else 0.0 - Product(a, xx)
  {
    var p := Product(a, xx);
    assert Product(p, p) == Product(xx, Product(a, p));
    SquareOfOpposite(p);
    ZeroProduct(xx);
    if a >= 0.0 {
      assert p >= 0.0;
      RootIsUnique(root, p);
    } else {
      assert p < 0.0;
      RootIsUnique(root, 0.0 - p);
    }
  }

  lemma QuotientIsOne(r: real, p: real)
    requires p != 0.0 && Product(r, p) == p
    ensures r == 1.0
  {
    assert r == (r * p) / p;
  }

  lemma QuotientIsMinusOne(r: real, p: real)
    requires p != 0.0 && Product(r, p) == 0.0 - p
    ensures r == -1.0
  {
    assert r == (r * p) / p;
  }

  lemma SignOfSlope(xy: real, xx: real)
    requires xx > 0.0
    ensures xy > 0.0 ==> xy / xx > 0.0
    ensures xy < 0.0 ==> xy / xx < 0.0
  {
  }

  /** The correlation of columns on a line is the sign of its slope. */
  lemma LineIsPerfect(xs: seq<real>, ys: seq<real>, root: real, r: real, a: real, b: real)
    requires |xs| == |ys| && !Constant(xs) && Line(xs, ys, a, b) && a != 0.0
    requires IsRoot(root, Product(Covariation(xs, xs), Covariation(ys, ys))) && r * root == Covariation(xs, ys)
    ensures r == if a > 0.0 then 1.0 else -1.0
  {
    var xx := Covariation(xs, xs);
    SpreadIffVarying(xs);
    LineSpreads(xs, ys, a, b);
    PerfectQuotient(a, xx, root, r);
  }

  lemma PerfectQuotient(a: real, xx: real, root: real, r: real)
    requires xx > 0.0 && a != 0.0 && IsRoot(root, Product(xx, Product(a, Product(a, xx))))
    requires r * root == Product(a, xx)
    ensures r == if a > 0.0 then 1.0 else -1.0
  {
    LineRoot(a, xx, root);
    ProductIsZero(a, xx);
    assert Product(r, root) == Product(a, xx);
    if a > 0.0 {
      QuotientIsOne(r, root);
    } else {
      QuotientIsMinusOne(r, root);
    }
  }

  /**
    The correlation is 1 exactly when one column is a positive multiple of the other plus a
    constant, and -1 exactly when it is a negative one.
   */
  lemma PerfectIffLine(xs: seq<real>, ys: seq<real>, root: real, r: real)
    requires |xs| == |ys| && !Constant(xs) && !Constant(ys)
    requires IsRoot(root, Product(Covariation(xs, xs), Covariation(ys, ys))) && r * root == Covariation(xs, ys)
    ensures r == 1.0 <==> Rising(xs, ys)
    ensures r == -1.0 <==> Falling(xs, ys)
  {
    if Rising(xs, ys) {
      var a, b :| a > 0.0 && Line(xs, ys, a, b);
      LineIsPerfect(xs, ys, root, r, a, b);
    }
    if Falling(xs, ys) {
      var a, b :| a < 0.0 && Line(xs, ys, a, b);
      LineIsPerfect(xs, ys, root, r, a, b);
    }
    if r == 1.0 || r == -1.0 {
      var a, b := PerfectIsLine(xs, ys, root, r);
    }
  }

  ghost predicate Rising(xs: seq<real>, ys: seq<real>)
    requires |xs| == |ys|
  {
    exists a, b :: a > 0.0 && Line(xs, ys, a, b)
  }

  ghost predicate Falling(xs: seq<real>, ys: seq<real>)
    requires |xs| == |ys|
  {
    exists a, b :: a < 0.0 && Line(xs, ys, a, b)
  }

  lemma PerfectIsLine(xs: seq<real>, ys: seq<real>, root: real, r: real) returns (a: real, b: real)
    requires |xs| == |ys| && !Constant(xs) && !Constant(ys) && (r == 1.0 || r == -1.0)
    requires IsRoot(root, Product(Covariation(xs, xs), Covariation(ys, ys))) && r * root == Covariation(xs, ys)
    ensures Line(xs, ys, a, b) && (if r == 1.0 then a > 0.0 else a < 0.0)
  {
    var xx, yy, xy := Covariation(xs, xs), Covariation(ys, ys), Covariation(xs, ys);
    SpreadIffVarying(xs);
    SpreadIffVarying(ys);
    ProductIsZero(xx, yy);
    ZeroSquare(root);
    assert xy == if r == 1.0 then root else 0.0 - root;
    SquareOfOpposite(root);
    a, b := EqualityIsLine(xs, ys);
    SignOfSlope(xy, xx);
  }

  // ----- one step of each aggregate -----

  /** What an update of the spread adds, in the two forms the aggregates use. */
  lemma SpreadUpdate(n: real, m: real, v: real, s: real, t: real)
    requires v - m == (n + 1.0) * s && v - (m + s) == n * s
    requires t == SquareTerm(n, v - m, s)
    ensures Product(v - m, v - (m + s)) == t
  {
  }

  /** Whether the fields are the count, mean, spread and skew sum of the values seen. */
  ghost predicate SkewState(seen: seq<real>, n: real, m1: real, m2: real, m3: real) {
    n == |seen| as real && m1 == Mean(seen) && m2 == Covariation(seen, seen) && m3 == SkewSum(seen)
  }

  lemma SpreadAdvances(was: seq<real>, m: real, v: real, s: real, t: real)
    requires m == Mean(was) && s == (v - m) / (|was| as real + 1.0)
    requires t == SquareTerm(|was| as real, v - m, s)
    ensures Mean(was + [v]) == m + s
    ensures Covariation(was + [v], was + [v]) == Covariation(was, was) + t
  {
    MeanStep(was, v, s);
    CovariationStep(was, was, v, v, m, m, s, s);
    SpreadUpdate(|was| as real, m, v, s, t);
  }

  lemma SkewAdvances(was: seq<real>, n0: real, m1: real, m2: real, m3: real, v: real, deltaN: real, t: real,
                     change: real)
    requires SkewState(was, n0, m1, m2, m3)
    requires deltaN == (v - m1) / (n0 + 1.0)
    requires t == SquareTerm(n0, v - m1, deltaN)
    requires change == SkewTerm(n0 + 1.0, t, deltaN, m2)
    ensures SkewState(was + [v], n0 + 1.0, m1 + deltaN, m2 + t, m3 + change)
  {
    SpreadAdvances(was, m1, v, deltaN, t);
    SkewStep(was, v, m1, deltaN);
  }

  /** Whether the fields are the count, means, spreads and covariation of the rows seen. */
  ghost predicate CovarianceState(
    xs: seq<real>, ys: seq<real>, n: real, xm1: real, ym1: real, xm2: real, ym2: real, xym2: real)
  {
    && |xs| == |ys|
    && n == |xs| as real
    && xm1 == Mean(xs) && ym1 == Mean(ys)
    && xm2 == Covariation(xs, xs) && ym2 == Covariation(ys, ys)
    && xym2 == Covariation(xs, ys)
  }

  lemma CovarianceAdvances(
    xs: seq<real>, ys: seq<real>, n: real, xm1: real, ym1: real, xm2: real, ym2: real, xym2: real,
    x: real, y: real, s: real, t: real)
    requires CovarianceState(xs, ys, n, xm1, ym1, xm2, ym2, xym2)
    requires s == (x - xm1) / (n + 1.0) && t == (y - ym1) / (n + 1.0)
    ensures CovarianceState(xs + [x], ys + [y], n + 1.0, xm1 + s, ym1 + t,
              xm2 + Product(x - xm1, x - (xm1 + s)), ym2 + Product(y - ym1, y - (ym1 + t)),
              xym2 + Product(x - xm1, y - (ym1 + t)))
  {
    MeanStep(xs, x, s);
    MeanStep(ys, y, t);
    CovariationStep(xs, xs, x, x, xm1, xm1, s, s);
    CovariationStep(ys, ys, y, y, ym1, ym1, t, t);
    CovariationStep(xs, ys, x, y, xm1, ym1, s, t);
  }

  // ----- the streaming aggregates -----

  class StddevAgg {
    var n: real
    var mean: real
    var m2: real
    /** Every value given since the last reset, in order. */
    ghost var seen: seq<real>

    ghost predicate Valid()
      reads this
    {
      n == |seen| as real && mean == Mean(seen) && m2 == Covariation(seen, seen)
    }

    constructor ()
      ensures Valid() && seen == []
    {
      n, mean, m2, seen := 0.0, 0.0, 0.0, [];
    }

    method Reset()
      modifies this
      ensures Valid() && seen == []
    {
      n, mean, m2, seen := 0.0, 0.0, 0.0, [];
    }

    method DoFloat(vs: seq<real>)
      requires Valid()
      modifies this
      ensures Valid() && seen == old(seen) + vs
    {
      for i := 0 to |vs|
        invariant Valid() && seen == old(seen) + vs[..i]
      {
        var v := vs[i];
        ghost var was, m, s := seen, mean, (v - mean) / (n + 1.0);
        n := n + 1.0;
        var delta := v - mean;
        mean := mean + delta / n;
        var delta2 := v - mean;
        m2 := m2 + delta * delta2;
        seen := seen + [v];
        MeanStep(was, v, s);
        CovariationStep(was, was, v, v, m, m, s, s);
        assert vs[..i + 1] == vs[..i] + [v];
      }
      assert vs[..|vs|] == vs;
    }

    /** The sample deviation, given the square root of the sample variance. */
    method ValueFloat(sqrt: real -> real) returns (r: Float)
      requires Valid()
      ensures |seen| < 2 ==> r.NaN?
      ensures |seen| >= 2 ==>
                var v := Covariation(seen, seen) / (|seen| - 1) as real;
                v >= 0.0 && r == Finite(sqrt(v))
    {
      if n < 2.0 {
        return NaN;
      }
      SpreadIffVarying(seen);
      return Finite(sqrt(m2 / (n - 1.0)));
    }
  }

  class SkewAgg {
    var n: real
    var m1: real
    var m2: real
    var m3: real
    ghost var seen: seq<real>

    ghost predicate Valid()
      reads this
    {
      SkewState(seen, n, m1, m2, m3)
    }

    constructor ()
      ensures Valid() && seen == []
    {
      n, m1, m2, m3, seen := 0.0, 0.0, 0.0, 0.0, [];
    }

    method Reset()
      modifies this
      ensures Valid() && seen == []
    {
      n, m1, m2, m3, seen := 0.0, 0.0, 0.0, 0.0, [];
    }

    /** The body of the loop over a chunk. */
    method Add(v: real)
      requires Valid()
      modifies this
      ensures Valid() && seen == old(seen) + [v]
    {
      var n0 := n;
      n := n + 1.0;
      var delta := v - m1;
      var deltaN := delta / n;
      var t := SquareTerm(n0, delta, deltaN);
      var change := SkewTerm(n, t, deltaN, m2);
      SkewAdvances(seen, n0, m1, m2, m3, v, deltaN, t, change);
      m3 := m3 + change;
      m2 := m2 + t;
      m1 := m1 + deltaN;
      seen := seen + [v];
    }

    method DoFloat(vs: seq<real>)
      requires Valid()
      modifies this
      ensures Valid() && seen == old(seen) + vs
    {
      for i := 0 to |vs|
        invariant Valid() && seen == old(seen) + vs[..i]
      {
        Add(vs[i]);
        assert vs[..i + 1] == vs[..i] + [vs[i]];
      }
      assert vs[..|vs|] == vs;
    }

    /** The skew, given the square root and the power 3/2: never infinite. */
    method ValueFloat(sqrt: real -> real, power: real -> real) returns (r: Float)
      requires Valid()
      requires power(Covariation(seen, seen)) == 0.0 <==> Covariation(seen, seen) == 0.0
      ensures r.NaN? <==> |seen| < 2 || Constant(seen)
      ensures !r.NaN? ==>
                r.Finite? && r.value * power(Covariation(seen, seen)) == sqrt(|seen| as real) * SkewSum(seen)
    {
      if n < 2.0 {
        return NaN;
      }
      SpreadIffVarying(seen);
      QuotientTimes(sqrt(n) * m3, power(m2));
      return Divide(sqrt(n) * m3, power(m2));
    }
  }

  class Covariance {
    const pearson: bool
    var n: real
    var xm1: real
    var ym1: real
    var xm2: real
    var ym2: real
    var xym2: real
    ghost var xs: seq<real>
    ghost var ys: seq<real>

    ghost predicate Valid()
      reads this
    {
      CovarianceState(xs, ys, n, xm1, ym1, xm2, ym2, xym2)
    }

    constructor (pearson: bool)
      ensures Valid() && xs == ys == [] && this.pearson == pearson
    {
      this.pearson := pearson;
      n, xm1, ym1, xm2, ym2, xym2, xs, ys := 0.0, 0.0, 0.0, 0.0, 0.0, 0.0, [], [];
    }

    method Reset()
      modifies this
      ensures Valid() && xs == ys == []
    {
      n, xm1, ym1, xm2, ym2, xym2, xs, ys := 0.0, 0.0, 0.0, 0.0, 0.0, 0.0, [], [];
    }

    /** The body of the loop over a chunk. */
    method Add(x: real, y: real)
      requires Valid()
      modifies this
      ensures Valid() && xs == old(xs) + [x] && ys == old(ys) + [y]
    {
      CovarianceAdvances(xs, ys, n, xm1, ym1, xm2, ym2, xym2, x, y, (x - xm1) / (n + 1.0), (y - ym1) / (n + 1.0));
      n := n + 1.0;
      var xdelta := x - xm1;
      var ydelta := y - ym1;
      xm1 := xm1 + xdelta / n;
      ym1 := ym1 + ydelta / n;
      var xdelta2 := x - xm1;
      var ydelta2 := y - ym1;
      xm2 := xm2 + Product(xdelta, xdelta2);
      ym2 := ym2 + Product(ydelta, ydelta2);
      xym2 := xym2 + Product(xdelta, ydelta2);
      xs, ys := xs + [x], ys + [y];
    }

    /** One chunk: the first column's values, and the second column's of the same rows. */
    method DoFloat(vs: seq<real>, ws: seq<real>)
      requires Valid()
      requires |vs| == |ws|
      modifies this
      ensures Valid() && xs == old(xs) + vs && ys == old(ys) + ws
    {
      for i := 0 to |vs|
        invariant Valid() && xs == old(xs) + vs[..i] && ys == old(ys) + ws[..i]
      {
        Add(vs[i], ws[i]);
        assert vs[..i + 1] == vs[..i] + [vs[i]];
        assert ws[..i + 1] == ws[..i] + [ws[i]];
      }
      assert vs[..|vs|] == vs && ws[..|ws|] == ws;
    }

    /** The sample covariance, or the correlation given the square root of the product of the spreads. */
    method Value(sqrt: real -> real) returns (r: Float)
      requires Valid()
      requires var p := Product(Covariation(xs, xs), Covariation(ys, ys)); IsRoot(sqrt(p), p)
      ensures |xs| < 2 ==> r.NaN?
      ensures |xs| >= 2 && !pearson ==> r == Finite(Covariation(xs, ys) / (|xs| - 1) as real)
      ensures |xs| >= 2 && pearson ==> (r.NaN? <==> Constant(xs) || Constant(ys))
      ensures |xs| >= 2 && pearson && !r.NaN? ==>
                && r.Finite? && -1.0 <= r.value <= 1.0
                && r.value * sqrt(Product(Covariation(xs, xs), Covariation(ys, ys))) == Covariation(xs, ys)
    {
      if n < 2.0 {
        return NaN;
      }
      if pearson {
        var p := Product(xm2, ym2);
        PearsonBound(xs, ys, sqrt(p));
        QuotientTimes(xym2, sqrt(p));
        return Divide(xym2, sqrt(p));
      }
      return Finite(xym2 / (n - 1.0));
    }
  }
}
