/** Int8 quantisation of a vector (`VectorIndex::store`, `score`), in exact arithmetic. */
module Quantise {

  /** One stored vector: `codes[i] * scale` stands for component `i` of the unit vector. */
  datatype Row = Row(codes: seq<int>, scale: real)

  function Abs(x: real): real
  {
    if x < 0.0 then -x else x
  }

  function Square(x: real): real
  {
    x * x
  }

  function Sum(s: seq<real>): real
  {
    if s == [] then 0.0 else Sum(s[..|s| - 1]) + s[|s| - 1]
  }

  function Products(a: seq<real>, b: seq<real>): seq<real>
    requires |a| == |b|
  {
    seq(|a|, i requires 0 <= i < |a| => a[i] * b[i])
  }

  function Scaled(v: seq<real>, scale: real): seq<real>
  {
    seq(|v|, i requires 0 <= i < |v| => v[i] * scale)
  }

  function Magnitudes(v: seq<real>): seq<real>
  {
    seq(|v|, i requires 0 <= i < |v| => Abs(v[i]))
  }

  function Squares(v: seq<real>): seq<real>
  {
    seq(|v|, i requires 0 <= i < |v| => Square(v[i]))
  }

  function Dot(a: seq<real>, b: seq<real>): real
    requires |a| == |b|
  {
    Sum(Products(a, b))
  }

  function SumSquares(v: seq<real>): real
  {
    Sum(Squares(v))
  }

  function SumAbs(v: seq<real>): real
  {
    Sum(Magnitudes(v))
  }

  /** The largest magnitude. */
  function Peak(v: seq<real>): real
  {
    if v == [] then 0.0
    else
      var before, last := Peak(v[..|v| - 1]), Abs(v[|v| - 1]);
      if before < last then last else before
  }

  /** Nearest integer, halves away from zero (Rust's `round`). */
  function Round(x: real): int
  {
    if x >= 0.0 then (x + 0.5).Floor else -((0.5 - x).Floor)
  }

  /** Rounds, then clamps to the int8 range the codes use. */
  function Code(x: real): int
  {
    var r := Round(x);
    if r > 127 then 127 else if r < -127 then -127 else r
  }

  ghost predicate IsSqrt(sqrt: real -> real)
  {
    forall x: real :: x >= 0.0 ==> sqrt(x) >= 0.0 && Square(sqrt(x)) == x
  }

  function ScaleOf(norm: real, peak: real): real
  {
    if norm > 0.0 && peak > 0.0 then peak / norm / 127.0 else 0.0
  }

  function InverseOf(norm: real, peak: real): real
  {
    if norm > 0.0 && peak > 0.0 then 127.0 / peak else 0.0
  }

  function CodeOf(x: real, norm: real, peak: real): int
  {
    Code(x * InverseOf(norm, peak))
  }

  function RowOf(v: seq<real>, norm: real, peak: real): (row: Row)
    ensures |row.codes| == |v|
  {
    Row(seq(|v|, i requires 0 <= i < |v| => CodeOf(v[i], norm, peak)), ScaleOf(norm, peak))
  }

  function Quantised(sqrt: real -> real, v: seq<real>): (row: Row)
    ensures |row.codes| == |v|
  {
    RowOf(v, sqrt(SumSquares(v)), Peak(v))
  }

  function Decoded(row: Row): seq<real>
  {
    seq(|row.codes|, i requires 0 <= i < |row.codes| => row.codes[i] as real)
  }

  function Score(row: Row, q: seq<real>): real
    requires |row.codes| == |q|
  {
    Dot(Decoded(row), q) * row.scale
  }

  // ---------------------------------------------------------------- products

  lemma ProductNonNegative(a: real, b: real) returns (p: real)
    requires a >= 0.0 && b >= 0.0
    ensures p == a * b && p >= 0.0
  {
    p := a * b;
  }

  lemma ProductPositive(a: real, b: real) returns (p: real)
    requires a > 0.0 && b > 0.0
    ensures p == a * b && p > 0.0
  {
    p := a * b;
  }

  lemma SquareSign(x: real)
    ensures Square(x) >= 0.0 && (x != 0.0 ==> Square(x) > 0.0) && Square(x) == Square(Abs(x))
  {
    if x > 0.0 { var p := ProductPositive(x, x); }
    if x < 0.0 { var p := ProductPositive(-x, -x); assert p == x * x; }
  }

  lemma SquaresGrow(a: real, b: real)
    requires 0.0 <= a <= b
    ensures Square(a) <= Square(b) && (a < b ==> Square(a) < Square(b))
  {
    if a < b {
      var p := ProductPositive(b - a, b + a);
      assert p == b * b - a * a;
    }
  }

  lemma ProductBound(e: real, x: real, bound: real)
    requires -bound <= e <= bound
    ensures -(bound * Abs(x)) <= e * x <= bound * Abs(x)
  {
    var a := Abs(x);
    var p := ProductNonNegative(bound - e, a);
    var q := ProductNonNegative(bound + e, a);
    assert p == bound * a - e * a && q == bound * a + e * a;
    assert e * x == if x < 0.0 then -(e * a) else e * a;
  }

  // ---------------------------------------------------------------- sums

  predicate Near(a: real, b: real, bound: real)
  {
    -bound <= a - b <= bound
  }

  lemma {:induction false} SumNear(a: seq<real>, b: seq<real>, bounds: seq<real>)
    requires |a| == |b| == |bounds|
    requires forall i :: 0 <= i < |a| ==> Near(a[i], b[i], bounds[i])
    ensures Near(Sum(a), Sum(b), Sum(bounds))
  {
    if a != [] {
      var n := |a| - 1;
      SumNear(a[..n], b[..n], bounds[..n]);
      assert Near(a[n], b[n], bounds[n]);
    }
  }

  lemma {:induction false} SumScales(s: seq<real>, scale: real)
    ensures Sum(Scaled(s, scale)) == Sum(s) * scale
  {
    if s != [] {
      var n := |s| - 1;
      SumScales(s[..n], scale);
      var scaled, first := Scaled(s, scale), Scaled(s[..n], scale);
      assert forall i :: 0 <= i < n ==> scaled[i] == first[i];
      assert scaled[..n] == first;
      assert Sum(s) == Sum(s[..n]) + s[n];
    }
  }

  lemma {:induction false} SumNonNegative(s: seq<real>)
    requires forall i :: 0 <= i < |s| ==> s[i] >= 0.0
    ensures Sum(s) >= 0.0 && forall i :: 0 <= i < |s| ==> s[i] <= Sum(s)
  {
    if s != [] { SumNonNegative(s[..|s| - 1]); }
  }

  lemma SquaresAreNonNegative(v: seq<real>)
    ensures SumSquares(v) >= 0.0 && forall i :: 0 <= i < |v| ==> Square(v[i]) <= SumSquares(v)
  {
    forall i | 0 <= i < |v| ensures Squares(v)[i] >= 0.0 { SquareSign(v[i]); }
    SumNonNegative(Squares(v));
    assert forall i :: 0 <= i < |v| ==> Squares(v)[i] == Square(v[i]);
  }

  // ---------------------------------------------------------------- norm and peak

  lemma {:induction false} PeakBounds(v: seq<real>)
    ensures Peak(v) >= 0.0 && forall i :: 0 <= i < |v| ==> Abs(v[i]) <= Peak(v)
  {
    if v != [] { PeakBounds(v[..|v| - 1]); }
  }

  lemma {:induction false} PeakIsMet(v: seq<real>) returns (i: nat)
    requires Peak(v) > 0.0
    ensures i < |v| && Abs(v[i]) == Peak(v)
  {
    if Peak(v[..|v| - 1]) < Abs(v[|v| - 1]) {
      i := |v| - 1;
    } else {
      i := PeakIsMet(v[..|v| - 1]);
    }
  }

  lemma {:induction false} ZeroSum(s: seq<real>)
    requires forall i :: 0 <= i < |s| ==> s[i] == 0.0
    ensures Sum(s) == 0.0
  {
    if s != [] { ZeroSum(s[..|s| - 1]); }
  }

  /** The largest component is positive and no larger than the norm. */
  lemma PeakAgainstNorm(v: seq<real>, norm: real)
    requires norm > 0.0 && Square(norm) == SumSquares(v)
    ensures 0.0 < Peak(v) <= norm
  {
    PeakBounds(v);
    SquareSign(norm);
    if Peak(v) <= 0.0 {
      forall i | 0 <= i < |v| ensures Squares(v)[i] == 0.0 { assert v[i] == 0.0; }
      ZeroSum(Squares(v));
    }
    if Peak(v) > norm {
      var i := PeakIsMet(v);
      SquaresAreNonNegative(v);
      SquareSign(v[i]);
      SquaresGrow(norm, Peak(v));
    }
  }

  /** What the square root gives: the norm, positive unless the vector is zero. */
  lemma NormOf(sqrt: real -> real, v: seq<real>) returns (norm: real)
    requires IsSqrt(sqrt)
    ensures norm == sqrt(SumSquares(v)) >= 0.0 && Square(norm) == SumSquares(v)
    ensures norm > 0.0 <==> SumSquares(v) > 0.0
  {
    SquaresAreNonNegative(v);
    norm := sqrt(SumSquares(v));
    SquareSign(norm);
  }

  // ---------------------------------------------------------------- one component

  lemma RoundError(x: real)
    ensures -0.5 <= Round(x) as real - x <= 0.5
    ensures Round(x) as real - x == 0.5 ==> x > 0.0
    ensures Round(x) as real - x == -0.5 ==> x < 0.0
  {}

  /** Scaling up by `127/peak` and down by the scale is division by the norm. */
  lemma ScaleInverts(x: real, norm: real, peak: real)
    requires norm > 0.0 && peak > 0.0
    ensures (x * InverseOf(norm, peak)) * ScaleOf(norm, peak) == x / norm
  {}

  lemma ScaleIsSmall(norm: real, peak: real)
    requires 0.0 < peak <= norm
    ensures 0.0 < ScaleOf(norm, peak) <= 1.0 / 127.0
  {
    assert peak / norm <= 1.0;
  }

  /** The clamp never bites: the largest component is scaled to exactly 127. */
  lemma CodeIsRounded(x: real, norm: real, peak: real)
    requires norm > 0.0 && peak > 0.0 && Abs(x) <= peak
    ensures -127.0 <= x * InverseOf(norm, peak) <= 127.0
    ensures CodeOf(x, norm, peak) == Round(x * InverseOf(norm, peak))
  {
    var inv := InverseOf(norm, peak);
    ProductBound(x, inv, peak);
    assert inv > 0.0 && peak * inv == 127.0;
  }

  lemma HalfStep(code: real, y: real, scale: real)
    requires -0.5 <= code - y <= 0.5 && scale > 0.0
    ensures Near(code * scale, y * scale, scale / 2.0)
  {
    ProductBound(code - y, scale, 0.5);
    assert (code - y) * scale == code * scale - y * scale;
  }

  lemma OneComponent(x: real, norm: real, peak: real)
    requires 0.0 < peak <= norm && Abs(x) <= peak
    ensures Near(CodeOf(x, norm, peak) as real * ScaleOf(norm, peak), x / norm, ScaleOf(norm, peak) / 2.0)
  {
    ScaleIsSmall(norm, peak);
    CodeIsRounded(x, norm, peak);
    ScaleInverts(x, norm, peak);
    CodedIsNear(CodeOf(x, norm, peak), x * InverseOf(norm, peak), ScaleOf(norm, peak), x / norm);
  }

  lemma CodedIsNear(code: int, y: real, scale: real, target: real)
    requires code == Round(y) && scale > 0.0 && y * scale == target
    ensures Near(code as real * scale, target, scale / 2.0)
  {
    RoundError(y);
    var c := code as real;
    HalfStep(c, y, scale);
    SameNear(c * scale, y * scale, scale / 2.0, code as real * scale, target, scale / 2.0);
  }

  function Unit(v: seq<real>, norm: real): seq<real>
    requires norm != 0.0
  {
    seq(|v|, i requires 0 <= i < |v| => v[i] / norm)
  }

  /** A step is at most 1/127, and every stored component is within half a step. */
  ghost predicate Within(row: Row, unit: seq<real>)
  {
    && |row.codes| == |unit| && 0.0 < row.scale <= 1.0 / 127.0
    && forall i :: 0 <= i < |unit| ==> Near(Scaled(Decoded(row), row.scale)[i], unit[i], row.scale / 2.0)
  }

  lemma OneEntry(v: seq<real>, norm: real, peak: real, i: nat)
    requires 0.0 < peak <= norm && i < |v| && Abs(v[i]) <= peak
    ensures var row := RowOf(v, norm, peak);
            Near(Scaled(Decoded(row), row.scale)[i], Unit(v, norm)[i], row.scale / 2.0)
  {
    var row, x := RowOf(v, norm, peak), v[i];
    var code := CodeOf(x, norm, peak) as real;
    OneComponent(x, norm, peak);
    assert Decoded(row)[i] == code;
    SameNear(code * ScaleOf(norm, peak), x / norm, ScaleOf(norm, peak) / 2.0,
             Scaled(Decoded(row), row.scale)[i], Unit(v, norm)[i], row.scale / 2.0);
  }

  lemma SameNear(a: real, b: real, bound: real, a': real, b': real, bound': real)
    requires Near(a, b, bound) && a == a' && b == b' && bound == bound'
    ensures Near(a', b', bound')
  {}

  lemma RowIsWithin(v: seq<real>, norm: real, peak: real)
    requires 0.0 < peak <= norm && forall i :: 0 <= i < |v| ==> Abs(v[i]) <= peak
    ensures Within(RowOf(v, norm, peak), Unit(v, norm))
  {
    var row := RowOf(v, norm, peak);
    ScaleIsSmall(norm, peak);
    forall i | 0 <= i < |v|
      ensures Near(Scaled(Decoded(row), row.scale)[i], Unit(v, norm)[i], row.scale / 2.0)
    {
      OneEntry(v, norm, peak, i);
    }
  }

  /** Quantising a non-zero vector: each stored component is within half a step of the
      component of `v` over its norm, and a step is at most 1/127. */
  lemma QuantisationError(sqrt: real -> real, v: seq<real>)
    requires IsSqrt(sqrt) && SumSquares(v) > 0.0
    ensures sqrt(SumSquares(v)) > 0.0 && Within(Quantised(sqrt, v), Unit(v, sqrt(SumSquares(v))))
  {
    var norm := NormOf(sqrt, v);
    PeakAgainstNorm(v, norm);
    PeakBounds(v);
    RowIsWithin(v, norm, Peak(v));
  }

  // ---------------------------------------------------------------- the whole score

  lemma DotScales(v: seq<real>, q: seq<real>, scale: real)
    requires |v| == |q|
    ensures Dot(Scaled(v, scale), q) == Dot(v, q) * scale
  {
    SumScales(Products(v, q), scale);
    var left, right := Products(Scaled(v, scale), q), Scaled(Products(v, q), scale);
    forall i | 0 <= i < |v| ensures left[i] == right[i] {
      Commutes(v[i], q[i], scale);
    }
    assert left == right;
  }

  lemma Commutes(a: real, b: real, scale: real)
    ensures (a * scale) * b == (a * b) * scale
  {}

  lemma TermNear(a: real, b: real, x: real, bound: real)
    requires Near(a, b, bound)
    ensures Near(a * x, b * x, Abs(x) * bound)
  {
    ProductBound(a - b, x, bound);
    assert (a - b) * x == a * x - b * x;
  }

  lemma DotNearAt(a: seq<real>, b: seq<real>, q: seq<real>, bound: real, i: nat)
    requires |a| == |b| == |q| && i < |q| && Near(a[i], b[i], bound)
    ensures Near(Products(a, q)[i], Products(b, q)[i], Scaled(Magnitudes(q), bound)[i])
  {
    TermNear(a[i], b[i], q[i], bound);
    assert Magnitudes(q)[i] == Abs(q[i]);
    SameNear(a[i] * q[i], b[i] * q[i], Abs(q[i]) * bound,
             Products(a, q)[i], Products(b, q)[i], Scaled(Magnitudes(q), bound)[i]);
  }

  ghost predicate AllNear(a: seq<real>, b: seq<real>, bounds: seq<real>)
  {
    |a| == |b| == |bounds| && forall i :: 0 <= i < |a| ==> Near(a[i], b[i], bounds[i])
  }

  lemma TermsNear(a: seq<real>, b: seq<real>, q: seq<real>, bound: real)
    requires |a| == |b| == |q|
    requires forall i :: 0 <= i < |q| ==> Near(a[i], b[i], bound)
    ensures AllNear(Products(a, q), Products(b, q), Scaled(Magnitudes(q), bound))
  {
    forall i | 0 <= i < |q| ensures Near(Products(a, q)[i], Products(b, q)[i], Scaled(Magnitudes(q), bound)[i]) {
      DotNearAt(a, b, q, bound, i);
    }
  }

  lemma SumsNear(a: seq<real>, b: seq<real>, bounds: seq<real>, total: real)
    requires AllNear(a, b, bounds) && Sum(bounds) == total
    ensures Near(Sum(a), Sum(b), total)
  {
    SumNear(a, b, bounds);
  }

  lemma DotNear(a: seq<real>, b: seq<real>, q: seq<real>, bound: real)
    requires |a| == |b| == |q|
    requires forall i :: 0 <= i < |q| ==> Near(a[i], b[i], bound)
    ensures Near(Dot(a, q), Dot(b, q), SumAbs(q) * bound)
  {
    TermsNear(a, b, q, bound);
    SumScales(Magnitudes(q), bound);
    SumsNear(Products(a, q), Products(b, q), Scaled(Magnitudes(q), bound), SumAbs(q) * bound);
  }

  lemma DecodedIsNear(row: Row, unit: seq<real>, q: seq<real>)
    requires |unit| == |q| && Within(row, unit)
    ensures |Scaled(Decoded(row), row.scale)| == |q|
    ensures Near(Dot(Scaled(Decoded(row), row.scale), q), Dot(unit, q), SumAbs(q) * (row.scale / 2.0))
  {
    hide Dot, SumAbs;
    DotNear(Scaled(Decoded(row), row.scale), unit, q, row.scale / 2.0);
  }

  lemma ScoreScales(row: Row, q: seq<real>)
    requires |row.codes| == |q|
    ensures |Scaled(Decoded(row), row.scale)| == |q|
    ensures Score(row, q) == Dot(Scaled(Decoded(row), row.scale), q)
  {
    DotScales(Decoded(row), q, row.scale);
  }

  lemma RowScore(row: Row, unit: seq<real>, q: seq<real>)
    requires |unit| == |q| && Within(row, unit)
    ensures Near(Score(row, q), Dot(unit, q), SumAbs(q) * (row.scale / 2.0))
  {
    hide Dot, SumAbs, Score, Scaled, Decoded;
    DecodedIsNear(row, unit, q);
    ScoreScales(row, q);
  }

  /** The approximate score is within half a step, times the query's total magnitude, of the
      exact inner product with the unit vector. */
  lemma ScoreError(sqrt: real -> real, v: seq<real>, q: seq<real>)
    requires IsSqrt(sqrt) && |v| == |q| && SumSquares(v) > 0.0
    ensures var row, norm := Quantised(sqrt, v), sqrt(SumSquares(v));
            norm > 0.0 && Near(Score(row, q), Dot(Unit(v, norm), q), SumAbs(q) * (row.scale / 2.0))
  {
    hide Dot, SumAbs, Score;
    QuantisationError(sqrt, v);
    RowScore(Quantised(sqrt, v), Unit(v, sqrt(SumSquares(v))), q);
  }

  /** The sums of one more component. */
  lemma SumsGrow(q: seq<real>)
    requires q != []
    ensures var n := |q| - 1;
            SumAbs(q) == SumAbs(q[..n]) + Abs(q[n]) && SumSquares(q) == SumSquares(q[..n]) + Square(Abs(q[n]))
  {
    var n := |q| - 1;
    SquareSign(q[n]);
    assert Magnitudes(q)[..n] == Magnitudes(q[..n]) && Squares(q)[..n] == Squares(q[..n]);
  }

  /** The square of a sum of `n` magnitudes is at most `n` times the sum of the squares. */
  lemma {:induction false} SumAbsSquared(q: seq<real>)
    ensures 0.0 <= SumAbs(q) && Square(SumAbs(q)) <= |q| as real * SumSquares(q)
  {
    if q != [] {
      hide SumAbs, SumSquares;
      var n := |q| - 1;
      SumAbsSquared(q[..n]);
      SquaresAreNonNegative(q[..n]);
      SumsGrow(q);
      OneMoreMagnitude(n as real, SumAbs(q[..n]), Abs(q[n]), SumSquares(q[..n]));
    }
  }

  lemma OneMoreMagnitude(n: real, s: real, a: real, squares: real)
    requires n == 0.0 || n >= 1.0
    requires s >= 0.0 && a >= 0.0 && squares >= 0.0 && Square(s) <= n * squares
    ensures Square(s + a) <= (n + 1.0) * (squares + Square(a))
  {
    CrossTerm(n, s, a, squares);
    assert Square(s + a) == Square(s) + 2.0 * (s * a) + Square(a);
    assert (n + 1.0) * (squares + Square(a)) == n * squares + squares + n * Square(a) + Square(a);
  }

  lemma CrossTerm(n: real, s: real, a: real, squares: real)
    requires n == 0.0 || n >= 1.0
    requires s >= 0.0 && a >= 0.0 && squares >= 0.0 && Square(s) <= n * squares
    ensures 2.0 * (s * a) <= squares + n * Square(a)
  {
    if n == 0.0 {
      SquareSign(s);
      assert s == 0.0;
    } else {
      // n * (squares + n a^2 - 2 s a) >= s^2 - 2 s (n a) + (n a)^2 = (s - n a)^2 >= 0
      SquareSign(s - n * a);
      assert Square(s - n * a) == Square(s) - 2.0 * (n * (s * a)) + n * (n * Square(a));
      assert n * (squares + n * Square(a) - 2.0 * (s * a))
             == n * squares + n * (n * Square(a)) - 2.0 * (n * (s * a));
      NonNegativeFactor(n, squares + n * Square(a) - 2.0 * (s * a));
    }
  }

  lemma NonNegativeFactor(n: real, gap: real)
    requires n > 0.0 && n * gap >= 0.0
    ensures gap >= 0.0
  {
    if gap < 0.0 { var p := ProductPositive(n, -gap); }
  }

  lemma SquareTheBound(a: real, b: real, scale: real, total: real, n: real)
    requires scale >= 0.0 && total >= 0.0 && Square(total) <= n
    requires Near(a, b, total * (scale / 2.0))
    ensures Square(a - b) <= n * Square(scale) / 4.0
  {
    SquareBelow(a - b, total, scale / 2.0);
    SquareSign(scale / 2.0);
    var p := ProductNonNegative(n - Square(total), Square(scale / 2.0));
    assert p == n * Square(scale / 2.0) - Square(total) * Square(scale / 2.0);
    assert Square(scale / 2.0) == Square(scale) / 4.0;
  }

  lemma SquareBelow(error: real, total: real, half: real)
    requires total >= 0.0 && half >= 0.0 && -(total * half) <= error <= total * half
    ensures Square(error) <= Square(total) * Square(half)
  {
    SquareSign(error);
    SquaresGrow(Abs(error), total * half);
    assert Square(total * half) == Square(total) * Square(half);
  }

  lemma NearSquared(score: real, exact: real, scale: real, q: seq<real>)
    requires 0.0 <= scale && Near(score, exact, SumAbs(q) * (scale / 2.0)) && SumSquares(q) == 1.0
    ensures Square(score - exact) <= |q| as real * Square(scale) / 4.0
  {
    SumAbsSquared(q);
    SquareTheBound(score, exact, scale, SumAbs(q), |q| as real);
  }

  /** For a unit query the squared error is at most `dim * scale^2 / 4`. */
  lemma ScoreErrorSquared(sqrt: real -> real, v: seq<real>, q: seq<real>)
    requires IsSqrt(sqrt) && |v| == |q| && SumSquares(v) > 0.0 && SumSquares(q) == 1.0
    ensures var row, norm := Quantised(sqrt, v), sqrt(SumSquares(v));
            norm > 0.0 && Square(Score(row, q) - Dot(Unit(v, norm), q)) <= |q| as real * Square(row.scale) / 4.0
  {
    QuantisationError(sqrt, v);
    ScoreError(sqrt, v, q);
    NearSquared(Score(Quantised(sqrt, v), q), Dot(Unit(v, sqrt(SumSquares(v))), q), Quantised(sqrt, v).scale, q);
  }

  /** A zero vector is stored with scale zero and scores 0 against everything. */
  lemma ZeroScoresZero(sqrt: real -> real, v: seq<real>, q: seq<real>)
    requires IsSqrt(sqrt) && |v| == |q| && SumSquares(v) <= 0.0
    ensures Score(Quantised(sqrt, v), q) == 0.0
  {
    var norm := NormOf(sqrt, v);
    assert Quantised(sqrt, v).scale == 0.0;
  }

  // ---------------------------------------------------------------- a search's scores

  lemma UnitSquare(x: real, norm: real, inverse: real)
    requires norm > 0.0 && Square(norm) > 0.0 && inverse == 1.0 / Square(norm)
    ensures Square(x / norm) == Square(x) * inverse
  {
    var y := x / norm;
    assert y * norm == x;
    assert Square(x) == Square(y) * Square(norm);
    Cancel(Square(y), Square(norm), inverse);
  }

  lemma Cancel(a: real, b: real, inverse: real)
    requires b > 0.0 && inverse == 1.0 / b
    ensures (a * b) * inverse == a
  {
    assert b * inverse == 1.0;
    assert (a * b) * inverse == a * (b * inverse);
  }

  /** A query divided by its norm has norm one. */
  lemma UnitHasNormOne(sqrt: real -> real, v: seq<real>)
    requires IsSqrt(sqrt) && SumSquares(v) > 0.0
    ensures sqrt(SumSquares(v)) > 0.0 && SumSquares(Unit(v, sqrt(SumSquares(v)))) == 1.0
  {
    var norm := NormOf(sqrt, v);
    var inverse := 1.0 / Square(norm);
    var left, right := Squares(Unit(v, norm)), Scaled(Squares(v), inverse);
    forall i | 0 <= i < |v| ensures left[i] == right[i] {
      UnitSquare(v[i], norm, inverse);
    }
    assert left == right;
    SumScales(Squares(v), inverse);
    Cancel(1.0, SumSquares(v), inverse);
  }

  /** What a search ranks by, against the exact cosine of the stored vector and the query. */
  lemma SearchScoreError(sqrt: real -> real, v: seq<real>, query: seq<real>)
    requires IsSqrt(sqrt) && |v| == |query| && SumSquares(v) > 0.0 && SumSquares(query) > 0.0
    ensures var row, norm, q := Quantised(sqrt, v), sqrt(SumSquares(v)), sqrt(SumSquares(query));
            && norm > 0.0 && q > 0.0
            && Square(Score(row, Unit(query, q)) - Dot(Unit(v, norm), Unit(query, q)))
                 <= |v| as real * Square(row.scale) / 4.0
  {
    UnitHasNormOne(sqrt, query);
    ScoreErrorSquared(sqrt, v, Unit(query, sqrt(SumSquares(query))));
  }
}
