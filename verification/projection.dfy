// The cost forecast: the closed-form least-squares line over the sample indices
// 0, 1, 2, ..., modelled over the reals.
module Projection {
  import opened Text

  // ----- sums over the sample indices (map/reduce in the source) -----------

  type Term = nat -> real

  function Sum(n: nat, f: Term): real
  {
    if n == 0 then 0.0 else Sum(n - 1, f) + f(n - 1)
  }

  /** f is a linear combination of the terms a, b, c and d. */
  ghost predicate Linear(f: Term, a: Term, k: real, b: Term, l: real, c: Term, d: Term)
  {
    forall i: nat :: f(i) == a(i) + k * b(i) + l * c(i) + d(i)
  }

  lemma Distribute(k: real, x: real, y: real)
    ensures k * (x + y) == k * x + k * y
  {
  }

  lemma {:induction false} SumLinear(n: nat, f: Term, a: Term, k: real, b: Term, l: real, c: Term, d: Term)
    requires Linear(f, a, k, b, l, c, d)
    ensures Sum(n, f) == Sum(n, a) + k * Sum(n, b) + l * Sum(n, c) + Sum(n, d)
  {
    if n == 0 {
      assert k * 0.0 == 0.0 && l * 0.0 == 0.0;
    } else {
      SumLinear(n - 1, f, a, k, b, l, c, d);
      Distribute(k, Sum(n - 1, b), b(n - 1));
      Distribute(l, Sum(n - 1, c), c(n - 1));
    }
  }

  lemma {:induction false} SumExtensional(n: nat, f: Term, g: Term)
    requires forall i: nat :: i < n ==> f(i) == g(i)
    ensures Sum(n, f) == Sum(n, g)
  {
    if n > 0 {
      SumExtensional(n - 1, f, g);
    }
  }

  const ZERO: Term := (i: nat) => 0.0
  const ONE: Term := (i: nat) => 1.0
  const INDEX: Term := (i: nat) => i as real
  const INDEX_SQUARED: Term := (i: nat) => i as real * i as real

  function Value(v: seq<real>): Term
  {
    (i: nat) => if i < |v| then v[i] else 0.0
  }

  function Weighted(y: Term): Term
  {
    (i: nat) => i as real * y(i)
  }

  function Squared(y: Term): Term
  {
    (i: nat) => y(i) * y(i)
  }

  /** What is left of y after the line `intercept + slope * i`. */
  function Residual(y: Term, slope: real, intercept: real): Term
  {
    (i: nat) => y(i) - (intercept + slope * i as real)
  }

  lemma {:induction false} SumConstants(n: nat)
    ensures Sum(n, ZERO) == 0.0
    ensures Sum(n, ONE) == n as real
  {
    if n > 0 {
      SumConstants(n - 1);
    }
  }

  function Denominator(n: nat): real
    requires n > 0
  {
    var meanX := Sum(n, INDEX) / n as real;
    Sum(n, INDEX_SQUARED) - n as real * meanX * meanX
  }

  lemma SumsStep(m: real, sx: real, sxx: real)
    requires 2.0 * sx == m * (m - 1.0)
    requires 6.0 * sxx == m * (m - 1.0) * (2.0 * m - 1.0)
    ensures 2.0 * (sx + m) == (m + 1.0) * m
    ensures 6.0 * (sxx + m * m) == (m + 1.0) * m * (2.0 * m + 1.0)
  {
    var m2 := m * m;
    var m3 := m2 * m;
    assert m * (m - 1.0) == m2 - m;
    assert (m + 1.0) * m == m2 + m;
    assert (m2 - m) * (2.0 * m - 1.0) == 2.0 * m3 - 3.0 * m2 + m;
    assert (m2 + m) * (2.0 * m + 1.0) == 2.0 * m3 + 3.0 * m2 + m;
  }

  lemma {:induction false} SumsClosed(n: nat, r: real)
    requires r == n as real
    ensures 2.0 * Sum(n, INDEX) == r * (r - 1.0)
    ensures 6.0 * Sum(n, INDEX_SQUARED) == r * (r - 1.0) * (2.0 * r - 1.0)
  {
    if n > 0 {
      SumsClosed(n - 1, r - 1.0);
      SumsStep(r - 1.0, Sum(n - 1, INDEX), Sum(n - 1, INDEX_SQUARED));
    }
  }

  lemma Cancel(r: real, x: real, y: real)
    requires r != 0.0 && r * x == r * y
    ensures x == y
  {
    assert r * (x - y) == 0.0;
  }

  lemma DenominatorAlgebra(r: real, sx: real, sxx: real, meanX: real)
    requires r > 0.0 && r * meanX == sx
    requires 2.0 * sx == r * (r - 1.0)
    requires 6.0 * sxx == r * (r - 1.0) * (2.0 * r - 1.0)
    ensures 12.0 * (sxx - r * meanX * meanX) == r * (r * r - 1.0)
  {
    Cancel(r, meanX, (r - 1.0) / 2.0);
    var r2 := r * r;
    var r3 := r2 * r;
    assert r * (r - 1.0) == r2 - r;
    assert (r2 - r) * (2.0 * r - 1.0) == 2.0 * r3 - 3.0 * r2 + r;
    assert r * meanX == (r2 - r) / 2.0;
    assert (r2 - r) / 2.0 * meanX == (r2 - r) * (r - 1.0) / 4.0 by {
      assert meanX == (r - 1.0) / 2.0;
    }
    assert (r2 - r) * (r - 1.0) == r3 - 2.0 * r2 + r;
    assert r * (r2 - 1.0) == r3 - r;
  }

  /** The denominator is n(n^2 - 1)/12, so from three samples on the zero guard
      never fires. */
  lemma DenominatorClosed(n: nat, r: real)
    requires n > 0 && r == n as real
    ensures 12.0 * Denominator(n) == r * (r * r - 1.0)
    ensures n >= 3 ==> Denominator(n) >= 2.0
  {
    SumsClosed(n, r);
    DenominatorAlgebra(r, Sum(n, INDEX), Sum(n, INDEX_SQUARED), Sum(n, INDEX) / r);
    if n >= 3 {
      AtLeastTwentyFour(r);
    }
  }

  lemma AtLeastTwentyFour(r: real)
    requires r >= 3.0
    ensures r * (r * r - 1.0) >= 24.0
  {
    assert r * r >= 3.0 * r;
    var k := r * r - 1.0;
    assert k >= 8.0;
    assert r * k >= 3.0 * k;
  }

  // ----- least squares -----------------------------------------------------

  lemma ResidualIdentity(i: real, y: real, slope: real, intercept: real)
    ensures y - (intercept + slope * i) == y + (-slope) * i + (-intercept) * 1.0 + 0.0
    ensures i * (y - (intercept + slope * i)) == i * y + (-slope) * (i * i) + (-intercept) * i + 0.0
  {
    assert i * (slope * i) == slope * (i * i);
  }

  lemma ResidualAt(y: Term, slope: real, intercept: real, i: nat)
    ensures Residual(y, slope, intercept)(i) == y(i) + (-slope) * INDEX(i) + (-intercept) * ONE(i) + ZERO(i)
    ensures Weighted(Residual(y, slope, intercept))(i)
         == Weighted(y)(i) + (-slope) * INDEX_SQUARED(i) + (-intercept) * INDEX(i) + ZERO(i)
  {
    ResidualIdentity(i as real, y(i), slope, intercept);
  }

  lemma ResidualIsLinear(y: Term, slope: real, intercept: real)
    ensures Linear(Residual(y, slope, intercept), y, -slope, INDEX, -intercept, ONE, ZERO)
    ensures Linear(Weighted(Residual(y, slope, intercept)), Weighted(y), -slope, INDEX_SQUARED, -intercept, INDEX, ZERO)
  {
    forall i: nat {
      ResidualAt(y, slope, intercept, i);
    }
  }

  lemma SquareIdentity(i: real, y: real, slope: real, intercept: real, ds: real, dc: real)
    ensures var e, f := y - (intercept + slope * i), 0.0 - (dc + ds * i);
            var e' := y - ((intercept + dc) + (slope + ds) * i);
            e' * e' == e * e + (-2.0 * ds) * (i * e) + (-2.0 * dc) * e + f * f
  {
    var e, f := y - (intercept + slope * i), dc + ds * i;
    var e' := y - ((intercept + dc) + (slope + ds) * i);
    assert e' == e - f by {
      assert (slope + ds) * i == slope * i + ds * i;
    }
    assert e' * e' == e * e - 2.0 * (e * f) + f * f;
    assert e * f == dc * e + ds * (i * e) by {
      assert e * (ds * i) == ds * (i * e);
    }
    assert (0.0 - f) * (0.0 - f) == f * f;
  }

  lemma SquareAt(y: Term, slope: real, intercept: real, ds: real, dc: real, i: nat)
    ensures Squared(Residual(y, slope + ds, intercept + dc))(i)
         == Squared(Residual(y, slope, intercept))(i) + (-2.0 * ds) * Weighted(Residual(y, slope, intercept))(i)
            + (-2.0 * dc) * Residual(y, slope, intercept)(i) + Squared(Residual(ZERO, ds, dc))(i)
  {
    SquareIdentity(i as real, y(i), slope, intercept, ds, dc);
  }

  /** Moving the line changes the squared residuals by a linear part and a square. */
  lemma SquareIsLinear(y: Term, slope: real, intercept: real, ds: real, dc: real)
    ensures Linear(Squared(Residual(y, slope + ds, intercept + dc)), Squared(Residual(y, slope, intercept)),
                   -2.0 * ds, Weighted(Residual(y, slope, intercept)), -2.0 * dc, Residual(y, slope, intercept),
                   Squared(Residual(ZERO, ds, dc)))
  {
    forall i: nat {
      SquareAt(y, slope, intercept, ds, dc, i);
    }
  }

  lemma SameSignProduct(x: real, y: real, product: real)
    requires product == x * y && ((x > 0.0 && y > 0.0) || (x < 0.0 && y < 0.0))
    ensures product > 0.0
  {
  }

  lemma SquarePositive(x: real, square: real)
    requires square == x * x
    ensures square >= 0.0
    ensures square == 0.0 ==> x == 0.0
  {
    if x != 0.0 {
      SameSignProduct(x, x, square);
    }
  }

  lemma SquaredNotNegative(y: Term, i: nat)
    ensures Squared(y)(i) >= 0.0
    ensures Squared(y)(i) == 0.0 ==> y(i) == 0.0
  {
    SquarePositive(y(i), Squared(y)(i));
  }

  /** A sum of squares is never negative, and zero only if every square is. */
  lemma {:induction false} SumSquaredNotNegative(n: nat, y: Term)
    ensures Sum(n, Squared(y)) >= 0.0
    ensures Sum(n, Squared(y)) == 0.0 ==> forall i: nat :: i < n ==> y(i) == 0.0
  {
    if n > 0 {
      SumSquaredNotNegative(n - 1, y);
      SquaredNotNegative(y, n - 1);
    }
  }

  lemma ZeroLine(ds: real, dc: real)
    requires Residual(ZERO, ds, dc)(0) == 0.0 && Residual(ZERO, ds, dc)(1) == 0.0
    ensures ds == 0.0 && dc == 0.0
  {
    assert ds * 0.0 == 0.0 && ds * 1.0 == ds;
  }

  /** The sum of squared residuals of `v` around a line. */
  function Residuals(v: seq<real>, slope: real, intercept: real): real
  {
    Sum(|v|, Squared(Residual(Value(v), slope, intercept)))
  }

  ghost predicate FitsBest(v: seq<real>, slope: real, intercept: real)
  {
    forall s: real, c: real {:trigger Residuals(v, s, c)} ::
      && Residuals(v, slope, intercept) <= Residuals(v, s, c)
      && (Residuals(v, slope, intercept) == Residuals(v, s, c) ==> s == slope && c == intercept)
  }

  /** The residuals, and the residuals weighted by their index, add up to zero. */
  ghost predicate Balanced(v: seq<real>, slope: real, intercept: real)
  {
    && Sum(|v|, Residual(Value(v), slope, intercept)) == 0.0
    && Sum(|v|, Weighted(Residual(Value(v), slope, intercept))) == 0.0
  }

  lemma VanishingTerms(base: real, k: real, x: real, l: real, y: real, rest: real)
    requires x == 0.0 && y == 0.0
    ensures base + k * x + l * y + rest == base + rest
  {
  }

  /** A balanced line beats every other line, strictly. */
  lemma BalancedIsLeast(v: seq<real>, slope: real, intercept: real, ds: real, dc: real)
    requires |v| >= 2 && Balanced(v, slope, intercept)
    ensures Residuals(v, slope, intercept) <= Residuals(v, slope + ds, intercept + dc)
    ensures Residuals(v, slope, intercept) == Residuals(v, slope + ds, intercept + dc) ==> ds == 0.0 && dc == 0.0
  {
    var y := Value(v);
    SquareIsLinear(y, slope, intercept, ds, dc);
    SumLinear(|v|, Squared(Residual(y, slope + ds, intercept + dc)), Squared(Residual(y, slope, intercept)),
              -2.0 * ds, Weighted(Residual(y, slope, intercept)), -2.0 * dc, Residual(y, slope, intercept),
              Squared(Residual(ZERO, ds, dc)));
    VanishingTerms(Residuals(v, slope, intercept), -2.0 * ds, Sum(|v|, Weighted(Residual(y, slope, intercept))),
                   -2.0 * dc, Sum(|v|, Residual(y, slope, intercept)), Sum(|v|, Squared(Residual(ZERO, ds, dc))));
    SumSquaredNotNegative(|v|, Residual(ZERO, ds, dc));
    if Sum(|v|, Squared(Residual(ZERO, ds, dc))) == 0.0 {
      ZeroLine(ds, dc);
    }
  }

  lemma BalancedFitsBest(v: seq<real>, slope: real, intercept: real)
    requires |v| >= 2 && Balanced(v, slope, intercept)
    ensures FitsBest(v, slope, intercept)
  {
    forall s: real, c: real
      ensures Residuals(v, slope, intercept) <= Residuals(v, s, c)
      ensures Residuals(v, slope, intercept) == Residuals(v, s, c) ==> s == slope && c == intercept
    {
      BalancedIsLeast(v, slope, intercept, s - slope, c - intercept);
      assert slope + (s - slope) == s && intercept + (c - intercept) == c;
    }
  }

  lemma Undivided(x: real, d: real, q: real)
    requires d != 0.0 && q == x / d
    ensures d * q == x
  {
  }

  lemma NormalEquations(n: real, sx: real, sy: real, sxx: real, sxy: real, meanX: real, meanY: real,
                        denom: real, slope: real, intercept: real)
    requires n * meanX == sx && n * meanY == sy && denom * slope == sxy - n * meanX * meanY
    requires denom == sxx - n * meanX * meanX && intercept == meanY - slope * meanX
    ensures sy + (-slope) * sx + (-intercept) * n + 0.0 == 0.0
    ensures sxy + (-slope) * sxx + (-intercept) * sx + 0.0 == 0.0
  {
    assert (slope * meanX) * n == slope * (n * meanX);
    assert intercept * n == meanY * n - (slope * meanX) * n;
    assert (sxx - sx * meanX) * slope == slope * sxx - slope * (sx * meanX);
    assert (slope * meanX) * sx == slope * (sx * meanX);
    assert intercept * sx == meanY * sx - (slope * meanX) * sx;
  }

  /** The closed form of the source balances the residuals. */
  lemma ClosedFormIsBalanced(v: seq<real>, n: real, meanX: real, meanY: real, denom: real, slope: real, intercept: real)
    requires n == |v| as real && denom == Sum(|v|, INDEX_SQUARED) - n * meanX * meanX
    requires n * meanX == Sum(|v|, INDEX) && n * meanY == Sum(|v|, Value(v))
    requires denom * slope == Sum(|v|, Weighted(Value(v))) - n * meanX * meanY
    requires intercept == meanY - slope * meanX
    ensures Balanced(v, slope, intercept)
  {
    hide *;
    var y := Value(v);
    SumConstants(|v|);
    NormalEquations(n, Sum(|v|, INDEX), Sum(|v|, y), Sum(|v|, INDEX_SQUARED), Sum(|v|, Weighted(y)),
                    meanX, meanY, denom, slope, intercept);
    SumsBalance(v, n, slope, intercept);
  }

  /** The normal equations, read as sums of residuals. */
  lemma SumsBalance(v: seq<real>, n: real, slope: real, intercept: real)
    requires Sum(|v|, ONE) == n && Sum(|v|, ZERO) == 0.0
    requires Sum(|v|, Value(v)) + (-slope) * Sum(|v|, INDEX) + (-intercept) * n + 0.0 == 0.0
    requires Sum(|v|, Weighted(Value(v))) + (-slope) * Sum(|v|, INDEX_SQUARED)
             + (-intercept) * Sum(|v|, INDEX) + 0.0 == 0.0
    ensures Balanced(v, slope, intercept)
  {
    hide Sum, Residual, Weighted, Linear, Value;
    var y := Value(v);
    ResidualIsLinear(y, slope, intercept);
    SumLinear(|v|, Residual(y, slope, intercept), y, -slope, INDEX, -intercept, ONE, ZERO);
    SumLinear(|v|, Weighted(Residual(y, slope, intercept)), Weighted(y), -slope,
              INDEX_SQUARED, -intercept, INDEX, ZERO);
  }

  datatype Forecast = Forecast(slope: real, intercept: real, current: real, forecast: real, variance: real)

  method ResidualSum(values: seq<real>, slope: real, intercept: real) returns (ssRes: real)
    ensures ssRes == Residuals(values, slope, intercept)
  {
    ssRes := 0.0;
    for i := 0 to |values|
      invariant ssRes == Sum(i, Squared(Residual(Value(values), slope, intercept)))
    {
      var pred := intercept + slope * i as real;
      ssRes := ssRes + Power2(values[i] - pred);
      assert Power2(values[i] - pred) == Squared(Residual(Value(values), slope, intercept))(i);
    }
  }

  function Power2(x: real): real
  {
    x * x
  }

  /** Nothing below three samples; otherwise the unique least-squares line, its
      value `horizon` samples ahead, and its residual variance. */
  method LinearProjection(values: seq<real>, horizon: nat) returns (r: Option<Forecast>)
    ensures r.None? <==> |values| < 3
    ensures r.Some? ==>
              var f := r.value;
              && FitsBest(values, f.slope, f.intercept)
              && f.current == values[|values| - 1]
              && f.forecast == f.intercept + f.slope * (|values| - 1 + horizon) as real
              && f.variance == Residuals(values, f.slope, f.intercept) / (|values| - 2) as real
  {
    if |values| < 3 {
      return None;
    }
    var n := |values| as real;
    DenominatorClosed(|values|, n);
    var sumX, sumY := Sum(|values|, INDEX), Sum(|values|, Value(values));
    var sumXY, sumXX := Sum(|values|, Weighted(Value(values))), Sum(|values|, INDEX_SQUARED);
    var meanX, meanY := sumX / n, sumY / n;
    var denom := sumXX - n * meanX * meanX;
    assert denom == Denominator(|values|);
    if (if denom < 0.0 then -denom else denom) < 0.000000001 {
      return None;
    }
    var slope := (sumXY - n * meanX * meanY) / denom;
    var intercept := meanY - slope * meanX;
    Undivided(sumX, n, meanX);
    Undivided(sumY, n, meanY);
    Undivided(sumXY - n * meanX * meanY, denom, slope);
    ClosedFormIsBalanced(values, n, meanX, meanY, denom, slope, intercept);
    BalancedFitsBest(values, slope, intercept);
    var ssRes := ResidualSum(values, slope, intercept);
    var variance := ssRes / (if |values| - 2 >= 1 then |values| - 2 else 1) as real;
    var forecast := intercept + slope * (|values| - 1 + horizon) as real;
    return Some(Forecast(slope, intercept, values[|values| - 1], forecast, variance));
  }

  lemma AffineResidual(v: seq<real>, s: real, c: real, i: nat)
    requires i < |v| && v[i] == c + s * i as real
    ensures Squared(Residual(Value(v), s, c))(i) == 0.0
  {
    assert Residual(Value(v), s, c)(i) == 0.0;
  }

  /** A series that already lies on a line is fitted by exactly that line. */
  lemma AffineIsExact(v: seq<real>, s: real, c: real, slope: real, intercept: real)
    requires forall i: nat :: i < |v| ==> v[i] == c + s * i as real
    requires FitsBest(v, slope, intercept)
    ensures slope == s && intercept == c
  {
    forall i: nat | i < |v|
      ensures Squared(Residual(Value(v), s, c))(i) == ZERO(i)
    {
      AffineResidual(v, s, c, i);
    }
    SumExtensional(|v|, Squared(Residual(Value(v), s, c)), ZERO);
    SumConstants(|v|);
    SumSquaredNotNegative(|v|, Residual(Value(v), slope, intercept));
    assert Residuals(v, slope, intercept) <= Residuals(v, s, c);
  }
}
