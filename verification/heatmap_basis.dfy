/** The heatmap's own Zernike evaluator and its colour ramp. The evaluator
    repeats the radial polynomial of the fit with an iterative factorial,
    but returns 0 outside the unit disc and applies no normalisation. */
module HeatmapBasis {
  import opened Numeric
  import opened ZernikeBasis

  // ---- colour ramp ----

  datatype Rgb = Rgb(r: real, g: real, b: real)

  predicate InUnit(x: real)
  {
    0.0 <= x <= 1.0
  }

  /** `max(0, min(1, value))`. */
  function Clamp01(v: real): (c: real)
    ensures InUnit(c)
    ensures InUnit(v) ==> c == v
    ensures v < 0.0 ==> c == 0.0
    ensures v > 1.0 ==> c == 1.0
  {
    Max(0.0, Min(1.0, v))
  }

  /** `heatmapColor`: blue -> cyan -> green -> yellow -> red over four equal
      segments of the clamped value. */
  function HeatmapColor(v: real): (col: Rgb)
    ensures InUnit(col.r) && InUnit(col.g) && InUnit(col.b)
    ensures v <= 0.0 ==> col == Rgb(0.0, 0.0, 1.0)
    ensures v >= 1.0 ==> col == Rgb(1.0, 0.0, 0.0)
  {
    var c := Clamp01(v);
    if c < 0.25 then Rgb(0.0, c * 4.0, 1.0)
    else if c < 0.5 then Rgb(0.0, 1.0, 1.0 - (c - 0.25) * 4.0)
    else if c < 0.75 then Rgb((c - 0.5) * 4.0, 1.0, 0.0)
    else Rgb(1.0, 1.0 - (c - 0.75) * 4.0, 0.0)
  }

  /** The segment boundaries are cyan, green and yellow. */
  lemma RampBoundaries()
    ensures HeatmapColor(0.25) == Rgb(0.0, 1.0, 1.0)
    ensures HeatmapColor(0.5) == Rgb(0.0, 1.0, 0.0)
    ensures HeatmapColor(0.75) == Rgb(1.0, 1.0, 0.0)
  {
  }

  /** No channel moves faster than 4 times the value, so the ramp is
      continuous, in particular at the three segment boundaries. */
  lemma RampLipschitz(v: real, w: real)
    ensures Abs(HeatmapColor(v).r - HeatmapColor(w).r) <= 4.0 * Abs(v - w)
    ensures Abs(HeatmapColor(v).g - HeatmapColor(w).g) <= 4.0 * Abs(v - w)
    ensures Abs(HeatmapColor(v).b - HeatmapColor(w).b) <= 4.0 * Abs(v - w)
  {
    var cv, cw := Clamp01(v), Clamp01(w);
    assert Abs(cv - cw) <= Abs(v - w);
  }

  /** Red never decreases and blue never increases along the ramp. */
  lemma RampMonotone(v: real, w: real)
    requires v <= w
    ensures HeatmapColor(v).r <= HeatmapColor(w).r
    ensures HeatmapColor(v).b >= HeatmapColor(w).b
  {
    assert Clamp01(v) <= Clamp01(w);
  }

  // ---- factorial and radial polynomial ----

  /** The loop `result *= Double(i)` for `i` in `2...n`. */
  function ProductUpTo(n: nat): (r: real)
    ensures r >= 1.0
  {
    if n < 2 then 1.0 else ProductUpTo(n - 1) * n as real
  }

  /** `calculateFactorial`: 0 for a negative argument, 1 up to 1, otherwise
      the product `2 * ... * n`. */
  function HeatFactorial(n: int): (r: real)
    ensures n >= 0 ==> r >= 1.0
  {
    if n < 0 then 0.0 else if n <= 1 then 1.0 else ProductUpTo(n)
  }

  /** The two factorials agree on every natural number and disagree on every
      negative one (0 here, 1 in the fit). */
  lemma {:induction false} HeatFactorialAgrees(n: int)
    ensures n >= 0 ==> HeatFactorial(n) == Factorial(n)
    ensures n < 0 ==> HeatFactorial(n) == 0.0 && Factorial(n) == 1.0
    decreases if n < 0 then 0 else n
  {
    if n >= 2 {
      HeatFactorialAgrees(n - 1);
    }
  }

  /** The `k`-th radial coefficient with the iterative factorial. Every
      factorial argument is a natural number for a valid mode. */
  function HeatCoeff(n: int, am: int, k: nat): real
    requires 0 <= am <= n && 2 * k <= n - am
  {
    Quotient(Sign(k), HeatFactorial(n - k), HeatFactorial(k), HeatFactorial((n + am) / 2 - k), HeatFactorial((n - am) / 2 - k))
  }

  lemma HeatCoeffAgrees(n: int, am: int, k: nat)
    requires 0 <= am <= n && 2 * k <= n - am
    ensures HeatCoeff(n, am, k) == RadialCoeff(n, am, k)
  {
    HeatFactorialAgrees(k);
    HeatFactorialAgrees((n + am) / 2 - k);
    HeatFactorialAgrees((n - am) / 2 - k);
    HeatFactorialAgrees(n - k);
  }

  /** The heatmap's coefficient list, `k = 0` first. */
  function HeatCoeffs(n: int, am: int): (cs: seq<real>)
    requires 0 <= am <= n
    ensures |cs| == (n - am) / 2 + 1
  {
    seq((n - am) / 2 + 1, k requires 0 <= k < (n - am) / 2 + 1 => HeatCoeff(n, am, k))
  }

  /** `calculateZernikeRadial(n, |m|, rho)`: 0 unless `n - |m|` is even and
      `|m| <= n`; otherwise `coeff * pow(rho, n - 2k)` summed over `k`. */
  function HeatRadial(n: int, am: nat, rho: real): real
  {
    if !((n - am) % 2 == 0 && am <= n) then 0.0
    else PowerSum(HeatCoeffs(n, am), n, rho, (n - am) / 2 + 1)
  }

  /** The two programs' coefficient lists are the same list. */
  lemma HeatCoeffsAgree(n: int, am: int)
    requires 0 <= am <= n
    ensures HeatCoeffs(n, am) == RadialCoeffs(n, am)
  {
    forall k | 0 <= k < (n - am) / 2 + 1
      ensures HeatCoeffs(n, am)[k] == RadialCoeffs(n, am)[k]
    {
      HeatCoeffAgrees(n, am, k);
    }
  }

  /** For a valid mode the heatmap's radial polynomial is the fit's; for any
      other it is 0. */
  lemma HeatRadialAgrees(n: int, m: int, rho: real)
    ensures ValidMode(n, m) ==> HeatRadial(n, IAbs(m), rho) == Radial(n, IAbs(m), rho)
    ensures !ValidMode(n, m) ==> HeatRadial(n, IAbs(m), rho) == 0.0
  {
    if ValidMode(n, m) {
      HeatCoeffsAgree(n, IAbs(m));
    }
  }

  /** Every power `n - 2k` is at least `|m|`, so for `m != 0` the radial
      polynomial vanishes at the centre. */
  lemma HeatRadialAtCentre(n: int, am: nat)
    requires am > 0
    ensures HeatRadial(n, am, 0.0) == 0.0
  {
    if (n - am) % 2 == 0 && am <= n {
      HeatCoeffsAgree(n, am);
      RadialAtCentre(n, am);
    }
  }

  /** `x / (1 * x * 1) == 1`. */
  lemma SelfQuotient(x: real)
    requires x >= 1.0
    ensures Quotient(1.0, x, 1.0, x, 1.0) == 1.0
  {
  }

  /** The leading coefficient of `R_n^n` is `n! / (0! n! 0!) = 1`. */
  lemma HeatCoeffLeading(n: nat)
    ensures HeatCoeff(n, n, 0) == 1.0
  {
    assert (n + n) / 2 - 0 == n && (n - n) / 2 - 0 == 0;
    assert HeatFactorial(0) == 1.0;
    SelfQuotient(HeatFactorial(n));
  }

  /** For `|m| = n` the radial polynomial is the single power `rho^n`. */
  lemma {:induction false} HeatRadialTopMode(n: nat, rho: real)
    ensures HeatRadial(n, n, rho) == Pow(rho, n)
  {
    assert (n - n) / 2 + 1 == 1;
    PowerSumOne(HeatCoeffs(n, n), n, rho);
    HeatCoeffLeading(n);
  }

  // ---- polynomial and surface ----

  /** `calculateZernikePolynomial`: 0 outside the unit disc, otherwise the
      radial part times `cos(m theta)` or `sin(|m| theta)`, without
      normalisation. */
  function HeatPolynomial(trig: Trig, n: int, m: int, rho: real, theta: real): real
  {
    if rho > 1.0 then 0.0 else HeatRadial(n, IAbs(m), rho) * Angular(trig, m, theta)
  }

  /** For `|m| = n` the heatmap's basis function in the disc is
      `rho^n` times the angular factor. */
  lemma {:induction false} PolynomialTopMode(trig: Trig, n: nat, m: int, rho: real, theta: real)
    requires IAbs(m) == n && rho <= 1.0
    ensures HeatPolynomial(trig, n, m, rho, theta) == Pow(rho, n) * Angular(trig, m, theta)
  {
    var h, a := HeatRadial(n, IAbs(m), rho), Angular(trig, m, theta);
    assert HeatPolynomial(trig, n, m, rho, theta) == h * a;
    assert h == Pow(rho, n) by {
      HeatRadialTopMode(n, rho);
    }
    SameFactor(h, Pow(rho, n), a);
  }

  lemma SameFactor(x: real, y: real, a: real)
    requires x == y
    ensures x * a == y * a
  {
  }

  /** Along `theta = 0` every cosine mode has angular factor 1. */
  lemma AngularAxis(trig: Trig, m: nat)
    requires trig.cos(0.0) == 1.0
    ensures Angular(trig, m, 0.0) == 1.0
  {
    assert m as real * 0.0 == 0.0;
  }

  /** Along `theta = 0` the mode `(n, n)` is `rho^n`: the piston is 1,
      the tilt `(1,1)` is `rho`. */
  lemma {:induction false} TopModeAlongAxis(trig: Trig, n: nat, rho: real)
    requires trig.cos(0.0) == 1.0 && rho <= 1.0
    ensures HeatPolynomial(trig, n, n, rho, 0.0) == Pow(rho, n)
  {
    AngularAxis(trig, n);
    TopModeInDisc(trig, n, rho, 0.0);
    TimesOne(HeatPolynomial(trig, n, n, rho, 0.0), Pow(rho, n), Angular(trig, n, 0.0));
  }

  lemma {:induction false} TopModeInDisc(trig: Trig, n: nat, rho: real, theta: real)
    requires rho <= 1.0
    ensures HeatPolynomial(trig, n, n, rho, theta) == Pow(rho, n) * Angular(trig, n, theta)
  {
    PolynomialTopMode(trig, n, n, rho, theta);
  }

  /** A value equal to `x * a` with `a = 1` is `x`. */
  lemma TimesOne(v: real, x: real, a: real)
    ensures v == x * a && a == 1.0 ==> v == x
  {
  }

  /** Inside the disc the fit's basis is the heatmap's times the normalisation
      `sqrt(n+1)` or `sqrt(2(n+1))`; outside it is NaN where the heatmap
      has 0. */
  lemma HeatPolynomialLacksNorm(trig: Trig, n: int, m: int, rho: real, theta: real)
    requires ValidMode(n, m)
    ensures rho <= 1.0 ==> ZernikeAt(trig, n, m, rho, theta) == Num(Norm(trig, n, m) * HeatPolynomial(trig, n, m, rho, theta))
    ensures rho > 1.0 ==> ZernikeAt(trig, n, m, rho, theta) == NaN && HeatPolynomial(trig, n, m, rho, theta) == 0.0
  {
    if rho <= 1.0 {
      LacksNormInDisc(trig, n, m, rho, theta);
    }
  }

  lemma LacksNormInDisc(trig: Trig, n: int, m: int, rho: real, theta: real)
    requires ValidMode(n, m) && rho <= 1.0
    ensures ZernikeAt(trig, n, m, rho, theta) == Num(Norm(trig, n, m) * HeatPolynomial(trig, n, m, rho, theta))
  {
    ZernikeInDisc(trig, n, m, rho, theta);
    HeatInDisc(trig, n, m, rho, theta);
    Regroup(ZernikeAt(trig, n, m, rho, theta), Norm(trig, n, m), HeatRadial(n, IAbs(m), rho), Angular(trig, m, theta),
      HeatPolynomial(trig, n, m, rho, theta));
  }

  /** In the disc the fit's basis function, written with the heatmap's
      radial polynomial. */
  lemma ZernikeInDisc(trig: Trig, n: int, m: int, rho: real, theta: real)
    ensures ValidMode(n, m) && rho <= 1.0 ==>
      ZernikeAt(trig, n, m, rho, theta) == Num(Norm(trig, n, m) * HeatRadial(n, IAbs(m), rho) * Angular(trig, m, theta))
  {
    HeatRadialAgrees(n, m, rho);
  }

  lemma HeatInDisc(trig: Trig, n: int, m: int, rho: real, theta: real)
    ensures rho <= 1.0 ==> HeatPolynomial(trig, n, m, rho, theta) == HeatRadial(n, IAbs(m), rho) * Angular(trig, m, theta)
  {
  }

  /** `Num(x * y * z)` with `y * z` renamed to the equal product `w`. */
  lemma Regroup(v: Value, x: real, y: real, z: real, w: real)
    ensures v == Num(x * y * z) && w == y * z ==> v == Num(x * w)
  {
  }

  /** An exact square root is determined by its square. */
  lemma SqrtOf(trig: Trig, a: real, s: real)
    requires ExactSqrt(trig) && 0.0 <= s && s * s == a
    ensures trig.sqrt(a) == s
  {
    var t := trig.sqrt(a);
    assert 0.0 <= t && t * t == a;
    if t < s {
      SquareMonotone(t, s);
    } else if s < t {
      SquareMonotone(s, t);
    }
  }

  lemma SquareMonotone(x: real, y: real)
    requires 0.0 <= x < y
    ensures x * x < y * y
  {
    assert x * (y - x) >= 0.0;
    assert y * (y - x) > 0.0;
  }
}
