/** The heatmap of the fitted surface: the per-pixel sum over the modes,
    the min/max rescaling inside the analysis circle, the colour overlay and
    the layout of the drawing. */
module Heatmap {
  import opened Numeric
  import opened Optional
  import opened ZernikeBasis
  import opened HeatmapBasis
  import opened PixelSampler
  import opened RingScanner

  // ---- the surface at one point ----

  /** One term of the pixel loop: `coefficient * calculateZernikePolynomial`. */
  function HeatTerm(trig: Trig, c: real, md: Mode, rho: real, theta: real): real
  {
    c * HeatPolynomial(trig, md.n, md.m, rho, theta)
  }

  /** `coeffs[i] * poly(modes[i])` summed over `i < count` with the heatmap's
      unnormalised basis. */
  function HeatSum(trig: Trig, coeffs: seq<real>, modes: seq<Mode>, rho: real, theta: real, count: nat): real
    requires count <= |coeffs| && count <= |modes|
  {
    if count == 0 then 0.0
    else HeatSum(trig, coeffs, modes, rho, theta, count - 1) + HeatTerm(trig, coeffs[count - 1], modes[count - 1], rho, theta)
  }

  /** The number of terms the pixel loop sums: a coefficient without a mode
      (`index >= modes.count`) is skipped. */
  function TermCount(coeffs: seq<real>, modes: seq<Mode>): (k: nat)
    ensures k <= |coeffs| && k <= |modes|
    ensures k == |coeffs| || k == |modes|
  {
    if |coeffs| <= |modes| then |coeffs| else |modes|
  }

  /** The value the pixel loop computes, as written. */
  function HeatValueAsWritten(trig: Trig, coeffs: seq<real>, modes: seq<Mode>, rho: real, theta: real): real
  {
    HeatSum(trig, coeffs, modes, rho, theta, TermCount(coeffs, modes))
  }

  /** One term with the fit's normalisation factor restored. */
  function FittedTerm(trig: Trig, c: real, md: Mode, rho: real, theta: real): real
  {
    c * (Norm(trig, md.n, md.m) * HeatPolynomial(trig, md.n, md.m, rho, theta))
  }

  /** The same sum with every term carrying the fit's normalisation factor. */
  function FittedSum(trig: Trig, coeffs: seq<real>, modes: seq<Mode>, rho: real, theta: real, count: nat): real
    requires count <= |coeffs| && count <= |modes|
  {
    if count == 0 then 0.0
    else FittedSum(trig, coeffs, modes, rho, theta, count - 1) + FittedTerm(trig, coeffs[count - 1], modes[count - 1], rho, theta)
  }

  /** The value the heatmap draws in this model: the corrected pixel sum. */
  function HeatValue(trig: Trig, coeffs: seq<real>, modes: seq<Mode>, rho: real, theta: real): real
  {
    FittedSum(trig, coeffs, modes, rho, theta, TermCount(coeffs, modes))
  }

  /** One term of the fitted surface, with the fit's own basis. */
  function FitTerm(trig: Trig, c: real, md: Mode, rho: real, theta: real): real
    requires rho <= 1.0
  {
    c * ZernikeAt(trig, md.n, md.m, rho, theta).x
  }

  /** Reference: the surface the coefficients were fitted to, written with
      the fit's own basis. */
  function FitSurface(trig: Trig, coeffs: seq<real>, modes: seq<Mode>, rho: real, theta: real, count: nat): real
    requires count <= |coeffs| && count <= |modes| && rho <= 1.0
  {
    if count == 0 then 0.0
    else FitSurface(trig, coeffs, modes, rho, theta, count - 1) + FitTerm(trig, coeffs[count - 1], modes[count - 1], rho, theta)
  }

  lemma FittedTermIsFitBasis(trig: Trig, c: real, md: Mode, rho: real, theta: real)
    requires ValidMode(md.n, md.m) && rho <= 1.0
    ensures FittedTerm(trig, c, md, rho, theta) == FitTerm(trig, c, md, rho, theta)
  {
    HeatPolynomialLacksNorm(trig, md.n, md.m, rho, theta);
  }

  lemma {:induction false} FittedSumIsFitBasis(trig: Trig, coeffs: seq<real>, modes: seq<Mode>, rho: real, theta: real, count: nat)
    requires count <= |coeffs| && count <= |modes| && rho <= 1.0
    requires forall i :: 0 <= i < |modes| ==> ValidMode(modes[i].n, modes[i].m)
    ensures FittedSum(trig, coeffs, modes, rho, theta, count) == FitSurface(trig, coeffs, modes, rho, theta, count)
  {
    if count > 0 {
      FittedSumIsFitBasis(trig, coeffs, modes, rho, theta, count - 1);
      SumsStep(trig, coeffs, modes, rho, theta, count);
    }
  }

  /** Equal sums of the first `count - 1` terms stay equal after one more
      term. */
  lemma SumsStep(trig: Trig, coeffs: seq<real>, modes: seq<Mode>, rho: real, theta: real, count: nat)
    requires 0 < count <= |coeffs| && count <= |modes| && rho <= 1.0
    requires ValidMode(modes[count - 1].n, modes[count - 1].m)
    requires FittedSum(trig, coeffs, modes, rho, theta, count - 1) == FitSurface(trig, coeffs, modes, rho, theta, count - 1)
    ensures FittedSum(trig, coeffs, modes, rho, theta, count) == FitSurface(trig, coeffs, modes, rho, theta, count)
  {
    FittedTermIsFitBasis(trig, coeffs[count - 1], modes[count - 1], rho, theta);
    FittedSumStep(trig, coeffs, modes, rho, theta, count);
    FitSurfaceStep(trig, coeffs, modes, rho, theta, count);
    SameSums(FittedSum(trig, coeffs, modes, rho, theta, count),
      FittedSum(trig, coeffs, modes, rho, theta, count - 1), FittedTerm(trig, coeffs[count - 1], modes[count - 1], rho, theta),
      FitSurface(trig, coeffs, modes, rho, theta, count),
      FitSurface(trig, coeffs, modes, rho, theta, count - 1), FitTerm(trig, coeffs[count - 1], modes[count - 1], rho, theta));
  }

  lemma FittedSumStep(trig: Trig, coeffs: seq<real>, modes: seq<Mode>, rho: real, theta: real, count: nat)
    requires 0 < count <= |coeffs| && count <= |modes|
    ensures FittedSum(trig, coeffs, modes, rho, theta, count)
            == FittedSum(trig, coeffs, modes, rho, theta, count - 1) + FittedTerm(trig, coeffs[count - 1], modes[count - 1], rho, theta)
  {
  }

  lemma FitSurfaceStep(trig: Trig, coeffs: seq<real>, modes: seq<Mode>, rho: real, theta: real, count: nat)
    requires 0 < count <= |coeffs| && count <= |modes| && rho <= 1.0
    ensures FitSurface(trig, coeffs, modes, rho, theta, count)
            == FitSurface(trig, coeffs, modes, rho, theta, count - 1) + FitTerm(trig, coeffs[count - 1], modes[count - 1], rho, theta)
  {
  }

  /** Equal partial sums plus equal terms are equal sums. */
  lemma SameSums(s: real, ps: real, t: real, u: real, pu: real, tu: real)
    requires s == ps + t && u == pu + tu && ps == pu && t == tu
    ensures s == u
  {
  }

  /** With the coefficients and modes the fit publishes, the corrected
      heatmap value at every point of the disc is the fitted surface. */
  lemma {:induction false} HeatValueIsFitSurface(trig: Trig, coeffs: seq<real>, maxOrder: nat, rho: real, theta: real)
    requires |coeffs| == |ModeList(maxOrder)| && rho <= 1.0
    ensures HeatValue(trig, coeffs, ModeList(maxOrder), rho, theta)
            == FitSurface(trig, coeffs, ModeList(maxOrder), rho, theta, |coeffs|)
  {
    ModeListValid(maxOrder);
    FittedSumIsFitBasis(trig, coeffs, ModeList(maxOrder), rho, theta, |coeffs|);
  }

  /** Illustration for two coefficients and two modes: the pixel loop adds
      both terms. `TiltTrefoil` uses it for the shape counterexample. */
  lemma HeatSumPair(trig: Trig, cs: seq<real>, ms: seq<Mode>, rho: real, theta: real)
    requires |cs| == 2 && |ms| == 2
    ensures HeatValueAsWritten(trig, cs, ms, rho, theta)
      == HeatTerm(trig, cs[0], ms[0], rho, theta) + HeatTerm(trig, cs[1], ms[1], rho, theta)
  {
    assert TermCount(cs, ms) == 2;
    assert HeatSum(trig, cs, ms, rho, theta, 1) == HeatTerm(trig, cs[0], ms[0], rho, theta);
  }

  /** The same illustration for the corrected sum; the statement for all
      inputs is `HeatValueIsFitSurface`. */
  lemma FittedSumPair(trig: Trig, cs: seq<real>, ms: seq<Mode>, rho: real, theta: real)
    requires |cs| == 2 && |ms| == 2
    ensures HeatValue(trig, cs, ms, rho, theta)
      == FittedTerm(trig, cs[0], ms[0], rho, theta) + FittedTerm(trig, cs[1], ms[1], rho, theta)
  {
    assert TermCount(cs, ms) == 2;
    assert FittedSum(trig, cs, ms, rho, theta, 1) == FittedTerm(trig, cs[0], ms[0], rho, theta);
  }

  /** A mode `(n, n)` at coefficient 1 along `theta = 0`: `rho^n` as
      written, `Norm(n, n) rho^n` with the normalisation. */
  lemma {:induction false} TopTerms(trig: Trig, md: Mode, rho: real)
    requires trig.cos(0.0) == 1.0 && rho <= 1.0 && md.n > 0 && md.m == md.n
    ensures HeatTerm(trig, 1.0, md, rho, 0.0) == Pow(rho, md.n)
    ensures FittedTerm(trig, 1.0, md, rho, 0.0) == Norm(trig, md.n, md.m) * Pow(rho, md.n)
  {
    TopModeAlongAxis(trig, md.n, rho);
    UnitTerms(trig, md, rho, 0.0);
  }

  lemma UnitTerms(trig: Trig, md: Mode, rho: real, theta: real)
    ensures HeatTerm(trig, 1.0, md, rho, theta) == HeatPolynomial(trig, md.n, md.m, rho, theta)
    ensures FittedTerm(trig, 1.0, md, rho, theta) == Norm(trig, md.n, md.m) * HeatPolynomial(trig, md.n, md.m, rho, theta)
  {
  }

  /** Tilt `(1,1)` plus trefoil `(3,3)` at coefficient 1 along `theta = 0`:
      `rho + rho^3` as the pixel loop sums them, `2 rho + sqrt(8) rho^3` on
      the fitted surface. */
  lemma {:induction false} TiltTrefoil(trig: Trig, cs: seq<real>, ms: seq<Mode>, rho: real)
    requires cs == [1.0, 1.0] && ms == [Mode(1, 1), Mode(3, 3)]
    requires trig.sqrt(4.0) == 2.0 && trig.cos(0.0) == 1.0 && rho <= 1.0
    ensures HeatValueAsWritten(trig, cs, ms, rho, 0.0) == rho + Pow(rho, 3)
    ensures HeatValue(trig, cs, ms, rho, 0.0) == 2.0 * rho + trig.sqrt(8.0) * Pow(rho, 3)
  {
    HeatSumPair(trig, cs, ms, rho, 0.0);
    FittedSumPair(trig, cs, ms, rho, 0.0);
    var tilt, trefoil := ms[0], ms[1];
    TopTerms(trig, tilt, rho);
    TopTerms(trig, trefoil, rho);
    PowLow(rho);
    assert Norm(trig, tilt.n, tilt.m) == 2.0;
    assert Norm(trig, trefoil.n, trefoil.m) == trig.sqrt(8.0);
  }

  /** `TiltTrefoil` with `rho^3` given as `p`. */
  lemma {:induction false} TiltTrefoilAt(trig: Trig, cs: seq<real>, ms: seq<Mode>, rho: real, p: real)
    requires cs == [1.0, 1.0] && ms == [Mode(1, 1), Mode(3, 3)]
    requires trig.sqrt(4.0) == 2.0 && trig.cos(0.0) == 1.0 && rho <= 1.0 && p == Pow(rho, 3)
    ensures HeatValueAsWritten(trig, cs, ms, rho, 0.0) == rho + p
    ensures HeatValue(trig, cs, ms, rho, 0.0) == 2.0 * rho + trig.sqrt(8.0) * p
  {
    TiltTrefoil(trig, cs, ms, rho);
  }

  /** `f == a * w + b`. */
  predicate AffinePair(a: real, b: real, w: real, f: real)
  {
    f == a * w + b
  }

  /** Finding: the pixel loop drops the normalisation, and the min/max
      rescaling does not hide it. The rescaling maps every value `v` to
      `(v - min) / range`, a positive affine map; for tilt plus trefoil no
      affine map takes the as-written values at `rho = 0, 1/2, 1` to the
      fitted ones, because the two modes' factors 2 and `sqrt(8)` differ. */
  lemma AsWrittenHeatDistortsShape(trig: Trig, cs: seq<real>, ms: seq<Mode>)
    requires cs == [1.0, 1.0] && ms == [Mode(1, 1), Mode(3, 3)]
    requires trig.sqrt(4.0) == 2.0 && trig.sqrt(8.0) * trig.sqrt(8.0) == 8.0 && trig.cos(0.0) == 1.0
    ensures forall a, b ::
      !(AffinePair(a, b, HeatValueAsWritten(trig, cs, ms, 0.0, 0.0), HeatValue(trig, cs, ms, 0.0, 0.0))
        && AffinePair(a, b, HeatValueAsWritten(trig, cs, ms, 0.5, 0.0), HeatValue(trig, cs, ms, 0.5, 0.0))
        && AffinePair(a, b, HeatValueAsWritten(trig, cs, ms, 1.0, 0.0), HeatValue(trig, cs, ms, 1.0, 0.0)))
  {
    var s := trig.sqrt(8.0);
    assert HeatValueAsWritten(trig, cs, ms, 0.0, 0.0) == 0.0 && HeatValue(trig, cs, ms, 0.0, 0.0) == 0.0 by {
      TiltTrefoilAt(trig, cs, ms, 0.0, 0.0);
    }
    assert HeatValueAsWritten(trig, cs, ms, 0.5, 0.0) == 0.625 && HeatValue(trig, cs, ms, 0.5, 0.0) == 1.0 + 0.125 * s by {
      TiltTrefoilAt(trig, cs, ms, 0.5, 0.125);
    }
    assert HeatValueAsWritten(trig, cs, ms, 1.0, 0.0) == 2.0 && HeatValue(trig, cs, ms, 1.0, 0.0) == 2.0 + s by {
      TiltTrefoilAt(trig, cs, ms, 1.0, 1.0);
    }
    NoAffineFit(s,
      HeatValueAsWritten(trig, cs, ms, 0.0, 0.0), HeatValue(trig, cs, ms, 0.0, 0.0),
      HeatValueAsWritten(trig, cs, ms, 0.5, 0.0), HeatValue(trig, cs, ms, 0.5, 0.0),
      HeatValueAsWritten(trig, cs, ms, 1.0, 0.0), HeatValue(trig, cs, ms, 1.0, 0.0));
  }

  /** With `s * s == 8`, no affine map takes `0, 0.625, 2` to
      `0, 1 + s/8, 2 + s`: it would force `s == 2`. */
  lemma NoAffineFit(s: real, w0: real, f0: real, w1: real, f1: real, w2: real, f2: real)
    requires s * s == 8.0
    requires w0 == 0.0 && f0 == 0.0 && w1 == 0.625 && f1 == 1.0 + 0.125 * s && w2 == 2.0 && f2 == 2.0 + s
    ensures forall a, b :: !(AffinePair(a, b, w0, f0) && AffinePair(a, b, w1, f1) && AffinePair(a, b, w2, f2))
  {
    forall a, b | AffinePair(a, b, w0, f0) && AffinePair(a, b, w1, f1)
      ensures !AffinePair(a, b, w2, f2)
    {
      assert a * 0.625 == 1.0 + 0.125 * s;
      assert a * 2.0 == 3.2 + 0.4 * s;
      assert s != 2.0 by {
        assert 2.0 * 2.0 != 8.0;
      }
    }
  }
}
