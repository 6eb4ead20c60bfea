/** The normalised Zernike basis used by the fit: factorials, the radial
    polynomial, the basis evaluated over sample points, and the ordered list
    of modes up to a maximal order. */
module ZernikeBasis {
  import opened Numeric

  /** A Double that may be NaN. */
  datatype Value = Num(x: real) | NaN

  /** One basis function, radial order `n` and azimuthal frequency `m`. */
  datatype Mode = Mode(n: int, m: int)

  function IAbs(m: int): (r: nat)
    ensures r == m || r == -m
  {
    if m < 0 then -m else m
  }

  /** A Zernike mode exists when `|m| <= n` and `n - |m|` is even. */
  predicate ValidMode(n: int, m: int)
  {
    IAbs(m) <= n && (n - IAbs(m)) % 2 == 0
  }

  /** `factorial`: 1 for `n <= 0`, otherwise `n * factorial(n - 1)`. */
  function Factorial(n: int): (r: real)
    ensures r >= 1.0
    ensures n <= 0 ==> r == 1.0
    decreases if n < 0 then 0 else n
  {
    if n <= 0 then 1.0 else n as real * Factorial(n - 1)
  }

  /** `sign * num / (a * b * c)` for factorial values `a, b, c >= 1`. */
  function Quotient(sign: real, num: real, a: real, b: real, c: real): real
    requires a >= 1.0 && b >= 1.0 && c >= 1.0
  {
    assert a * b >= 1.0 && a * b * c >= 1.0;
    sign * num / (a * b * c)
  }

  /** The `k`-th coefficient of the radial polynomial of `(n, |m|)`:
      `(-1)^k (n-k)! / (k! ((n+|m|)/2-k)! ((n-|m|)/2-k)!)`. */
  function RadialCoeff(n: int, am: int, k: nat): real
  {
    Quotient(Sign(k), Factorial(n - k), Factorial(k), Factorial((n + am) / 2 - k), Factorial((n - am) / 2 - k))
  }

  /** `cs[0] rho^n + cs[1] rho^(n-2) + ...` over the first `terms`
      coefficients, summed from `k = 0` up, as the accumulation loop does. */
  function PowerSum(cs: seq<real>, n: int, rho: real, terms: nat): real
    requires terms <= |cs| && 2 * (terms - 1) <= n
  {
    if terms == 0 then 0.0
    else PowerSum(cs, n, rho, terms - 1) + cs[terms - 1] * Pow(rho, n - 2 * (terms - 1))
  }

  /** A one-term power sum is its leading term. */
  lemma {:induction false} PowerSumOne(cs: seq<real>, n: int, rho: real)
    requires 1 <= |cs| && 0 <= n
    ensures PowerSum(cs, n, rho, 1) == cs[0] * Pow(rho, n)
  {
  }

  /** The number of terms of the radial polynomial of a valid mode. */
  function Terms(n: int, am: int): nat
    requires 0 <= am <= n
  {
    (n - am) / 2 + 1
  }

  /** The coefficients of the radial polynomial of `(n, |m|)`, `k = 0` first. */
  function RadialCoeffs(n: int, am: int): (cs: seq<real>)
    requires 0 <= am <= n
    ensures |cs| == Terms(n, am)
  {
    seq(Terms(n, am), k requires 0 <= k < Terms(n, am) => RadialCoeff(n, am, k))
  }

  /** The radial polynomial `R_n^|m|(rho)`. */
  function Radial(n: int, am: int, rho: real): real
    requires 0 <= am <= n
  {
    PowerSum(RadialCoeffs(n, am), n, rho, Terms(n, am))
  }

  /** `sqrt(n + 1)` for `m = 0`, `sqrt(2 (n + 1))` otherwise. */
  function Norm(trig: Trig, n: int, m: int): real
  {
    if m == 0 then trig.sqrt((n + 1) as real) else trig.sqrt(2.0 * (n + 1) as real)
  }

  /** `cos(m theta)` for `m >= 0`, `sin(|m| theta)` otherwise. */
  function Angular(trig: Trig, m: int, theta: real): real
  {
    if m >= 0 then trig.cos(m as real * theta) else trig.sin(IAbs(m) as real * theta)
  }

  /** Reference value of one basis function at one point: 0 for an invalid
      mode, NaN outside the unit disc, otherwise norm * R * angular. */
  function ZernikeAt(trig: Trig, n: int, m: int, rho: real, theta: real): Value
  {
    if !ValidMode(n, m) then Num(0.0)
    else if rho > 1.0 then NaN
    else Num(Norm(trig, n, m) * Radial(n, IAbs(m), rho) * Angular(trig, m, theta))
  }

  /** `zernikePolynomial`: the basis function `(n, m)` at every sample point.
      An invalid mode gives zeros (and never reads `theta`). */
  method ZernikePolynomial(trig: Trig, n: int, m: int, rho: seq<real>, theta: seq<real>) returns (z: seq<Value>)
    requires ValidMode(n, m) ==> |theta| >= |rho|
    ensures |z| == |rho|
    ensures !ValidMode(n, m) ==> forall i :: 0 <= i < |z| ==> z[i] == Num(0.0)
    ensures ValidMode(n, m) ==> forall i :: 0 <= i < |z| ==> z[i] == ZernikeAt(trig, n, m, rho[i], theta[i])
    ensures ValidMode(n, m) ==> forall i :: 0 <= i < |z| ==> (z[i] == NaN <==> rho[i] > 1.0)
  {
    if !ValidMode(n, m) {
      return seq(|rho|, _ => Num(0.0));
    }
    var r := RadialValues(n, IAbs(m), rho);
    var norm := Norm(trig, n, m);
    z := seq(|rho|, _ => Num(0.0));
    for i := 0 to |rho|
      invariant |z| == |rho|
      invariant forall i' :: 0 <= i' < i ==> z[i'] == ZernikeAt(trig, n, m, rho[i'], theta[i'])
    {
      var angular := Angular(trig, m, theta[i]);
      z := z[i := Num(norm * r[i] * angular)];
      if rho[i] > 1.0 {
        z := z[i := NaN];
      }
    }
  }

  /** The radial loop. The coefficient of step `k` does not depend on the
      samples, so it is read from the coefficient list. */
  method RadialValues(n: int, am: nat, rho: seq<real>) returns (r: seq<real>)
    requires am <= n
    ensures |r| == |rho|
    ensures forall i :: 0 <= i < |rho| ==> r[i] == Radial(n, am, rho[i])
  {
    r := AccumulatePowers(RadialCoeffs(n, am), n, rho);
  }

  /** For each `k`, add `cs[k] * rho^(n-2k)` at every sample. */
  method AccumulatePowers(cs: seq<real>, n: int, rho: seq<real>) returns (r: seq<real>)
    requires 2 * (|cs| - 1) <= n
    ensures |r| == |rho|
    ensures forall i :: 0 <= i < |rho| ==> r[i] == PowerSum(cs, n, rho[i], |cs|)
  {
    r := seq(|rho|, _ => 0.0);
    for k := 0 to |cs|
      invariant |r| == |rho|
      invariant forall i :: 0 <= i < |rho| ==> r[i] == PowerSum(cs, n, rho[i], k)
    {
      var coeff := cs[k];
      for i := 0 to |rho|
        invariant |r| == |rho|
        invariant forall i' :: 0 <= i' < i ==> r[i'] == PowerSum(cs, n, rho[i'], k + 1)
        invariant forall i' :: i <= i' < |rho| ==> r[i'] == PowerSum(cs, n, rho[i'], k)
      {
        r := r[i := r[i] + coeff * Pow(rho[i], n - 2 * k)];
      }
    }
  }

  /** A power sum whose every power is positive vanishes at the centre. */
  lemma {:induction false} PowerSumAtCentre(cs: seq<real>, n: int, terms: nat)
    requires terms <= |cs| && 2 * (terms - 1) < n
    ensures PowerSum(cs, n, 0.0, terms) == 0.0
  {
    if terms > 0 {
      PowerSumAtCentre(cs, n, terms - 1);
      PowZero(n - 2 * (terms - 1));
    }
  }

  /** Every power in the radial polynomial of a mode with `m != 0` is at
      least `|m|`, so the polynomial vanishes at the centre. */
  lemma RadialAtCentre(n: int, am: int)
    requires 0 < am <= n
    ensures Radial(n, am, 0.0) == 0.0
  {
    PowerSumAtCentre(RadialCoeffs(n, am), n, Terms(n, am));
  }

  /** Inside the unit disc (in particular for every normalised radius) the
      basis is a number, never NaN. */
  lemma ZernikeInDiscIsNumber(trig: Trig, n: int, m: int, rho: real, theta: real)
    requires rho <= 1.0
    ensures ZernikeAt(trig, n, m, rho, theta).Num?
  {
  }

  // ---- mode enumeration ----

  /** The modes of order `n`, `m = -n, -n+2, ..., n`. */
  function OrderModes(n: nat): (ms: seq<Mode>)
    ensures |ms| == n + 1
  {
    seq(n + 1, t requires 0 <= t <= n => Mode(n, 2 * t - n))
  }

  /** The enumeration loop of `analyzePolarData`: orders `0 .. maxOrder`,
      each with its `m` from `-n` to `n`, keeping those with `n - |m|` even. */
  function ModeList(maxOrder: nat): seq<Mode>
  {
    if maxOrder == 0 then OrderModes(0) else ModeList(maxOrder - 1) + OrderModes(maxOrder)
  }

  /** Lexicographic order on modes: by `n`, then by `m`. */
  predicate ModeBefore(a: Mode, b: Mode)
  {
    a.n < b.n || (a.n == b.n && a.m < b.m)
  }

  /** The modes of one order are exactly the valid `m` of that order, in
      ascending order. */
  lemma OrderModesExact(n: nat, m: int)
    ensures Mode(n, m) in OrderModes(n) <==> ValidMode(n, m)
    ensures forall t, t' :: 0 <= t < t' <= n ==> OrderModes(n)[t].m < OrderModes(n)[t'].m
  {
    if ValidMode(n, m) {
      var t := (m + n) / 2;
      assert OrderModes(n)[t] == Mode(n, m);
    }
  }

  /** Every enumerated mode is valid and of order at most `maxOrder`. */
  lemma {:induction false} ModeListValid(maxOrder: nat)
    ensures forall i :: 0 <= i < |ModeList(maxOrder)| ==>
      ValidMode(ModeList(maxOrder)[i].n, ModeList(maxOrder)[i].m) && 0 <= ModeList(maxOrder)[i].n <= maxOrder
  {
    var ml := ModeList(maxOrder);
    forall i | 0 <= i < |ml|
      ensures ValidMode(ml[i].n, ml[i].m) && 0 <= ml[i].n <= maxOrder
    {
      if maxOrder > 0 && i < |ModeList(maxOrder - 1)| {
        ModeListValid(maxOrder - 1);
        assert ml[i] == ModeList(maxOrder - 1)[i];
      } else {
        var t := if maxOrder == 0 then i else i - |ModeList(maxOrder - 1)|;
        assert ml[i] == OrderModes(maxOrder)[t];
        assert ml[i].m + maxOrder == 2 * t;
      }
    }
  }

  /** The enumeration is strictly increasing in (n, m): no duplicates, orders
      ascending, `m` ascending within an order. */
  lemma {:induction false} ModeListSorted(maxOrder: nat)
    ensures forall i, j :: 0 <= i < j < |ModeList(maxOrder)| ==> ModeBefore(ModeList(maxOrder)[i], ModeList(maxOrder)[j])
  {
    var ml := ModeList(maxOrder);
    if maxOrder > 0 {
      var prev := ModeList(maxOrder - 1);
      ModeListSorted(maxOrder - 1);
      ModeListValid(maxOrder - 1);
      forall i, j | 0 <= i < j < |ml|
        ensures ModeBefore(ml[i], ml[j])
      {
        if j < |prev| {
          assert ml[i] == prev[i] && ml[j] == prev[j];
        } else if i < |prev| {
          assert ml[i] == prev[i] && ml[j].n == maxOrder;
        } else {
          assert ml[i] == OrderModes(maxOrder)[i - |prev|] && ml[j] == OrderModes(maxOrder)[j - |prev|];
        }
      }
    }
  }

  /** Every valid mode of order at most `maxOrder` is enumerated. */
  lemma {:induction false} ModeListComplete(maxOrder: nat, n: int, m: int)
    requires 0 <= n <= maxOrder && ValidMode(n, m)
    ensures Mode(n, m) in ModeList(maxOrder)
  {
    OrderModesExact(n, m);
    if n < maxOrder {
      ModeListComplete(maxOrder - 1, n, m);
    }
  }

  /** `(N+1)(N+2)/2` modes up to order `N`. */
  lemma {:induction false} ModeListCount(maxOrder: nat)
    ensures |ModeList(maxOrder)| == (maxOrder + 1) * (maxOrder + 2) / 2
  {
    if maxOrder > 0 {
      ModeListCount(maxOrder - 1);
      assert maxOrder * (maxOrder + 1) + 2 * (maxOrder + 1) == (maxOrder + 1) * (maxOrder + 2);
    }
  }

  /** The default order 6 gives 28 modes. */
  lemma DefaultModeCount()
    ensures |ModeList(6)| == 28
  {
    ModeListCount(6);
  }
}
