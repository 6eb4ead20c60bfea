/** Exact-arithmetic stand-ins for the Double helpers the pipeline uses.
    Doubles are modelled as `real`; IEEE rounding is not modelled. */
module Numeric {

  /** The Double value of `.pi`, as an exact rational. */
  const Pi: real := 3.141592653589793

  /** The transcendental functions the pipeline calls. They are not computable
      over `real`, so every operation that needs them receives them as data. */
  datatype Trig = Trig(cos: real -> real, sin: real -> real, sqrt: real -> real, atan2: (real, real) -> real)

  /** cos and sin stay within [-1, 1]. */
  ghost predicate BoundedTrig(t: Trig)
  {
    forall a: real :: -1.0 <= t.cos(a) <= 1.0 && -1.0 <= t.sin(a) <= 1.0
  }

  /** sqrt returns the non-negative square root of a non-negative argument. */
  ghost predicate ExactSqrt(t: Trig)
  {
    forall a: real :: 0.0 <= a ==> 0.0 <= t.sqrt(a) && t.sqrt(a) * t.sqrt(a) == a
  }

  function Abs(x: real): (r: real)
    ensures 0.0 <= r && (r == x || r == -x)
  {
    if x < 0.0 then -x else x
  }

  function Min(a: real, b: real): (r: real)
    ensures r <= a && r <= b && (r == a || r == b)
  {
    if a <= b then a else b
  }

  function Max(a: real, b: real): (r: real)
    ensures a <= r && b <= r && (r == a || r == b)
  {
    if a >= b then a else b
  }

  function IMin(a: int, b: int): (r: int)
    ensures r <= a && r <= b && (r == a || r == b)
  {
    if a <= b then a else b
  }

  /** `pow(x, Double(n))` for a natural exponent. */
  function Pow(x: real, n: nat): real
  {
    if n == 0 then 1.0 else x * Pow(x, n - 1)
  }

  /** `pow(-1.0, Double(k))`. */
  function Sign(k: nat): (r: real)
    ensures r == 1.0 || r == -1.0
    ensures k % 2 == 0 <==> r == 1.0
  {
    if k == 0 then 1.0 else -Sign(k - 1)
  }

  /** `xs.reduce(0.0, +)`: the running total from the left. */
  function Sum(xs: seq<real>): real
  {
    if |xs| == 0 then 0.0 else Sum(xs[..|xs| - 1]) + xs[|xs| - 1]
  }

  /** Arithmetic mean, `reduce(0.0, +) / Double(count)`. */
  function Mean(xs: seq<real>): real
    requires |xs| > 0
  {
    Sum(xs) / (|xs| as real)
  }

  /** Swift `Int(x)` on a Double: truncation toward zero. */
  function Trunc(x: real): (r: int)
    ensures 0.0 <= x ==> r == x.Floor
    ensures x < 0.0 ==> r == -((-x).Floor)
  {
    if x >= 0.0 then x.Floor else -((-x).Floor)
  }

  /** Swift `round(x)`: to nearest, halfway cases away from zero. */
  function Round(x: real): (r: int)
    ensures Abs(x - r as real) <= 0.5
  {
    if x >= 0.0 then (x + 0.5).Floor else -((-x + 0.5).Floor)
  }

  /** Swift `%` on Int: the remainder takes the sign of the dividend. */
  function SwiftRem(a: int, b: int): (r: int)
    requires b > 0
    ensures a >= 0 ==> 0 <= r < b
    ensures a < 0 ==> -b < r <= 0
    ensures a >= 0 ==> r == a % b
    ensures a < 0 ==> r == -((-a) % b)
  {
    if a >= 0 then a % b else -((-a) % b)
  }

  /** The least member of a non-empty list. */
  function SeqMin(xs: seq<real>): (r: real)
    requires |xs| > 0
    ensures r in xs
    ensures forall i :: 0 <= i < |xs| ==> r <= xs[i]
  {
    if |xs| == 1 then xs[0] else Min(SeqMin(xs[..|xs| - 1]), xs[|xs| - 1])
  }

  /** The greatest member of a non-empty list. */
  function SeqMax(xs: seq<real>): (r: real)
    requires |xs| > 0
    ensures r in xs
    ensures forall i :: 0 <= i < |xs| ==> xs[i] <= r
  {
    if |xs| == 1 then xs[0] else Max(SeqMax(xs[..|xs| - 1]), xs[|xs| - 1])
  }

  /** Sum of a list of integers. */
  function ISum(xs: seq<int>): int
  {
    if |xs| == 0 then 0 else ISum(xs[..|xs| - 1]) + xs[|xs| - 1]
  }

  // ---- facts about the helpers ----

  /** The zeroth and first powers. */
  lemma PowLow(x: real)
    ensures Pow(x, 0) == 1.0
    ensures Pow(x, 1) == x
  {
  }

  lemma {:induction false} PowZero(n: nat)
    requires n > 0
    ensures Pow(0.0, n) == 0.0
  {
  }

  lemma {:induction false} PowNonNegative(x: real, n: nat)
    requires 0.0 <= x
    ensures 0.0 <= Pow(x, n)
  {
    if n > 0 {
      PowNonNegative(x, n - 1);
    }
  }

  lemma {:induction false} SumAppend(xs: seq<real>, x: real)
    ensures Sum(xs + [x]) == Sum(xs) + x
  {
    assert (xs + [x])[..|xs|] == xs;
  }

  /** The mean of a non-empty list lies between its least and greatest member. */
  lemma {:induction false} SumBounds(xs: seq<real>, lo: real, hi: real)
    requires forall i :: 0 <= i < |xs| ==> lo <= xs[i] <= hi
    ensures (|xs| as real) * lo <= Sum(xs) <= (|xs| as real) * hi
  {
    if |xs| > 0 {
      SumBounds(xs[..|xs| - 1], lo, hi);
    }
  }

  lemma MeanBounds(xs: seq<real>, lo: real, hi: real)
    requires |xs| > 0
    requires forall i :: 0 <= i < |xs| ==> lo <= xs[i] <= hi
    ensures lo <= Mean(xs) <= hi
  {
    SumBounds(xs, lo, hi);
    var n := |xs| as real;
    assert n > 0.0;
    assert Sum(xs) / n >= lo by {
      assert Sum(xs) >= n * lo;
    }
    assert Sum(xs) / n <= hi by {
      assert Sum(xs) <= n * hi;
    }
  }

  /** Scaling by a factor in [-1, 1] keeps a non-negative value within its
      own magnitude. */
  lemma MulBetween(r: real, c: real)
    requires 0.0 <= r && -1.0 <= c <= 1.0
    ensures -r <= r * c <= r
  {
    if c >= 0.0 {
      assert r * c <= r * 1.0;
    } else {
      assert r * c >= r * -1.0;
    }
  }

  /** `k * m / n` is a fraction of `m` when `0 <= k <= n`. */
  lemma FractionOf(k: real, n: real, m: real)
    requires 0.0 <= k <= n && 0.0 < n && 0.0 <= m
    ensures 0.0 <= k * m / n <= m
  {
    assert k * m <= n * m;
    assert k * m / n <= n * m / n;
  }

  /** Dividing by a positive `d` keeps a value at most `d` at most 1, and a
      non-negative value non-negative. */
  lemma DivAtMostOne(x: real, d: real)
    requires 0.0 < d && x <= d
    ensures x / d <= 1.0
    ensures 0.0 <= x ==> 0.0 <= x / d
  {
    var q := x / d;
    assert q * d == x;
  }

  /** Dividing by a positive number preserves order in both directions. */
  lemma DivMonotone(a: real, b: real, d: real)
    requires 0.0 < d
    ensures a <= b <==> a / d <= b / d
  {
    var p, q := a / d, b / d;
    assert p * d == a && q * d == b;
    if p <= q {
      assert p * d <= q * d;
    } else {
      assert q * d < p * d;
    }
  }
}
