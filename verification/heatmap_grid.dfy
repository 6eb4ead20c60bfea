/** The two passes of the heatmap's pixel loop: the surface evaluated at
    every pixel inside the analysis circle, then the min/max rescaling of the
    values inside the circle to [0, 1]. */
module HeatmapGrid {
  import opened Numeric
  import opened ZernikeBasis
  import opened RingScanner
  import opened Heatmap

  /** `pixelData[y][x]`: `height` rows of `width` values. */
  type Grid = seq<seq<real>>

  /** Which pixels lie inside the circle, in the same layout. */
  type Mask = seq<seq<bool>>

  predicate Shaped<T>(g: seq<seq<T>>, w: nat, h: nat)
  {
    |g| == h && forall y :: 0 <= y < h ==> |g[y]| == w
  }

  predicate SameShape(g: Grid, m: Mask)
  {
    |g| == |m| && forall y :: 0 <= y < |g| ==> |g[y]| == |m[y]|
  }

  // ---- first pass: the surface at every pixel ----

  /** `sqrt(dx * dx + dy * dy)` from the circle's centre to pixel `(x, y)`. */
  function PixelR(trig: Trig, c: Geometry, x: int, y: int): real
  {
    var dx := x as real - c.cx;
    var dy := y as real - c.cy;
    trig.sqrt(dx * dx + dy * dy)
  }

  /** `atan2(dy, dx)`. */
  function PixelTheta(trig: Trig, c: Geometry, x: int, y: int): real
  {
    trig.atan2(y as real - c.cy, x as real - c.cx)
  }

  /** `r <= radius`. */
  predicate Inside(trig: Trig, c: Geometry, x: int, y: int)
  {
    PixelR(trig, c, x, y) <= c.maxRadius
  }

  function CircleMask(trig: Trig, c: Geometry, w: nat, h: nat): (m: Mask)
    ensures Shaped(m, w, h)
  {
    seq(h, y requires 0 <= y < h => seq(w, x requires 0 <= x < w => Inside(trig, c, x, y)))
  }

  /** The first pass: inside the circle the surface `f` at the normalised
      radius `r / radius` and angle `atan2(dy, dx)`, outside the initial 0. */
  function RawGrid(trig: Trig, f: (real, real) -> real, c: Geometry, w: nat, h: nat): (g: Grid)
    requires c.maxRadius > 0.0
    ensures Shaped(g, w, h)
  {
    seq(h, y requires 0 <= y < h => seq(w, x requires 0 <= x < w =>
      if Inside(trig, c, x, y) then f(PixelR(trig, c, x, y) / c.maxRadius, PixelTheta(trig, c, x, y)) else 0.0))
  }

  /** Every pixel the first pass evaluates has normalised radius at most 1
      (and at least 0 when the square root is exact), so the surface is never
      asked for a point outside the unit disc; pixels outside stay 0. */
  lemma RawGridPixel(trig: Trig, f: (real, real) -> real, c: Geometry, w: nat, h: nat, x: nat, y: nat)
    requires c.maxRadius > 0.0 && x < w && y < h
    ensures !Inside(trig, c, x, y) ==> RawGrid(trig, f, c, w, h)[y][x] == 0.0
    ensures Inside(trig, c, x, y) ==>
      var rho := PixelR(trig, c, x, y) / c.maxRadius;
      && rho <= 1.0
      && (ExactSqrt(trig) ==> 0.0 <= rho)
      && RawGrid(trig, f, c, w, h)[y][x] == f(rho, PixelTheta(trig, c, x, y))
  {
    if Inside(trig, c, x, y) {
      if ExactSqrt(trig) {
        PixelRNonNegative(trig, c, x, y);
      }
      DivAtMostOne(PixelR(trig, c, x, y), c.maxRadius);
    }
  }

  lemma PixelRNonNegative(trig: Trig, c: Geometry, x: int, y: int)
    requires ExactSqrt(trig)
    ensures PixelR(trig, c, x, y) >= 0.0
  {
    var dx := x as real - c.cx;
    var dy := y as real - c.cy;
    var a := dx * dx + dy * dy;
    assert a >= 0.0;
    assert trig.sqrt(a) >= 0.0;
  }

  /** With the corrected per-pixel sum and the fitted coefficients and
      modes, every pixel inside the circle carries the fitted surface. */
  lemma {:induction false} RawGridIsFitSurface(trig: Trig, coeffs: seq<real>, maxOrder: nat, c: Geometry, w: nat, h: nat, x: nat, y: nat)
    requires |coeffs| == |ModeList(maxOrder)| && c.maxRadius > 0.0 && x < w && y < h
    requires Inside(trig, c, x, y)
    ensures var rho := PixelR(trig, c, x, y) / c.maxRadius;
      rho <= 1.0
      && RawGrid(trig, (r, t) => HeatValue(trig, coeffs, ModeList(maxOrder), r, t), c, w, h)[y][x]
         == FitSurface(trig, coeffs, ModeList(maxOrder), rho, PixelTheta(trig, c, x, y), |coeffs|)
  {
    var f := (r, t) => HeatValue(trig, coeffs, ModeList(maxOrder), r, t);
    RawGridPixel(trig, f, c, w, h, x, y);
    HeatValueIsFitSurface(trig, coeffs, maxOrder, PixelR(trig, c, x, y) / c.maxRadius, PixelTheta(trig, c, x, y));
  }

  // ---- the values inside the circle ----

  /** The values of one row at the masked positions, left to right. */
  function RowInside(row: seq<real>, mrow: seq<bool>): seq<real>
    requires |row| == |mrow|
  {
    if |row| == 0 then []
    else (if mrow[0] then [row[0]] else []) + RowInside(row[1..], mrow[1..])
  }

  /** The values at all masked positions in the pixel loop's row-major
      order: the values `min` and `max` are taken over. */
  function InsideValues(g: Grid, m: Mask): seq<real>
    requires SameShape(g, m)
  {
    if |g| == 0 then []
    else RowInside(g[0], m[0]) + InsideValues(g[1..], m[1..])
  }

  lemma {:induction false} RowListed(row: seq<real>, mrow: seq<bool>, x: nat)
    requires |row| == |mrow| && x < |row| && mrow[x]
    ensures row[x] in RowInside(row, mrow)
  {
    if x > 0 {
      RowListed(row[1..], mrow[1..], x - 1);
    }
  }

  lemma {:induction false} RowListedInside(row: seq<real>, mrow: seq<bool>, v: real)
    requires |row| == |mrow| && v in RowInside(row, mrow)
    ensures exists x :: 0 <= x < |row| && mrow[x] && row[x] == v
  {
    if !(mrow[0] && row[0] == v) {
      assert v in RowInside(row[1..], mrow[1..]);
      RowListedInside(row[1..], mrow[1..], v);
      var x :| 0 <= x < |row| - 1 && mrow[1..][x] && row[1..][x] == v;
      assert mrow[x + 1] && row[x + 1] == v;
    }
  }

  /** Every pixel inside the circle takes part in the min/max. */
  lemma {:induction false} InsideListed(g: Grid, m: Mask, y: nat, x: nat)
    requires SameShape(g, m) && y < |g| && x < |g[y]| && m[y][x]
    ensures g[y][x] in InsideValues(g, m)
  {
    if y == 0 {
      RowListed(g[0], m[0], x);
    } else {
      InsideListed(g[1..], m[1..], y - 1, x);
    }
  }

  /** Only pixels inside the circle take part in the min/max. */
  lemma {:induction false} ListedInside(g: Grid, m: Mask, v: real)
    requires SameShape(g, m) && v in InsideValues(g, m)
    ensures exists y, x :: 0 <= y < |g| && 0 <= x < |g[y]| && m[y][x] && g[y][x] == v
  {
    if v in RowInside(g[0], m[0]) {
      RowListedInside(g[0], m[0], v);
      var x :| 0 <= x < |g[0]| && m[0][x] && g[0][x] == v;
      assert 0 <= 0 < |g| && m[0][x] && g[0][x] == v;
    } else {
      assert v in InsideValues(g[1..], m[1..]);
      ListedInside(g[1..], m[1..], v);
      var y, x :| 0 <= y < |g| - 1 && 0 <= x < |g[1..][y]| && m[1..][y][x] && g[1..][y][x] == v;
      assert m[y + 1][x] && g[y + 1][x] == v;
    }
  }

  // ---- second pass: min/max rescaling ----

  /** The rescaling runs when some pixel is inside and `max - min > 0`.
      With no pixel inside, `min` and `max` stay at `+inf` and `-inf` and
      the range is negative. */
  predicate Rescales(g: Grid, m: Mask)
    requires SameShape(g, m)
  {
    var vals := InsideValues(g, m);
    |vals| > 0 && SeqMax(vals) - SeqMin(vals) > 0.0
  }

  function Low(g: Grid, m: Mask): real
    requires SameShape(g, m) && Rescales(g, m)
  {
    SeqMin(InsideValues(g, m))
  }

  function Spread(g: Grid, m: Mask): (range: real)
    requires SameShape(g, m) && Rescales(g, m)
    ensures range > 0.0
  {
    SeqMax(InsideValues(g, m)) - SeqMin(InsideValues(g, m))
  }

  /** The second pass as written: an inside value is rescaled only when it
      is not exactly 0.0; an outside value is set to 0. */
  function RescaleAsWritten(g: Grid, m: Mask): (out: Grid)
    requires SameShape(g, m)
    ensures SameShape(out, m)
  {
    if !Rescales(g, m) then g
    else
      var lo, range := Low(g, m), Spread(g, m);
      seq(|g|, y requires 0 <= y < |g| => seq(|g[y]|, x requires 0 <= x < |g[y]| =>
        if m[y][x] && g[y][x] != 0.0 then (g[y][x] - lo) / range
        else if !m[y][x] then 0.0
        else g[y][x]))
  }

  /** The corrected second pass: every inside value is rescaled. */
  function Rescale(g: Grid, m: Mask): (out: Grid)
    requires SameShape(g, m)
    ensures SameShape(out, m)
  {
    if !Rescales(g, m) then g
    else
      var lo, range := Low(g, m), Spread(g, m);
      seq(|g|, y requires 0 <= y < |g| => seq(|g[y]|, x requires 0 <= x < |g[y]| =>
        if m[y][x] then (g[y][x] - lo) / range else 0.0))
  }

  lemma RescaleAt(g: Grid, m: Mask, y: nat, x: nat)
    requires SameShape(g, m) && Rescales(g, m) && y < |g| && x < |g[y]|
    ensures m[y][x] ==> Rescale(g, m)[y][x] == (g[y][x] - Low(g, m)) / Spread(g, m)
    ensures !m[y][x] ==> Rescale(g, m)[y][x] == 0.0
  {
    var lo, range := Low(g, m), Spread(g, m);
    assert Rescale(g, m)[y] == seq(|g[y]|, x requires 0 <= x < |g[y]| =>
      if m[y][x] then (g[y][x] - lo) / range else 0.0);
  }

  /** Without a positive range both passes leave the values as they are. */
  lemma NoRangeUnchanged(g: Grid, m: Mask)
    requires SameShape(g, m) && !Rescales(g, m)
    ensures Rescale(g, m) == g && RescaleAsWritten(g, m) == g
  {
  }

  /** After rescaling, inside values lie in [0, 1]; outside values are 0. */
  lemma RescaleBounds(g: Grid, m: Mask, y: nat, x: nat)
    requires SameShape(g, m) && Rescales(g, m) && y < |g| && x < |g[y]|
    ensures !m[y][x] ==> Rescale(g, m)[y][x] == 0.0
    ensures m[y][x] ==> 0.0 <= Rescale(g, m)[y][x] <= 1.0
  {
    RescaleAt(g, m, y, x);
    if m[y][x] {
      LowHigh(g, m, y, x);
      UnitRescale(g[y][x], Low(g, m), Spread(g, m), Rescale(g, m)[y][x]);
    }
  }

  /** Rescaling loses nothing inside the circle: the raw value is
      `min + value * range`. */
  lemma RescaleInverse(g: Grid, m: Mask, y: nat, x: nat)
    requires SameShape(g, m) && Rescales(g, m) && y < |g| && x < |g[y]| && m[y][x]
    ensures g[y][x] == Low(g, m) + Rescale(g, m)[y][x] * Spread(g, m)
  {
    RescaleAt(g, m, y, x);
    Recover(g[y][x], Low(g, m), Spread(g, m), Rescale(g, m)[y][x]);
  }

  /** A value between `lo` and `lo + range`, rescaled to `r`, lies in [0, 1]
      and is recovered as `lo + r * range`. */
  lemma UnitRescale(v: real, lo: real, range: real, r: real)
    requires lo <= v <= lo + range && range > 0.0 && r == (v - lo) / range
    ensures 0.0 <= r <= 1.0 && v == lo + r * range
  {
    UnitFraction(v, lo, lo + range);
    assert lo + range - lo == range;
  }

  /** Every inside value lies between the minimum and the maximum. */
  lemma LowHigh(g: Grid, m: Mask, y: nat, x: nat)
    requires SameShape(g, m) && Rescales(g, m) && y < |g| && x < |g[y]| && m[y][x]
    ensures Low(g, m) <= g[y][x] <= Low(g, m) + Spread(g, m)
  {
    InsideListed(g, m, y, x);
  }

  /** Multiplying back by the range undoes the division. */
  lemma Recover(v: real, lo: real, range: real, r: real)
    requires range > 0.0 && r == (v - lo) / range
    ensures v == lo + r * range
  {
  }

  /** `(v - lo) / (hi - lo)` lies in [0, 1] and gives `v` back. */
  lemma UnitFraction(v: real, lo: real, hi: real)
    requires lo <= v <= hi && lo < hi
    ensures 0.0 <= (v - lo) / (hi - lo) <= 1.0
    ensures v == lo + (v - lo) / (hi - lo) * (hi - lo)
  {
    DivAtMostOne(v - lo, hi - lo);
    var q := (v - lo) / (hi - lo);
    assert q * (hi - lo) == v - lo;
  }

  /** Rescaling keeps the order of the inside values, in both directions. */
  lemma RescaleOrder(g: Grid, m: Mask, y1: nat, x1: nat, y2: nat, x2: nat)
    requires SameShape(g, m) && Rescales(g, m)
    requires y1 < |g| && x1 < |g[y1]| && m[y1][x1]
    requires y2 < |g| && x2 < |g[y2]| && m[y2][x2]
    ensures g[y1][x1] <= g[y2][x2] <==> Rescale(g, m)[y1][x1] <= Rescale(g, m)[y2][x2]
  {
    RescaleAt(g, m, y1, x1);
    RescaleAt(g, m, y2, x2);
    DivMonotone(g[y1][x1] - Low(g, m), g[y2][x2] - Low(g, m), Spread(g, m));
  }

  /** The minimum and the maximum are values of inside pixels. */
  lemma AttainsBounds(g: Grid, m: Mask)
    requires SameShape(g, m) && Rescales(g, m)
    ensures exists y, x :: 0 <= y < |g| && 0 <= x < |g[y]| && m[y][x] && g[y][x] == Low(g, m)
    ensures exists y, x :: 0 <= y < |g| && 0 <= x < |g[y]| && m[y][x] && g[y][x] == Low(g, m) + Spread(g, m)
  {
    var vals := InsideValues(g, m);
    ListedInside(g, m, SeqMin(vals));
    ListedInside(g, m, SeqMax(vals));
  }

  /** An inside pixel holding the minimum rescales to 0. */
  lemma RescaleLow(g: Grid, m: Mask, y: nat, x: nat)
    requires SameShape(g, m) && Rescales(g, m) && y < |g| && x < |g[y]|
    requires m[y][x] && g[y][x] == Low(g, m)
    ensures Rescale(g, m)[y][x] == 0.0
  {
    RescaleAt(g, m, y, x);
  }

  /** An inside pixel holding the maximum rescales to 1. */
  lemma RescaleHigh(g: Grid, m: Mask, y: nat, x: nat)
    requires SameShape(g, m) && Rescales(g, m) && y < |g| && x < |g[y]|
    requires m[y][x] && g[y][x] == Low(g, m) + Spread(g, m)
    ensures Rescale(g, m)[y][x] == 1.0
  {
    RescaleAt(g, m, y, x);
    SelfRatio(g[y][x] - Low(g, m), Spread(g, m));
  }

  lemma SelfRatio(a: real, b: real)
    requires b > 0.0 && a == b
    ensures a / b == 1.0
  {
  }

  /** The lowest inside value becomes 0 and the highest 1. */
  lemma RescaleExtremes(g: Grid, m: Mask)
    requires SameShape(g, m) && Rescales(g, m)
    ensures exists y, x :: 0 <= y < |g| && 0 <= x < |g[y]| && m[y][x] && Rescale(g, m)[y][x] == 0.0
    ensures exists y, x :: 0 <= y < |g| && 0 <= x < |g[y]| && m[y][x] && Rescale(g, m)[y][x] == 1.0
  {
    AttainsBounds(g, m);
    var y0, x0 :| 0 <= y0 < |g| && 0 <= x0 < |g[y0]| && m[y0][x0] && g[y0][x0] == Low(g, m);
    var y1, x1 :| 0 <= y1 < |g| && 0 <= x1 < |g[y1]| && m[y1][x1] && g[y1][x1] == Low(g, m) + Spread(g, m);
    RescaleLow(g, m, y0, x0);
    RescaleHigh(g, m, y1, x1);
  }

  /** The two second passes differ only at inside pixels whose raw value is
      exactly 0.0: the code leaves those at 0 where the rescaling gives
      `-min / range`, which is positive whenever 0 is not the minimum. */
  lemma AsWrittenSkipsInsideZeros(g: Grid, m: Mask, y: nat, x: nat)
    requires SameShape(g, m) && y < |g| && x < |g[y]|
    ensures !(m[y][x] && g[y][x] == 0.0) ==> RescaleAsWritten(g, m)[y][x] == Rescale(g, m)[y][x]
    ensures m[y][x] && g[y][x] == 0.0 ==> RescaleAsWritten(g, m)[y][x] == 0.0
    ensures m[y][x] && g[y][x] == 0.0 && Rescales(g, m) ==>
      Rescale(g, m)[y][x] == -Low(g, m) / Spread(g, m)
  {
  }

  /** Finding: the row `[-1, 0, 1]`, all inside the circle, rescales to
      `[0, 0, 1]` as written instead of `[0, 0.5, 1]`. */
  lemma InsideZeroExample()
    ensures RescaleAsWritten([[-1.0, 0.0, 1.0]], [[true, true, true]]) == [[0.0, 0.0, 1.0]]
    ensures Rescale([[-1.0, 0.0, 1.0]], [[true, true, true]]) == [[0.0, 0.5, 1.0]]
  {
    var g, m := [[-1.0, 0.0, 1.0]], [[true, true, true]];
    assert InsideValues(g[1..], m[1..]) == [];
    assert RowInside(g[0][1..][1..], m[0][1..][1..]) == [1.0];
    assert RowInside(g[0][1..], m[0][1..]) == [0.0, 1.0];
    assert InsideValues(g, m) == [-1.0, 0.0, 1.0];
    assert Low(g, m) == -1.0 && Spread(g, m) == 2.0;
    var out, aw := Rescale(g, m), RescaleAsWritten(g, m);
    RescaleAt(g, m, 0, 0);
    RescaleAt(g, m, 0, 1);
    RescaleAt(g, m, 0, 2);
    AsWrittenSkipsInsideZeros(g, m, 0, 0);
    AsWrittenSkipsInsideZeros(g, m, 0, 1);
    AsWrittenSkipsInsideZeros(g, m, 0, 2);
    assert out[0] == [0.0, 0.5, 1.0];
    assert aw[0] == [0.0, 0.0, 1.0];
  }
}
