/** Subpixel sampling of the ring photograph: the near-white predicate, the
    per-corner intensity and bilinear interpolation between four pixels. */
module PixelSampler {
  import opened Numeric
  import opened Optional

  newtype Byte = x: int | 0 <= x < 256

  /** A bitmap as the pixel reader delivers it: row-major, four bytes
      (R, G, B, A) per pixel. */
  datatype Image = Image(width: int, height: int, data: seq<Byte>)

  predicate WellFormed(img: Image)
  {
    && 0 <= img.width
    && 0 <= img.height
    && |img.data| == img.width * img.height * 4
  }

  const ColorThreshold: real := 150.0
  const AlphaThreshold: real := 128.0

  /** The ring-bright test (named `isRedPixelDouble` in the source although it
      accepts near-white pixels): all three colour channels at least 150 and
      alpha at least 128. */
  predicate IsNearWhite(r: real, g: real, b: real, a: real)
  {
    r >= ColorThreshold && g >= ColorThreshold && b >= ColorThreshold && a >= AlphaThreshold
  }

  /** The older red-dominant test on raw bytes (`isRedPixel`, no longer called
      by the sampler). */
  predicate IsRedDominant(r: Byte, g: Byte, b: Byte, a: Byte)
  {
    r >= 100 && g <= 80 && b <= 80 && a >= 128 && r > g && r > b
  }

  /** The dominance clauses `r > g && r > b` add nothing: the thresholds
      already force them. */
  lemma RedDominanceIsImpliedByThresholds(r: Byte, g: Byte, b: Byte, a: Byte)
    ensures IsRedDominant(r, g, b, a) <==> (r >= 100 && g <= 80 && b <= 80 && a >= 128)
  {
  }

  /** The intensity one corner contributes, read from the byte buffer at
      `(py * width + px) * 4` exactly as the source indexes it. `None` is the
      runtime trap of an out-of-range array read. */
  function PixelIntensityAt(img: Image, px: int, py: int): (r: Option<real>)
    requires WellFormed(img)
    ensures r.Some? <==> 0 <= (py * img.width + px) * 4 < |img.data|
    ensures r.Some? ==> r.value == 0.0 || 150.0 / 255.0 <= r.value <= 1.0
  {
    var i := (py * img.width + px) * 4;
    if 0 <= i && i + 3 < |img.data| then
      var red := img.data[i] as real;
      if IsNearWhite(red, img.data[i + 1] as real, img.data[i + 2] as real, img.data[i + 3] as real)
      then Some(red / 255.0)
      else Some(0.0)
    else
      None
  }

  /** The intensity of a pixel inside the image. */
  function CornerIntensity(img: Image, px: int, py: int): (r: real)
    requires WellFormed(img)
    requires 0 <= px < img.width && 0 <= py < img.height
    ensures r == 0.0 || 150.0 / 255.0 <= r <= 1.0
    ensures PixelIntensityAt(img, px, py) == Some(r)
  {
    InsideIndexInRange(img, px, py);
    PixelIntensityAt(img, px, py).value
  }

  lemma InsideIndexInRange(img: Image, px: int, py: int)
    requires WellFormed(img)
    requires 0 <= px < img.width && 0 <= py < img.height
    ensures 0 <= (py * img.width + px) * 4 < |img.data|
  {
    IndexBound(img.width, img.height, px, py);
  }

  /** Row-major offsets of the pixels of a `w` by `h` image stay below
      `w * h`. */
  lemma IndexBound(w: int, h: int, x: int, y: int)
    requires 0 <= x < w && 0 <= y < h
    ensures 0 <= (y * w + x) * 4 < w * h * 4
  {
    MulMonotone(y + 1, h, w);
    RowStart(y, w, x, y * w, (y + 1) * w, h * w, w * h);
  }

  lemma MulMonotone(a: int, b: int, c: int)
    requires 0 <= a <= b && 0 <= c
    ensures 0 <= a * c <= b * c
  {
  }

  /** Linear bookkeeping for `IndexBound`, with the products named. */
  lemma RowStart(y: int, w: int, x: int, yw: int, y1w: int, hw: int, wh: int)
    requires 0 <= x < w && 0 <= y && yw == y * w && y1w == (y + 1) * w && y1w <= hw && hw == wh
    ensures 0 <= (yw + x) * 4 < wh * 4
  {
    assert y1w == yw + w;
    assert 0 <= yw;
  }

  /** The bilinear weights `(1-dx)(1-dy)`, `dx(1-dy)`, `(1-dx)dy`, `dx dy`. */
  function Blend(i00: real, i10: real, i01: real, i11: real, dx: real, dy: real): real
  {
    var i0 := i00 * (1.0 - dx) + i10 * dx;
    var i1 := i01 * (1.0 - dx) + i11 * dx;
    i0 * (1.0 - dy) + i1 * dy
  }

  lemma Lerp01(a: real, b: real, t: real)
    requires 0.0 <= a <= 1.0 && 0.0 <= b <= 1.0 && 0.0 <= t <= 1.0
    ensures 0.0 <= a * (1.0 - t) + b * t <= 1.0
  {
    assert 0.0 <= a * (1.0 - t) <= 1.0 - t;
    assert 0.0 <= b * t <= t;
  }

  /** Interpolating four values in [0,1] with weights from [0,1] stays in [0,1]. */
  lemma BlendInUnitInterval(i00: real, i10: real, i01: real, i11: real, dx: real, dy: real)
    requires 0.0 <= i00 <= 1.0 && 0.0 <= i10 <= 1.0 && 0.0 <= i01 <= 1.0 && 0.0 <= i11 <= 1.0
    requires 0.0 <= dx <= 1.0 && 0.0 <= dy <= 1.0
    ensures 0.0 <= Blend(i00, i10, i01, i11, dx, dy) <= 1.0
  {
    Lerp01(i00, i10, dx);
    Lerp01(i01, i11, dx);
    Lerp01(i00 * (1.0 - dx) + i10 * dx, i01 * (1.0 - dx) + i11 * dx, dy);
  }

  /** `bilinearInterpolate` as written. Its guard compares the clamped
      neighbours `x1 = min(x0+1, width-1)` and `y1 = min(y0+1, height-1)`
      with the image size, which can never fail, so only a negative origin
      is rejected; an origin past the right or bottom edge reaches the byte
      buffer (`None` = the out-of-range read traps). */
  function BilinearAsWritten(img: Image, x: real, y: real): (r: Option<real>)
    requires WellFormed(img)
    ensures x.Floor < 0 || y.Floor < 0 ==> r == Some(0.0)
    ensures r.Some? ==> 0.0 <= r.value <= 1.0
  {
    var x0 := x.Floor;
    var y0 := y.Floor;
    var x1 := IMin(x0 + 1, img.width - 1);
    var y1 := IMin(y0 + 1, img.height - 1);
    if !(x0 >= 0 && y0 >= 0 && x1 < img.width && y1 < img.height) then
      Some(0.0)
    else
      var i00 :- PixelIntensityAt(img, x0, y0);
      var i10 :- PixelIntensityAt(img, x1, y0);
      var i01 :- PixelIntensityAt(img, x0, y1);
      var i11 :- PixelIntensityAt(img, x1, y1);
      BlendInUnitInterval(i00, i10, i01, i11, x - x0 as real, y - y0 as real);
      Some(Blend(i00, i10, i01, i11, x - x0 as real, y - y0 as real))
  }

  /** The guard as written accepts exactly the points whose origin pixel is
      not left of or above the image. */
  lemma AsWrittenGuardOnlyChecksOrigin(img: Image, x: real, y: real)
    requires WellFormed(img)
    ensures var x0, y0 := x.Floor, y.Floor;
            (x0 >= 0 && y0 >= 0 && IMin(x0 + 1, img.width - 1) < img.width && IMin(y0 + 1, img.height - 1) < img.height)
            <==> (x0 >= 0 && y0 >= 0)
  {
  }

  /** `bilinearInterpolate` with the bounds check it evidently intends: the
      origin pixel must lie inside the image, otherwise the sample is 0. */
  function Bilinear(img: Image, x: real, y: real): (r: real)
    requires WellFormed(img)
    ensures 0.0 <= r <= 1.0
    ensures !(0 <= x.Floor < img.width && 0 <= y.Floor < img.height) ==> r == 0.0
  {
    var x0 := x.Floor;
    var y0 := y.Floor;
    if !(0 <= x0 < img.width && 0 <= y0 < img.height) then
      0.0
    else
      var x1 := IMin(x0 + 1, img.width - 1);
      var y1 := IMin(y0 + 1, img.height - 1);
      var i00 := CornerIntensity(img, x0, y0);
      var i10 := CornerIntensity(img, x1, y0);
      var i01 := CornerIntensity(img, x0, y1);
      var i11 := CornerIntensity(img, x1, y1);
      BlendInUnitInterval(i00, i10, i01, i11, x - x0 as real, y - y0 as real);
      Blend(i00, i10, i01, i11, x - x0 as real, y - y0 as real)
  }

  /** Inside the image the code as written never traps and computes the same
      value as the corrected sampler. */
  lemma BilinearAsWrittenAgreesInside(img: Image, x: real, y: real)
    requires WellFormed(img)
    requires 0 <= x.Floor < img.width && 0 <= y.Floor < img.height
    ensures BilinearAsWritten(img, x, y) == Some(Bilinear(img, x, y))
  {
    var x0, y0 := x.Floor, y.Floor;
    var x1 := IMin(x0 + 1, img.width - 1);
    var y1 := IMin(y0 + 1, img.height - 1);
    var _ := CornerIntensity(img, x0, y0);
    var _ := CornerIntensity(img, x1, y0);
    var _ := CornerIntensity(img, x0, y1);
    var _ := CornerIntensity(img, x1, y1);
  }

  /** Sampling exactly on a pixel inside the image returns that pixel's
      intensity (all weight on the origin corner). */
  lemma BilinearAtPixel(img: Image, px: int, py: int)
    requires WellFormed(img)
    requires 0 <= px < img.width && 0 <= py < img.height
    ensures Bilinear(img, px as real, py as real) == CornerIntensity(img, px, py)
  {
    assert (px as real).Floor == px;
    assert (py as real).Floor == py;
  }

  /** An all-white image of the given size. */
  function WhiteImage(w: nat, h: nat): (img: Image)
    ensures WellFormed(img)
  {
    Image(w, h, seq(w * h * 4, _ => 255 as Byte))
  }

  /** Finding: in a 2x3 white image the point (2.5, 0.5) lies right of the
      image, yet the guard lets it through and the read at (2, 0) wraps to
      pixel (0, 1), so the sample is 1 instead of 0. */
  lemma AsWrittenReadsWrappedPixel()
    ensures BilinearAsWritten(WhiteImage(2, 3), 2.5, 0.5) == Some(1.0)
    ensures Bilinear(WhiteImage(2, 3), 2.5, 0.5) == 0.0
  {
    var img := WhiteImage(2, 3);
    assert (2.5).Floor == 2 && (0.5).Floor == 0;
    assert PixelIntensityAt(img, 2, 0) == Some(1.0);
    assert PixelIntensityAt(img, 1, 0) == Some(1.0);
    assert PixelIntensityAt(img, 2, 1) == Some(1.0);
    assert PixelIntensityAt(img, 1, 1) == Some(1.0);
  }

  /** Finding: below the image the read leaves the buffer and traps. */
  lemma AsWrittenTrapsBelowImage()
    ensures BilinearAsWritten(WhiteImage(2, 2), 0.5, 5.5) == None
    ensures Bilinear(WhiteImage(2, 2), 0.5, 5.5) == 0.0
  {
    var img := WhiteImage(2, 2);
    assert (0.5).Floor == 0 && (5.5).Floor == 5;
    assert PixelIntensityAt(img, 0, 5) == None;
  }
}
