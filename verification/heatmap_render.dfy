/** The drawing around the heatmap: the analysis circle and its scaling to
    the output size, the aspect-fit background, the colour overlay of the
    rescaled pixels and the empty-coefficient placeholder. */
module HeatmapRender {
  import opened Numeric
  import opened Optional
  import opened ZernikeBasis
  import opened HeatmapBasis
  import opened PixelSampler
  import opened RingScanner
  import opened Heatmap
  import opened HeatmapGrid

  // ---- the analysis circle ----

  /** `analysisCenter` and `calculatedMaxRadius` as written: the centre 10
      pixels below the image centre and 0.9 of the smaller of `cx`, `cy`. */
  function HeatmapGeometryAsWritten(img: Image): Geometry
  {
    var cx := img.width as real / 2.0;
    var cy := img.height as real / 2.0 + 10.0;
    Geometry(cx, cy, Min(cx, cy) * 0.9)
  }

  /** The circle the rings were scanned in: the current scanner's geometry. */
  function HeatmapGeometry(img: Image): Geometry
  {
    ScanGeometry(img)
  }

  /** The circle lies in the `w` by `h` rectangle. */
  predicate WithinImage(g: Geometry, w: real, h: real)
  {
    && 0.0 <= g.maxRadius
    && 0.0 <= g.cx - g.maxRadius && g.cx + g.maxRadius <= w
    && 0.0 <= g.cy - g.maxRadius && g.cy + g.maxRadius <= h
  }

  /** Finding: the circle as written has the current scanner's centre
      column but sits 10 pixels lower, and its radius is never smaller
      (strictly larger for a landscape image). It shares its centre with the
      legacy scanner but reaches 1.5 times as far. */
  lemma AsWrittenGeometryMismatch(img: Image)
    requires img.width >= 0 && img.height >= 0
    ensures HeatmapGeometryAsWritten(img).cx == ScanGeometry(img).cx
    ensures HeatmapGeometryAsWritten(img).cy == ScanGeometry(img).cy + 10.0
    ensures HeatmapGeometryAsWritten(img).maxRadius >= ScanGeometry(img).maxRadius
    ensures img.height < img.width ==> HeatmapGeometryAsWritten(img).maxRadius > ScanGeometry(img).maxRadius
    ensures HeatmapGeometryAsWritten(img).cx == LegacyGeometry(img).cx
    ensures HeatmapGeometryAsWritten(img).cy == LegacyGeometry(img).cy
    ensures HeatmapGeometryAsWritten(img).maxRadius == LegacyGeometry(img).maxRadius * 1.5
  {
  }

  /** Finding: for a landscape image at least 20 pixels wider than tall and
      under 380 pixels tall the circle as written crosses the bottom edge,
      e.g. 1000 by 100: centre row 60, radius 54. */
  lemma AsWrittenCircleLeavesImage(img: Image)
    requires img.width >= img.height + 20 && 0 <= img.height < 380
    ensures HeatmapGeometryAsWritten(img).cy + HeatmapGeometryAsWritten(img).maxRadius > img.height as real
    ensures !WithinImage(HeatmapGeometryAsWritten(img), img.width as real, img.height as real)
  {
  }

  /** The corrected circle always lies in the image. */
  lemma HeatmapGeometryWithin(img: Image)
    requires img.width >= 0 && img.height >= 0
    ensures WithinImage(HeatmapGeometry(img), img.width as real, img.height as real)
  {
  }

  /** The circle scaled to the output: centre by the two axis factors,
      radius by the smaller one. */
  function ScaleGeometry(g: Geometry, iw: real, ih: real, tw: real, th: real): Geometry
    requires iw > 0.0 && ih > 0.0
  {
    Geometry(g.cx * (tw / iw), g.cy * (th / ih), g.maxRadius * Min(tw / iw, th / ih))
  }

  /** Scaling to the image's own size changes nothing. */
  lemma ScaleIdentity(g: Geometry, iw: real, ih: real)
    requires iw > 0.0 && ih > 0.0
    ensures ScaleGeometry(g, iw, ih, iw, ih) == g
  {
    assert iw / iw == 1.0 && ih / ih == 1.0;
  }

  /** Because the radius takes the smaller factor, a circle inside the image
      stays inside the output. */
  lemma ScaleKeepsWithin(g: Geometry, iw: real, ih: real, tw: real, th: real)
    requires iw > 0.0 && ih > 0.0 && tw > 0.0 && th > 0.0
    requires WithinImage(g, iw, ih)
    ensures WithinImage(ScaleGeometry(g, iw, ih, tw, th), tw, th)
  {
    var sx, sy := tw / iw, th / ih;
    var k := Min(sx, sy);
    assert sx * iw == tw && sy * ih == th;
    AxisScaled(g.cx, g.maxRadius, iw, sx, k);
    AxisScaled(g.cy, g.maxRadius, ih, sy, k);
  }

  /** One axis of `ScaleKeepsWithin`: `[c - r, c + r]` in `[0, len]` scaled
      by `s`, the radius by `k <= s`. */
  lemma AxisScaled(c: real, r: real, len: real, s: real, k: real)
    requires 0.0 <= r && 0.0 <= c - r && c + r <= len && 0.0 < k <= s
    ensures 0.0 <= r * k
    ensures 0.0 <= c * s - r * k && c * s + r * k <= len * s
  {
    assert r * k <= r * s;
    assert (c - r) * s == c * s - r * s && (c - r) * s >= 0.0;
    assert (c + r) * s == c * s + r * s;
    assert (len - c - r) * s >= 0.0;
    assert (len - c - r) * s == len * s - c * s - r * s;
  }

  // ---- aspect fit ----

  datatype Rect = Rect(x: real, y: real, width: real, height: real)

  /** `aspectFitRect`: scale by the bounds' width when the image is
      relatively wider, by the height otherwise, and centre on the bounds. */
  function AspectFitRect(iw: real, ih: real, b: Rect): Rect
    requires iw > 0.0 && ih > 0.0 && b.width > 0.0 && b.height > 0.0
  {
    var s := if iw / ih > b.width / b.height then b.width / iw else b.height / ih;
    var w, h := iw * s, ih * s;
    Rect(b.x + b.width / 2.0 - w / 2.0, b.y + b.height / 2.0 - h / 2.0, w, h)
  }

  /** The fitted rectangle keeps the image's aspect ratio, fits in the
      bounds, fills them along one axis, and shares their centre. */
  lemma AspectFitProperties(iw: real, ih: real, b: Rect)
    requires iw > 0.0 && ih > 0.0 && b.width > 0.0 && b.height > 0.0
    ensures var r := AspectFitRect(iw, ih, b);
      && r.width * ih == r.height * iw
      && 0.0 < r.width <= b.width && 0.0 < r.height <= b.height
      && (r.width == b.width || r.height == b.height)
      && r.x + r.width / 2.0 == b.x + b.width / 2.0
      && r.y + r.height / 2.0 == b.y + b.height / 2.0
  {
    var wider := iw / ih > b.width / b.height;
    RatioCompare(iw, ih, b.width, b.height);
    if wider {
      FitAlong(iw, ih, b.width, b.height);
    } else {
      FitAlong(ih, iw, b.height, b.width);
    }
  }

  /** `a / b > c / d` exactly when `a * d > c * b`, for positive `b`, `d`. */
  lemma RatioCompare(a: real, b: real, c: real, d: real)
    requires b > 0.0 && d > 0.0
    ensures a / b > c / d <==> a * d > c * b
  {
    var p, q := a / b, c / d;
    assert p * b == a && q * d == c;
    assert a * d == p * (b * d) && c * b == q * (b * d);
    if p > q {
      assert p * (b * d) > q * (b * d);
    } else {
      assert p * (b * d) <= q * (b * d);
    }
  }

  /** Scaling `(u, v)` by `bu / u` maps `u` to `bu` and keeps `v`'s image
      within `bv` when `v * bu <= bv * u`. */
  lemma FitAlong(u: real, v: real, bu: real, bv: real)
    requires u > 0.0 && v > 0.0 && bu > 0.0 && bv > 0.0 && v * bu <= bv * u
    ensures u * (bu / u) == bu
    ensures 0.0 < v * (bu / u) <= bv
    ensures (u * (bu / u)) * v == (v * (bu / u)) * u
  {
    var s := bu / u;
    assert s * u == bu;
    assert v * s * u == v * bu;
    assert v * s * u <= bv * u;
  }

  // ---- colour overlay ----

  /** An RGBA pixel of the overlay bitmap, one byte per channel. */
  datatype Rgba = Rgba(r: int, g: int, b: int, a: int)

  predicate IsByte(v: int)
  {
    0 <= v <= 255
  }

  /** `UInt8(c * 255)`: truncation of the scaled channel. */
  function ChannelByte(c: real): (v: int)
    requires InUnit(c)
    ensures IsByte(v)
    ensures v as real <= c * 255.0 < v as real + 1.0
  {
    Trunc(c * 255.0)
  }

  /** The bitmap entry for one value: coloured only for `value > 0`,
      otherwise the buffer's initial zeros, a transparent pixel. */
  function OverlayPixel(v: real, alpha: real): (p: Option<Rgba>)
    requires InUnit(alpha)
    ensures p.Some? <==> v > 0.0
    ensures p.Some? ==> IsByte(p.value.r) && IsByte(p.value.g) && IsByte(p.value.b) && p.value.a == ChannelByte(alpha)
  {
    if v > 0.0 then
      var col := HeatmapColor(v);
      Some(Rgba(ChannelByte(col.r), ChannelByte(col.g), ChannelByte(col.b), ChannelByte(alpha)))
    else None
  }

  /** The ramp's ends and middle in bytes: 1 and above is opaque red, 0.5 is
      green. */
  lemma OverlayColours(v: real)
    ensures v >= 1.0 ==> OverlayPixel(v, 1.0) == Some(Rgba(255, 0, 0, 255))
    ensures v == 0.5 ==> OverlayPixel(v, 1.0) == Some(Rgba(0, 255, 0, 255))
    ensures v <= 0.0 ==> OverlayPixel(v, 1.0) == None
  {
    if v >= 1.0 {
      assert HeatmapColor(v) == Rgb(1.0, 0.0, 0.0);
    } else if v == 0.5 {
      RampBoundaries();
    }
  }

  function Overlay(g: Grid, alpha: real): (o: seq<seq<Option<Rgba>>>)
    requires InUnit(alpha)
    ensures |o| == |g| && forall y :: 0 <= y < |g| ==> |o[y]| == |g[y]|
  {
    seq(|g|, y requires 0 <= y < |g| => seq(|g[y]|, x requires 0 <= x < |g[y]| => OverlayPixel(g[y][x], alpha)))
  }

  /** After the corrected rescaling the lowest inside pixel is left
      transparent and the highest is opaque red. */
  lemma ExtremesInOverlay(g: Grid, m: Mask)
    requires SameShape(g, m) && Rescales(g, m)
    ensures exists y, x :: 0 <= y < |g| && 0 <= x < |g[y]| && m[y][x] && Overlay(Rescale(g, m), 1.0)[y][x] == None
    ensures exists y, x :: 0 <= y < |g| && 0 <= x < |g[y]| && m[y][x] && Overlay(Rescale(g, m), 1.0)[y][x] == Some(Rgba(255, 0, 0, 255))
  {
    RescaleExtremes(g, m);
    var out := Rescale(g, m);
    var y0, x0 :| 0 <= y0 < |g| && 0 <= x0 < |g[y0]| && m[y0][x0] && out[y0][x0] == 0.0;
    OverlayColours(out[y0][x0]);
    var y1, x1 :| 0 <= y1 < |g| && 0 <= x1 < |g[y1]| && m[y1][x1] && out[y1][x1] == 1.0;
    OverlayColours(out[y1][x1]);
  }

  /** Finding: in the row `[-1, 0, 1]` the middle pixel is transparent as
      written and green once rescaled. */
  lemma InsideZeroUncoloured()
    ensures Overlay(RescaleAsWritten([[-1.0, 0.0, 1.0]], [[true, true, true]]), 1.0)[0][1] == None
    ensures Overlay(Rescale([[-1.0, 0.0, 1.0]], [[true, true, true]]), 1.0)[0][1] == Some(Rgba(0, 255, 0, 255))
  {
    InsideZeroExample();
    OverlayColours(0.5);
  }

  // ---- the drawing ----

  datatype Background = OriginalImage(rect: Rect) | White

  datatype Stroke = LightGray | Black

  /** The stroked circle of `drawCircleBoundary`. */
  datatype Boundary = Boundary(circle: Geometry, color: Stroke, lineWidth: real)

  /** What `generateZernikeHeatmap` draws, back to front. */
  datatype Rendering = Rendering(width: real, height: real, background: Background,
                                 heat: Option<seq<seq<Option<Rgba>>>>, boundary: Boundary)

  /** The output size: the requested one, or the image's. */
  function TargetSize(img: Image, size: Option<(real, real)>): (real, real)
  {
    if size.Some? then size.value else (img.width as real, img.height as real)
  }

  predicate ValidRequest(img: Image, size: Option<(real, real)>)
  {
    img.width > 0 && img.height > 0 && (size.Some? ==> size.value.0 > 0.0 && size.value.1 > 0.0)
  }

  /** The layout shared by both versions: background, then (with
      coefficients) the overlay and a black circle of width 2, or (without)
      only a light-grey circle of width 1. */
  function Compose(img: Image, tw: real, th: real, overlay: bool, circle: Geometry, heat: Option<Grid>): Rendering
    requires img.width > 0 && img.height > 0 && tw > 0.0 && th > 0.0
  {
    var bg := if overlay then OriginalImage(AspectFitRect(img.width as real, img.height as real, Rect(0.0, 0.0, tw, th))) else White;
    match heat
    case None => Rendering(tw, th, bg, None, Boundary(circle, LightGray, 1.0))
    case Some(px) => Rendering(tw, th, bg, Some(Overlay(px, 1.0)), Boundary(circle, Black, 2.0))
  }

  /** `generateZernikeHeatmap` as written: the offset circle, the
      unnormalised pixel sum and the rescaling that skips inside zeros. */
  function GenerateHeatmapAsWritten(trig: Trig, img: Image, coeffs: seq<real>, modes: seq<Mode>,
                                    overlay: bool, size: Option<(real, real)>): Rendering
    requires ValidRequest(img, size)
  {
    var (tw, th) := TargetSize(img, size);
    var iw, ih := img.width as real, img.height as real;
    var circle := ScaleGeometry(HeatmapGeometryAsWritten(img), iw, ih, tw, th);
    PositiveScaledRadius(HeatmapGeometryAsWritten(img), iw, ih, tw, th);
    if coeffs == [] then Compose(img, tw, th, overlay, circle, None)
    else
      var w, h := Trunc(tw), Trunc(th);
      var raw := RawGrid(trig, (r, t) => HeatValueAsWritten(trig, coeffs, modes, r, t), circle, w, h);
      Compose(img, tw, th, overlay, circle, Some(RescaleAsWritten(raw, CircleMask(trig, circle, w, h))))
  }

  /** The corrected heatmap: the scanner's circle, the normalised pixel sum
      and the rescaling of every inside value. */
  function GenerateHeatmap(trig: Trig, img: Image, coeffs: seq<real>, modes: seq<Mode>,
                           overlay: bool, size: Option<(real, real)>): Rendering
    requires ValidRequest(img, size)
  {
    var (tw, th) := TargetSize(img, size);
    var iw, ih := img.width as real, img.height as real;
    var circle := ScaleGeometry(HeatmapGeometry(img), iw, ih, tw, th);
    PositiveScaledRadius(HeatmapGeometry(img), iw, ih, tw, th);
    if coeffs == [] then Compose(img, tw, th, overlay, circle, None)
    else
      var w, h := Trunc(tw), Trunc(th);
      var raw := RawGrid(trig, (r, t) => HeatValue(trig, coeffs, modes, r, t), circle, w, h);
      Compose(img, tw, th, overlay, circle, Some(Rescale(raw, CircleMask(trig, circle, w, h))))
  }

  /** The drawing of the corrected heatmap: the output size, the background
      the flag asks for, the placeholder or the overlay with its circle, and
      an analysis circle inside the output. */
  lemma HeatmapLayout(trig: Trig, img: Image, coeffs: seq<real>, modes: seq<Mode>,
                      overlay: bool, size: Option<(real, real)>)
    requires ValidRequest(img, size)
    ensures var r := GenerateHeatmap(trig, img, coeffs, modes, overlay, size);
      && (r.width, r.height) == TargetSize(img, size)
      && (r.background.OriginalImage? <==> overlay)
      && (r.heat.None? <==> coeffs == [])
      && (coeffs == [] ==> r.boundary.color == LightGray && r.boundary.lineWidth == 1.0)
      && (coeffs != [] ==>
            && r.boundary.color == Black && r.boundary.lineWidth == 2.0
            && |r.heat.value| == Trunc(r.height)
            && forall y :: 0 <= y < |r.heat.value| ==> |r.heat.value[y]| == Trunc(r.width))
      && WithinImage(r.boundary.circle, r.width, r.height)
  {
    var (tw, th) := TargetSize(img, size);
    HeatmapGeometryWithin(img);
    ScaleKeepsWithin(HeatmapGeometry(img), img.width as real, img.height as real, tw, th);
  }

  /** The as-written drawing has the same layout; it differs only in the
      circle, which is the offset one scaled, and in the pixel values. */
  lemma AsWrittenLayout(trig: Trig, img: Image, coeffs: seq<real>, modes: seq<Mode>,
                        overlay: bool, size: Option<(real, real)>)
    requires ValidRequest(img, size)
    ensures var aw := GenerateHeatmapAsWritten(trig, img, coeffs, modes, overlay, size);
      var r := GenerateHeatmap(trig, img, coeffs, modes, overlay, size);
      && aw.width == r.width && aw.height == r.height && aw.background == r.background
      && aw.heat.Some? == r.heat.Some?
      && (aw.heat.Some? ==> |aw.heat.value| == |r.heat.value|)
      && aw.boundary.color == r.boundary.color && aw.boundary.lineWidth == r.boundary.lineWidth
      && aw.boundary.circle == ScaleGeometry(HeatmapGeometryAsWritten(img), img.width as real, img.height as real, aw.width, aw.height)
  {
  }

  /** At the image's own size the circle drawn as written leaves the
      picture of a landscape image under 380 pixels tall, while the corrected
      one never does. */
  lemma AsWrittenDrawnCircleLeaves(trig: Trig, img: Image, coeffs: seq<real>, modes: seq<Mode>, overlay: bool)
    requires img.width >= img.height + 20 && 0 < img.height < 380
    ensures var aw := GenerateHeatmapAsWritten(trig, img, coeffs, modes, overlay, None);
      !WithinImage(aw.boundary.circle, aw.width, aw.height)
  {
    ScaleIdentity(HeatmapGeometryAsWritten(img), img.width as real, img.height as real);
    AsWrittenCircleLeavesImage(img);
  }

  lemma PositiveScaledRadius(g: Geometry, iw: real, ih: real, tw: real, th: real)
    requires iw > 0.0 && ih > 0.0 && tw > 0.0 && th > 0.0 && g.maxRadius > 0.0
    ensures ScaleGeometry(g, iw, ih, tw, th).maxRadius > 0.0
  {
    var k := Min(tw / iw, th / ih);
    assert k > 0.0;
    assert g.maxRadius * k > 0.0;
  }
}
