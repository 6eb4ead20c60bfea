/** The radial sweep: rays from the image centre, bright samples along each
    ray, and consecutive bright samples merged into rings. */
module RingScanner {
  import opened Numeric
  import opened PixelSampler
  import opened RingMaps
  import opened Optional

  /** Centre of the sweep and the radius it reaches. */
  datatype Geometry = Geometry(cx: real, cy: real, maxRadius: real)

  /** The caller-supplied sweep parameters. */
  datatype Params = Params(numAngles: int, numSamples: int, threshold: real)

  /** One sample on a ray that passed the threshold: its sample index, its
      radius and the rounded pixel it was taken at. */
  datatype Hit = Hit(index: int, radius: real, px: int, py: int)

  /** The sweep geometry of the current scanner: image centre, reach 0.9 of
      the smaller half-size. */
  function ScanGeometry(img: Image): Geometry
  {
    var cx := img.width as real / 2.0;
    var cy := img.height as real / 2.0;
    Geometry(cx, cy, Min(cx, cy) * 0.9)
  }

  /** The sweep geometry of the legacy scanner: centre 10 pixels below the
      image centre, reach 0.6 of the smaller half-size. */
  function LegacyGeometry(img: Image): Geometry
  {
    var cx := img.width as real / 2.0;
    var cy := img.height as real / 2.0 + 10.0;
    Geometry(cx, cy, Min(cx, cy) * 0.6)
  }

  /** The legacy scanner's fixed parameters. */
  const LegacyParams: Params := Params(720, 800, 0.5)

  /** Angle of ray `i` in radians: `i * 2 * pi / numAngles`. */
  function RayAngle(i: int, numAngles: int): real
    requires numAngles > 0
  {
    i as real * 2.0 * Pi / numAngles as real
  }

  /** The ring-map key of ray `i`: `Int(i * 360 / numAngles)`. */
  function DegreeKey(i: int, numAngles: int): int
    requires numAngles > 0
  {
    Trunc(i as real * 360.0 / numAngles as real)
  }

  /** Every ray's key is a whole degree in [0, 360). */
  lemma DegreeKeyInRange(i: int, numAngles: int)
    requires 0 <= i < numAngles
    ensures 0 <= DegreeKey(i, numAngles) < 360
  {
    var q := i as real * 360.0 / numAngles as real;
    assert 0.0 <= q;
    assert q < 360.0 by {
      assert i as real < numAngles as real;
      assert i as real * 360.0 < numAngles as real * 360.0;
    }
  }

  /** With the legacy 720 rays the key is `i / 2`: two rays share each degree. */
  lemma LegacyDegreeKeyHalves(i: int)
    requires 0 <= i
    ensures DegreeKey(i, 720) == i / 2
  {
    var q := i as real * 360.0 / 720.0;
    assert q == i as real / 2.0;
    var h := i / 2;
    assert i == 2 * h || i == 2 * h + 1;
    assert h as real <= q < h as real + 1.0;
  }

  /** Radius of sample `k`: `k * maxRadius / numSamples`. */
  function SampleRadius(g: Geometry, p: Params, k: int): real
    requires p.numSamples > 0
  {
    k as real * g.maxRadius / p.numSamples as real
  }

  /** The position of sample `k` on the ray with direction `(c, s)`. */
  function SampleX(g: Geometry, p: Params, c: real, k: int): real
    requires p.numSamples > 0
  {
    g.cx + SampleRadius(g, p, k) * c
  }

  function SampleY(g: Geometry, p: Params, s: real, k: int): real
    requires p.numSamples > 0
  {
    g.cy + SampleRadius(g, p, k) * s
  }

  /** The interpolated intensity of sample `k`. */
  function SampleIntensity(img: Image, g: Geometry, p: Params, c: real, s: real, k: int): real
    requires WellFormed(img) && p.numSamples > 0
  {
    Bilinear(img, SampleX(g, p, c, k), SampleY(g, p, s, k))
  }

  /** The intensities of samples `0 .. numSamples-1` along the ray with
      direction `(c, s)`. */
  function RayIntensities(img: Image, g: Geometry, p: Params, c: real, s: real): (r: seq<real>)
    requires WellFormed(img) && p.numSamples >= 0
    ensures |r| == p.numSamples
    ensures forall k :: 0 <= k < |r| ==> r[k] == SampleIntensity(img, g, p, c, s, k)
  {
    seq(p.numSamples, k requires 0 <= k < p.numSamples => SampleIntensity(img, g, p, c, s, k))
  }

  /** The record the sample loop appends for sample `k`. */
  function HitAt(g: Geometry, p: Params, c: real, s: real, k: int): Hit
    requires p.numSamples > 0
  {
    Hit(k, SampleRadius(g, p, k), Round(SampleX(g, p, c, k)), Round(SampleY(g, p, s, k)))
  }

  function HitIndices(hits: seq<Hit>): (r: seq<int>)
    ensures |r| == |hits| && forall j :: 0 <= j < |hits| ==> r[j] == hits[j].index
  {
    seq(|hits|, j requires 0 <= j < |hits| => hits[j].index)
  }

  function HitRadii(hits: seq<Hit>): (r: seq<real>)
    ensures |r| == |hits| && forall j :: 0 <= j < |hits| ==> r[j] == hits[j].radius
  {
    seq(|hits|, j requires 0 <= j < |hits| => hits[j].radius)
  }

  function HitPixels(hits: seq<Hit>): (r: seq<(int, int)>)
    ensures |r| == |hits| && forall j :: 0 <= j < |hits| ==> r[j] == (hits[j].px, hits[j].py)
  {
    seq(|hits|, j requires 0 <= j < |hits| => (hits[j].px, hits[j].py))
  }

  /** The inner sample loop over samples `0 .. n-1` of one ray, given the
      samples' intensities: exactly the samples whose intensity exceeds the
      threshold are recorded, in sample order. */
  function RayHits(intensity: seq<real>, g: Geometry, p: Params, c: real, s: real, n: int): (hits: seq<Hit>)
    requires |intensity| == p.numSamples && 0 <= n <= p.numSamples
    ensures forall j :: 0 <= j < |hits| ==> 0 <= hits[j].index < n
    ensures forall j, j' :: 0 <= j < j' < |hits| ==> hits[j].index < hits[j'].index
    ensures forall j :: 0 <= j < |hits| ==>
      hits[j] == HitAt(g, p, c, s, hits[j].index) && intensity[hits[j].index] > p.threshold
  {
    if n == 0 then
      []
    else
      var prev := RayHits(intensity, g, p, c, s, n - 1);
      if intensity[n - 1] > p.threshold then prev + [HitAt(g, p, c, s, n - 1)] else prev
  }

  /** No sample above the threshold is missed. */
  lemma {:induction false} RayHitsComplete(intensity: seq<real>, g: Geometry, p: Params, c: real, s: real, n: int, k: int)
    requires |intensity| == p.numSamples && 0 <= n <= p.numSamples
    requires 0 <= k < n && intensity[k] > p.threshold
    ensures k in HitIndices(RayHits(intensity, g, p, c, s, n))
  {
    var prev := RayHits(intensity, g, p, c, s, n - 1);
    var hits := RayHits(intensity, g, p, c, s, n);
    if k == n - 1 {
      assert hits[|prev|].index == k;
      assert HitIndices(hits)[|prev|] == k;
    } else {
      RayHitsComplete(intensity, g, p, c, s, n - 1, k);
      var j :| 0 <= j < |prev| && HitIndices(prev)[j] == k;
      assert hits[j] == prev[j];
      assert HitIndices(hits)[j] == k;
    }
  }

  lemma SampleRadiusIncreasing(g: Geometry, p: Params, k: int, k': int)
    requires p.numSamples > 0 && g.maxRadius > 0.0 && k < k'
    ensures SampleRadius(g, p, k) < SampleRadius(g, p, k')
  {
    var a, b := k as real, k' as real;
    assert a * g.maxRadius < b * g.maxRadius;
  }

  /** A positive reach makes the radii of successive hits strictly increase. */
  lemma HitRadiiIncrease(intensity: seq<real>, g: Geometry, p: Params, c: real, s: real)
    requires |intensity| == p.numSamples && g.maxRadius > 0.0
    ensures var r := HitRadii(RayHits(intensity, g, p, c, s, p.numSamples));
            forall j, j' :: 0 <= j < j' < |r| ==> r[j] < r[j']
  {
    var hits := RayHits(intensity, g, p, c, s, p.numSamples);
    forall j, j' | 0 <= j < j' < |hits|
      ensures hits[j].radius < hits[j'].radius
    {
      SampleRadiusIncreasing(g, p, hits[j].index, hits[j'].index);
    }
  }

  // ---- grouping consecutive hits ----

  /** Position `q` starts a new run: it is the first hit, or its sample index
      does not follow the previous hit's index. */
  predicate IsRunStart(ix: seq<int>, q: int)
    requires 0 <= q < |ix|
  {
    q == 0 || ix[q] != ix[q - 1] + 1
  }

  /** Strictly increasing positions. */
  predicate Increasing(b: seq<int>)
  {
    forall j, j' :: 0 <= j < j' < |b| ==> b[j] < b[j']
  }

  /** The run starts among positions `0 .. n-1`, ascending; the first
      position always starts a run. */
  function RunStarts(ix: seq<int>, n: int): (st: seq<int>)
    requires 0 <= n <= |ix|
    ensures Increasing(st)
    ensures n == 0 ==> st == []
    ensures n > 0 ==> |st| > 0 && st[0] == 0 && st[|st| - 1] < n
  {
    if n == 0 then [] else RunStarts(ix, n - 1) + (if IsRunStart(ix, n - 1) then [n - 1] else [])
  }

  /** Exactly the positions that start a run are listed. */
  lemma {:induction false} RunStartsMembers(ix: seq<int>, n: int, q: int)
    requires 0 <= q < n <= |ix|
    ensures IsRunStart(ix, q) <==> q in RunStarts(ix, n)
  {
    var prev := RunStarts(ix, n - 1);
    if q < n - 1 {
      RunStartsMembers(ix, n - 1, q);
    } else if q !in prev {
      assert forall j :: 0 <= j < |prev| ==> prev[j] < n - 1;
    }
  }

  /** The number of breaks: positions `q` in `1 .. n-1` whose index does not
      follow its predecessor's. */
  function CountBreaks(ix: seq<int>, n: int): nat
    requires 0 <= n <= |ix|
  {
    if n <= 1 then 0 else CountBreaks(ix, n - 1) + (if ix[n - 1] != ix[n - 2] + 1 then 1 else 0)
  }

  /** Boundaries that cut a sequence of length `len` into non-empty
      consecutive slices. */
  predicate ValidCuts(b: seq<int>, len: int)
  {
    Increasing(b) && (|b| > 0 ==> 0 <= b[0] && b[|b| - 1] <= len)
  }

  /** Run boundaries: the starts followed by the hit count. Run `j` covers
      positions `b[j] .. b[j+1]-1`. */
  function RunBounds(ix: seq<int>): (b: seq<int>)
    ensures ValidCuts(b, |ix|)
    ensures |b| >= 1 && b[|b| - 1] == |ix|
    ensures |ix| > 0 ==> b[0] == 0
  {
    var st := RunStarts(ix, |ix|);
    assert Increasing(st + [|ix|]) by {
      forall j, j' | 0 <= j < j' < |st| + 1
        ensures (st + [|ix|])[j] < (st + [|ix|])[j']
      {
        if j' == |st| {
          assert st[j] <= st[|st| - 1];
        }
      }
    }
    st + [|ix|]
  }

  /** The ring of one run: mean radius, position re-derived from that radius
      and the ray direction. */
  function RingAt(group: seq<real>, c: real, s: real, cx: real, cy: real): Ring
    requires |group| > 0
  {
    var m := Mean(group);
    Ring(m, cx + m * c, cy + m * s)
  }

  /** One ring per slice `radii[b[j] .. b[j+1]]`. */
  function RingsOf(radii: seq<real>, b: seq<int>, c: real, s: real, cx: real, cy: real): (rings: seq<Ring>)
    requires ValidCuts(b, |radii|)
  {
    seq(if |b| == 0 then 0 else |b| - 1, j requires 0 <= j < |b| - 1 => RingAt(radii[b[j]..b[j + 1]], c, s, cx, cy))
  }

  /** Adding one more cut adds the ring of the last slice. */
  lemma RingsOfSnoc(radii: seq<real>, b: seq<int>, e: int, c: real, s: real, cx: real, cy: real)
    requires |b| > 0 && ValidCuts(b, |radii|) && b[|b| - 1] < e <= |radii|
    ensures ValidCuts(b + [e], |radii|)
    ensures RingsOf(radii, b + [e], c, s, cx, cy)
            == RingsOf(radii, b, c, s, cx, cy) + [RingAt(radii[b[|b| - 1]..e], c, s, cx, cy)]
  {
    var b' := b + [e];
    assert Increasing(b') by {
      forall j, j' | 0 <= j < j' < |b'|
        ensures b'[j] < b'[j']
      {
        if j' < |b| {
          assert b'[j] == b[j] && b'[j'] == b[j'];
        } else {
          assert b[j] <= b[|b| - 1];
        }
      }
    }
    var lhs := RingsOf(radii, b', c, s, cx, cy);
    var rhs := RingsOf(radii, b, c, s, cx, cy) + [RingAt(radii[b[|b| - 1]..e], c, s, cx, cy)];
    assert |lhs| == |rhs|;
    forall j | 0 <= j < |lhs|
      ensures lhs[j] == rhs[j]
    {
      if j < |b| - 1 {
        assert b'[j] == b[j] && b'[j + 1] == b[j + 1];
      }
    }
  }

  /** Reference definition of the grouping: one ring per maximal run of
      consecutive sample indices. */
  function GroupRuns(radii: seq<real>, ix: seq<int>, c: real, s: real, cx: real, cy: real): (rings: seq<Ring>)
    requires |radii| == |ix|
    ensures |rings| == |RunBounds(ix)| - 1
    ensures rings == [] <==> ix == []
  {
    var b := RunBounds(ix);
    assert ValidCuts(b, |radii|);
    RingsOf(radii, b, c, s, cx, cy)
  }

  /** `groupConsecutiveHits`: the loop of the source, proved to compute the
      run decomposition. */
  method GroupConsecutiveHits(hitRadii: seq<real>, hitIndices: seq<int>, c: real, s: real, cx: real, cy: real)
    returns (rings: seq<Ring>)
    requires |hitRadii| == |hitIndices|
    ensures rings == GroupRuns(hitRadii, hitIndices, c, s, cx, cy)
    ensures |hitIndices| == 0 ==> rings == []
    ensures |hitIndices| > 0 ==> |rings| == 1 + CountBreaks(hitIndices, |hitIndices|)
  {
    RunCount(hitIndices, |hitIndices|);
    if |hitRadii| == 0 {
      return [];
    }
    rings := [];
    var current := [hitRadii[0]];
    ghost var start := 0;
    ghost var st := RunStarts(hitIndices, 1);
    GroupStart(hitRadii, hitIndices, c, s, cx, cy);
    for i := 1 to |hitIndices|
      invariant Grouped(hitRadii, hitIndices, i, start, current, st, rings, c, s, cx, cy)
    {
      if hitIndices[i] == hitIndices[i - 1] + 1 {
        GroupContinue(hitRadii, hitIndices, i, start, current, st, rings, c, s, cx, cy);
        current := current + [hitRadii[i]];
      } else {
        GroupBreak(hitRadii, hitIndices, i, start, current, st, rings, c, s, cx, cy);
        rings := rings + [RingAt(current, c, s, cx, cy)];
        current := [hitRadii[i]];
        start := i;
        st := st + [i];
      }
    }
    GroupFinish(hitRadii, hitIndices, start, current, st, rings, c, s, cx, cy);
    rings := rings + [RingAt(current, c, s, cx, cy)];
  }

  /** The loop state after the hits `0 .. i-1`: `current` is the open run,
      starting at `start`; `rings` holds the closed runs, one per boundary
      pair of the run starts `st` seen so far. */
  ghost predicate Grouped(radii: seq<real>, ix: seq<int>, i: int, start: int, current: seq<real>,
                          st: seq<int>, rings: seq<Ring>, c: real, s: real, cx: real, cy: real)
  {
    && |radii| == |ix| && 0 <= start < i <= |ix|
    && st == RunStarts(ix, i)
    && current == radii[start..i]
    && |st| > 0 && st[|st| - 1] == start
    && ValidCuts(st, |radii|)
    && rings == RingsOf(radii, st, c, s, cx, cy)
  }

  lemma GroupStart(radii: seq<real>, ix: seq<int>, c: real, s: real, cx: real, cy: real)
    requires |radii| == |ix| > 0
    ensures Grouped(radii, ix, 1, 0, [radii[0]], RunStarts(ix, 1), [], c, s, cx, cy)
  {
    assert RunStarts(ix, 1) == [0];
    assert radii[0..1] == [radii[0]];
  }

  /** A hit that follows its predecessor extends the open run. */
  lemma GroupContinue(radii: seq<real>, ix: seq<int>, i: int, start: int, current: seq<real>,
                      st: seq<int>, rings: seq<Ring>, c: real, s: real, cx: real, cy: real)
    requires Grouped(radii, ix, i, start, current, st, rings, c, s, cx, cy)
    requires i < |ix| && ix[i] == ix[i - 1] + 1
    ensures Grouped(radii, ix, i + 1, start, current + [radii[i]], st, rings, c, s, cx, cy)
  {
    RunStartsStep(ix, i);
    SliceSnoc(radii, start, i);
  }

  /** A hit that does not follow its predecessor closes the open run and
      opens a new one. */
  lemma GroupBreak(radii: seq<real>, ix: seq<int>, i: int, start: int, current: seq<real>,
                   st: seq<int>, rings: seq<Ring>, c: real, s: real, cx: real, cy: real)
    requires Grouped(radii, ix, i, start, current, st, rings, c, s, cx, cy)
    requires i < |ix| && ix[i] != ix[i - 1] + 1
    ensures Grouped(radii, ix, i + 1, i, [radii[i]], st + [i], rings + [RingAt(current, c, s, cx, cy)], c, s, cx, cy)
  {
    RunStartsStep(ix, i);
    RingsOfSnoc(radii, st, i, c, s, cx, cy);
    assert radii[i..i + 1] == [radii[i]];
  }

  /** After the last hit, closing the open run gives the reference grouping. */
  lemma GroupFinish(radii: seq<real>, ix: seq<int>, start: int, current: seq<real>,
                    st: seq<int>, rings: seq<Ring>, c: real, s: real, cx: real, cy: real)
    requires Grouped(radii, ix, |ix|, start, current, st, rings, c, s, cx, cy)
    ensures rings + [RingAt(current, c, s, cx, cy)] == GroupRuns(radii, ix, c, s, cx, cy)
  {
    RingsOfSnoc(radii, st, |ix|, c, s, cx, cy);
    assert RunBounds(ix) == st + [|ix|];
  }

  lemma RunStartsStep(ix: seq<int>, i: int)
    requires 0 < i < |ix|
    ensures RunStarts(ix, i + 1) == if ix[i] == ix[i - 1] + 1 then RunStarts(ix, i) else RunStarts(ix, i) + [i]
  {
  }

  lemma SliceSnoc(xs: seq<real>, lo: int, hi: int)
    requires 0 <= lo <= hi < |xs|
    ensures xs[lo..hi + 1] == xs[lo..hi] + [xs[hi]]
  {
  }

  lemma {:induction false} RunCount(ix: seq<int>, n: int)
    requires 0 <= n <= |ix|
    ensures |RunStarts(ix, n)| == if n == 0 then 0 else 1 + CountBreaks(ix, n)
  {
    if n > 1 {
      RunCount(ix, n - 1);
    }
  }

  // ---- properties of the grouping ----

  /** Ring `j` of the grouping is the ring of run `j`. */
  lemma GroupRunsAt(radii: seq<real>, ix: seq<int>, c: real, s: real, cx: real, cy: real, j: int)
    requires |radii| == |ix|
    requires 0 <= j < |RunBounds(ix)| - 1
    ensures var b := RunBounds(ix);
            0 <= b[j] < b[j + 1] <= |radii|
            && GroupRuns(radii, ix, c, s, cx, cy)[j] == RingAt(radii[b[j]..b[j + 1]], c, s, cx, cy)
  {
  }

  /** Every run is maximal: it starts at a break (or at the first hit), and
      every later position inside it continues the previous index. */
  lemma RunsAreMaximal(ix: seq<int>, j: int)
    requires 0 <= j < |RunBounds(ix)| - 1
    ensures var b := RunBounds(ix);
            && IsRunStart(ix, b[j])
            && forall q :: b[j] < q < b[j + 1] ==> ix[q] == ix[q - 1] + 1
  {
    var b := RunBounds(ix);
    var st := RunStarts(ix, |ix|);
    assert b[j] == st[j] && st[j] in st;
    RunStartsMembers(ix, |ix|, b[j]);
    forall q | b[j] < q < b[j + 1]
      ensures ix[q] == ix[q - 1] + 1
    {
      RunStartsMembers(ix, |ix|, q);
    }
  }

  /** The sizes of the runs, in order. */
  function RunSizes(ix: seq<int>): (sz: seq<int>)
    ensures |sz| == |RunBounds(ix)| - 1
    ensures forall j :: 0 <= j < |sz| ==> sz[j] > 0
  {
    var b := RunBounds(ix);
    seq(|b| - 1, j requires 0 <= j < |b| - 1 => b[j + 1] - b[j])
  }

  /** The gaps between consecutive cuts. */
  function Gaps(b: seq<int>): (gaps: seq<int>)
    requires |b| > 0
    ensures |gaps| == |b| - 1
  {
    seq(|b| - 1, j requires 0 <= j < |b| - 1 => b[j + 1] - b[j])
  }

  /** Gaps between consecutive cuts add up to the distance between the outer
      cuts. */
  lemma {:induction false} GapsTelescope(b: seq<int>)
    requires |b| > 0
    ensures ISum(Gaps(b)) == b[|b| - 1] - b[0]
    decreases |b|
  {
    if |b| > 1 {
      var b' := b[..|b| - 1];
      GapsTelescope(b');
      assert Gaps(b)[..|b| - 2] == Gaps(b');
    }
  }

  /** The group sizes add up to the hit count. */
  lemma RunSizesSum(ix: seq<int>)
    ensures ISum(RunSizes(ix)) == |ix|
  {
    var b := RunBounds(ix);
    GapsTelescope(b);
    assert RunSizes(ix) == Gaps(b);
  }

  /** A ring's radius lies within any bounds of its run's radii. */
  lemma RingAtWithin(group: seq<real>, c: real, s: real, cx: real, cy: real, lo: real, hi: real)
    requires |group| > 0
    requires forall q :: 0 <= q < |group| ==> lo <= group[q] <= hi
    ensures lo <= RingAt(group, c, s, cx, cy).radius <= hi
  {
    MeanBounds(group, lo, hi);
  }

  /** Ring `j` of a cut lies between the smallest and the largest radius of
      its slice. */
  lemma RingsOfWithin(radii: seq<real>, b: seq<int>, c: real, s: real, cx: real, cy: real, j: int)
    requires ValidCuts(b, |radii|)
    requires 0 <= j < |b| - 1
    ensures 0 <= b[j] < b[j + 1] <= |radii|
    ensures var run := radii[b[j]..b[j + 1]];
            SeqMin(run) <= RingsOf(radii, b, c, s, cx, cy)[j].radius <= SeqMax(run)
  {
    var run := radii[b[j]..b[j + 1]];
    RingAtWithin(run, c, s, cx, cy, SeqMin(run), SeqMax(run));
  }

  /** Ring `j` of the grouping lies between the smallest and the largest
      radius of its run. */
  lemma RingWithinRun(radii: seq<real>, ix: seq<int>, c: real, s: real, cx: real, cy: real, j: int)
    requires |radii| == |ix|
    requires 0 <= j < |RunBounds(ix)| - 1
    ensures var b := RunBounds(ix);
            && 0 <= b[j] < b[j + 1] <= |radii|
            && SeqMin(radii[b[j]..b[j + 1]]) <= GroupRuns(radii, ix, c, s, cx, cy)[j].radius <= SeqMax(radii[b[j]..b[j + 1]])
  {
    RingsOfWithin(radii, RunBounds(ix), c, s, cx, cy, j);
  }

  /** Every ring of the grouping lies on the ray, at its own (mean) radius
      from the centre. */
  lemma GroupRunsOnRay(radii: seq<real>, ix: seq<int>, c: real, s: real, cx: real, cy: real, j: int)
    requires |radii| == |ix|
    requires 0 <= j < |GroupRuns(radii, ix, c, s, cx, cy)|
    ensures var ring := GroupRuns(radii, ix, c, s, cx, cy)[j];
            ring.x == cx + ring.radius * c && ring.y == cy + ring.radius * s
  {
    RingsOfOnRay(radii, RunBounds(ix), c, s, cx, cy, j);
  }

  /** Every ring of a cut lies on the ray at its own radius. */
  lemma RingsOfOnRay(radii: seq<real>, b: seq<int>, c: real, s: real, cx: real, cy: real, j: int)
    requires ValidCuts(b, |radii|)
    requires 0 <= j < |b| - 1
    ensures var ring := RingsOf(radii, b, c, s, cx, cy)[j];
            ring.x == cx + ring.radius * c && ring.y == cy + ring.radius * s
  {
  }

  /** Of two rings of a cut over strictly increasing radii, the later one
      has the larger radius. */
  lemma RingsOfOrdered(radii: seq<real>, b: seq<int>, c: real, s: real, cx: real, cy: real, j: int, j': int)
    requires ValidCuts(b, |radii|)
    requires forall q, q' :: 0 <= q < q' < |radii| ==> radii[q] < radii[q']
    requires 0 <= j < j' < |b| - 1
    ensures RingsOf(radii, b, c, s, cx, cy)[j].radius < RingsOf(radii, b, c, s, cx, cy)[j'].radius
  {
    RingOfSlice(radii, b, c, s, cx, cy, j);
    RingOfSlice(radii, b, c, s, cx, cy, j');
    assert b[j + 1] <= b[j'];
    assert radii[b[j + 1] - 1] < radii[b[j']];
  }

  /** Over strictly increasing radii, ring `j` lies between the first and
      the last radius of its slice. */
  lemma RingOfSlice(radii: seq<real>, b: seq<int>, c: real, s: real, cx: real, cy: real, j: int)
    requires ValidCuts(b, |radii|)
    requires forall q, q' :: 0 <= q < q' < |radii| ==> radii[q] < radii[q']
    requires 0 <= j < |b| - 1
    ensures 0 <= b[j] < b[j + 1] <= |radii|
    ensures radii[b[j]] <= RingsOf(radii, b, c, s, cx, cy)[j].radius <= radii[b[j + 1] - 1]
  {
    assert 0 <= b[j] < b[j + 1] <= |radii| by {
      assert b[0] <= b[j] && b[j + 1] <= b[|b| - 1];
    }
    SliceOfIncreasing(radii, b[j], b[j + 1]);
    RingAtWithin(radii[b[j]..b[j + 1]], c, s, cx, cy, radii[b[j]], radii[b[j + 1] - 1]);
  }

  /** Slices of strictly increasing radii give strictly increasing rings. */
  lemma RingsOfIncreasing(radii: seq<real>, b: seq<int>, c: real, s: real, cx: real, cy: real)
    requires ValidCuts(b, |radii|)
    requires forall q, q' :: 0 <= q < q' < |radii| ==> radii[q] < radii[q']
    ensures var rings := RingsOf(radii, b, c, s, cx, cy);
            forall j, j' :: 0 <= j < j' < |rings| ==> rings[j].radius < rings[j'].radius
  {
    var rings := RingsOf(radii, b, c, s, cx, cy);
    forall j, j' | 0 <= j < j' < |rings|
      ensures rings[j].radius < rings[j'].radius
    {
      RingsOfOrdered(radii, b, c, s, cx, cy, j, j');
    }
  }

  /** When the hit radii strictly increase, so do the ring radii. */
  lemma GroupRunsIncreasing(radii: seq<real>, ix: seq<int>, c: real, s: real, cx: real, cy: real)
    requires |radii| == |ix|
    requires forall q, q' :: 0 <= q < q' < |radii| ==> radii[q] < radii[q']
    ensures var rings := GroupRuns(radii, ix, c, s, cx, cy);
            forall j, j' :: 0 <= j < j' < |rings| ==> rings[j].radius < rings[j'].radius
  {
    RingsOfIncreasing(radii, RunBounds(ix), c, s, cx, cy);
  }

  /** A slice of an increasing list lies between its first and last element. */
  lemma SliceOfIncreasing(xs: seq<real>, lo: int, hi: int)
    requires forall q, q' :: 0 <= q < q' < |xs| ==> xs[q] < xs[q']
    requires 0 <= lo < hi <= |xs|
    ensures forall q :: 0 <= q < hi - lo ==> xs[lo] <= xs[lo..hi][q] <= xs[hi - 1]
  {
    forall q | 0 <= q < hi - lo
      ensures xs[lo] <= xs[lo..hi][q] <= xs[hi - 1]
    {
      assert xs[lo..hi][q] == xs[lo + q];
    }
  }

  // ---- the sweep ----

  /** What one ray contributes: its key, the rounded pixels of its hits and
      its rings. */
  datatype RayResult = RayResult(key: int, pixels: seq<(int, int)>, rings: seq<Ring>)

  /** Both maps the sweep fills. */
  datatype ScanResult = ScanResult(pixelHits: map<int, seq<(int, int)>>, rings: RingMap)

  /** The map writes after each ray, in ray order: the pixel list is stored
      when it is non-empty, the ring list likewise, each under the ray's key
      and replacing what an earlier ray stored there. */
  function CollectRays(rays: seq<RayResult>): (r: ScanResult)
    ensures forall key :: key in r.rings ==> r.rings[key] != []
    ensures forall key :: key in r.pixelHits ==> r.pixelHits[key] != []
  {
    if |rays| == 0 then
      ScanResult(map[], map[])
    else
      var prev := CollectRays(rays[..|rays| - 1]);
      var ray := rays[|rays| - 1];
      ScanResult(if ray.pixels != [] then prev.pixelHits[ray.key := ray.pixels] else prev.pixelHits,
                 if ray.rings != [] then prev.rings[ray.key := ray.rings] else prev.rings)
  }

  /** Independent description of who owns a ring-map key: the greatest ray
      with that key and at least one ring, or -1 when there is none. */
  function LastRingRay(rays: seq<RayResult>, key: int): (w: int)
    ensures -1 <= w < |rays|
    ensures w >= 0 ==> rays[w].key == key && rays[w].rings != []
    ensures forall i :: w < i < |rays| ==> rays[i].key != key || rays[i].rings == []
  {
    if |rays| == 0 then -1
    else if rays[|rays| - 1].key == key && rays[|rays| - 1].rings != [] then |rays| - 1
    else LastRingRay(rays[..|rays| - 1], key)
  }

  /** The same for the pixel-hit map. */
  function LastPixelRay(rays: seq<RayResult>, key: int): (w: int)
    ensures -1 <= w < |rays|
    ensures w >= 0 ==> rays[w].key == key && rays[w].pixels != []
    ensures forall i :: w < i < |rays| ==> rays[i].key != key || rays[i].pixels == []
  {
    if |rays| == 0 then -1
    else if rays[|rays| - 1].key == key && rays[|rays| - 1].pixels != [] then |rays| - 1
    else LastPixelRay(rays[..|rays| - 1], key)
  }

  /** A key is present exactly when some ray with that key stored a list,
      and it holds the list of the last such ray. */
  lemma {:induction false} CollectKeepsLastWriter(rays: seq<RayResult>, key: int)
    ensures var r := CollectRays(rays);
            var w := LastRingRay(rays, key);
            && (key in r.rings <==> w >= 0)
            && (w >= 0 ==> r.rings[key] == rays[w].rings)
    ensures var r := CollectRays(rays);
            var w := LastPixelRay(rays, key);
            && (key in r.pixelHits <==> w >= 0)
            && (w >= 0 ==> r.pixelHits[key] == rays[w].pixels)
  {
    if |rays| > 0 {
      var init := rays[..|rays| - 1];
      CollectKeepsLastWriter(init, key);
      assert LastRingRay(rays, key) < |rays| - 1 ==> LastRingRay(rays, key) == LastRingRay(init, key);
      assert LastPixelRay(rays, key) < |rays| - 1 ==> LastPixelRay(rays, key) == LastPixelRay(init, key);
    }
  }

  /** When every ray has rings exactly when it has hits, both maps have the
      same keys. */
  lemma CollectKeysAgree(rays: seq<RayResult>)
    requires forall i :: 0 <= i < |rays| ==> (rays[i].rings == [] <==> rays[i].pixels == [])
    ensures CollectRays(rays).rings.Keys == CollectRays(rays).pixelHits.Keys
  {
    var r := CollectRays(rays);
    forall key
      ensures key in r.rings <==> key in r.pixelHits
    {
      CollectKeepsLastWriter(rays, key);
      var w, w' := LastRingRay(rays, key), LastPixelRay(rays, key);
      if w >= 0 && w' < w {
        assert rays[w].pixels != [];
      }
      if w' >= 0 && w < w' {
        assert rays[w'].rings != [];
      }
    }
  }

  /** The hits of ray `i`. */
  function RayHitList(img: Image, g: Geometry, p: Params, trig: Trig, i: int): seq<Hit>
    requires WellFormed(img) && p.numAngles > 0 && p.numSamples >= 0
  {
    var c := trig.cos(RayAngle(i, p.numAngles));
    var s := trig.sin(RayAngle(i, p.numAngles));
    RayHits(RayIntensities(img, g, p, c, s), g, p, c, s, p.numSamples)
  }

  /** Ray `i` of the sweep: its key, the pixels of its hits and its rings. */
  function Ray(img: Image, g: Geometry, p: Params, trig: Trig, i: int): (ray: RayResult)
    requires WellFormed(img) && p.numAngles > 0 && p.numSamples >= 0
    ensures ray.rings == [] <==> ray.pixels == []
    ensures |ray.pixels| == |RayHitList(img, g, p, trig, i)|
  {
    var c := trig.cos(RayAngle(i, p.numAngles));
    var s := trig.sin(RayAngle(i, p.numAngles));
    var hits := RayHitList(img, g, p, trig, i);
    RayResult(DegreeKey(i, p.numAngles), HitPixels(hits),
              GroupRuns(HitRadii(hits), HitIndices(hits), c, s, g.cx, g.cy))
  }

  /** Rays `0 .. n-1`. */
  function Rays(img: Image, g: Geometry, p: Params, trig: Trig, n: int): (rays: seq<RayResult>)
    requires WellFormed(img) && 0 <= n <= p.numAngles && p.numSamples >= 0
    ensures |rays| == n
    ensures forall i :: 0 <= i < n ==> rays[i] == Ray(img, g, p, trig, i)
  {
    seq(n, i requires 0 <= i < n => Ray(img, g, p, trig, i))
  }

  /** The sweep over rays `0 .. n-1`: keys are whole degrees in [0, 360),
      every stored list is non-empty, and the two maps share their keys. */
  function Sweep(img: Image, g: Geometry, p: Params, trig: Trig, n: int): (r: ScanResult)
    requires WellFormed(img) && 0 <= n <= p.numAngles && p.numSamples >= 0
    ensures forall key :: key in r.rings ==> 0 <= key < 360 && r.rings[key] != []
    ensures forall key :: key in r.pixelHits ==> r.pixelHits[key] != []
    ensures r.rings.Keys == r.pixelHits.Keys
  {
    var rays := Rays(img, g, p, trig, n);
    var r := CollectRays(rays);
    CollectKeysAgree(rays);
    forall key | key in r.rings
      ensures 0 <= key < 360
    {
      CollectKeepsLastWriter(rays, key);
      DegreeKeyInRange(LastRingRay(rays, key), p.numAngles);
    }
    r
  }

  /** `analyzeRingsWithSubpixelAccuracy` in `Processing.swift`. */
  function Scan(img: Image, p: Params, trig: Trig): ScanResult
    requires WellFormed(img) && p.numAngles >= 0 && p.numSamples >= 0
  {
    Sweep(img, ScanGeometry(img), p, trig, p.numAngles)
  }

  /** The legacy `analyzeRingsWithSubpixelAccuracy`: same loop, its own
      geometry and constants, reading through the corrected sampler (the
      reads as written are `LegacyRead`). Its keys are whole degrees, every
      stored list is non-empty, and the two maps share their keys. */
  function LegacyScan(img: Image, trig: Trig): (r: ScanResult)
    requires WellFormed(img)
    ensures forall key :: key in r.rings ==> 0 <= key < 360 && r.rings[key] != []
    ensures forall key :: key in r.pixelHits ==> r.pixelHits[key] != []
    ensures r.rings.Keys == r.pixelHits.Keys
  {
    Sweep(img, LegacyGeometry(img), LegacyParams, trig, LegacyParams.numAngles)
  }

  /** With a positive reach, the rings found on one ray have strictly
      increasing radii. */
  lemma RayRingsIncrease(img: Image, g: Geometry, p: Params, trig: Trig, i: int)
    requires WellFormed(img) && p.numAngles > 0 && p.numSamples >= 0 && g.maxRadius > 0.0
    ensures var rings := Ray(img, g, p, trig, i).rings;
            forall j, j' :: 0 <= j < j' < |rings| ==> rings[j].radius < rings[j'].radius
  {
    var c := trig.cos(RayAngle(i, p.numAngles));
    var s := trig.sin(RayAngle(i, p.numAngles));
    var hits := RayHitList(img, g, p, trig, i);
    assert hits == RayHits(RayIntensities(img, g, p, c, s), g, p, c, s, p.numSamples);
    HitRadiiIncrease(RayIntensities(img, g, p, c, s), g, p, c, s);
    assert Ray(img, g, p, trig, i).rings == GroupRuns(HitRadii(hits), HitIndices(hits), c, s, g.cx, g.cy);
    GroupRunsIncreasing(HitRadii(hits), HitIndices(hits), c, s, g.cx, g.cy);
  }

  /** The sweep's ring map: a key is present exactly when some ray with that
      key found rings, and it holds the rings of the last such ray. */
  lemma SweepKeepsLastWriter(img: Image, g: Geometry, p: Params, trig: Trig, n: int, key: int)
    requires WellFormed(img) && 0 <= n <= p.numAngles && p.numSamples >= 0
    ensures var rays := Rays(img, g, p, trig, n);
            var w := LastRingRay(rays, key);
            && (key in Sweep(img, g, p, trig, n).rings <==> w >= 0)
            && (w >= 0 ==> Sweep(img, g, p, trig, n).rings[key] == Ray(img, g, p, trig, w).rings)
  {
    CollectKeepsLastWriter(Rays(img, g, p, trig, n), key);
  }

  /** When ray `i` has key `i / 2`, key `key` belongs to ray `2*key+1` if it
      found rings, else to ray `2*key` if it did, else to no ray. */
  lemma PairedRaysOwner(rays: seq<RayResult>, key: int)
    requires forall i :: 0 <= i < |rays| ==> rays[i].key == i / 2
    requires 0 <= key && 2 * key + 1 < |rays|
    ensures LastRingRay(rays, key)
              == if rays[2 * key + 1].rings != [] then 2 * key + 1
                 else if rays[2 * key].rings != [] then 2 * key
                 else -1
  {
  }

  /** In the legacy sweep two rays share each degree: degree `key` is owned by
      ray `2*key+1` when that ray found rings, else by ray `2*key` when it
      did, else by no ray. */
  lemma LegacyDegreeOwner(img: Image, trig: Trig, key: int)
    requires WellFormed(img) && 0 <= key < 360
    ensures var rays := Rays(img, LegacyGeometry(img), LegacyParams, trig, 720);
            LastRingRay(rays, key)
              == if rays[2 * key + 1].rings != [] then 2 * key + 1
                 else if rays[2 * key].rings != [] then 2 * key
                 else -1
  {
    var rays := Rays(img, LegacyGeometry(img), LegacyParams, trig, 720);
    forall i | 0 <= i < |rays|
      ensures rays[i].key == i / 2
    {
      LegacyDegreeKeyHalves(i);
    }
    PairedRaysOwner(rays, key);
  }

  /** On one axis: a point at most `reach <= 0.9 * centre` from the centre of
      `[0, size)` has its floor inside. */
  lemma AxisInside(size: int, centre: real, r: real, c: real, reach: real, x: real)
    requires size >= 1 && centre == size as real / 2.0
    requires 0.0 <= r <= reach <= centre * 0.9
    requires -1.0 <= c <= 1.0 && x == centre + r * c
    ensures 0 <= x.Floor < size
  {
    MulBetween(r, c);
    WithinHalf(size as real, centre, r * c, reach, x);
    assert x.Floor as real <= x;
  }

  /** Linear part of `AxisInside`, with the product `r * c` named. */
  lemma WithinHalf(sz: real, centre: real, rc: real, reach: real, x: real)
    requires sz >= 1.0 && centre == sz / 2.0
    requires -reach <= rc <= reach && reach <= centre * 0.9 && x == centre + rc
    ensures 0.0 <= x < sz
  {
  }

  /** Sample `k` of `numSamples` lies at most the reach from the centre. */
  lemma RadiusWithinReach(g: Geometry, p: Params, k: int)
    requires 0 <= k < p.numSamples && 0.0 <= g.maxRadius
    ensures 0.0 <= SampleRadius(g, p, k) <= g.maxRadius
  {
    FractionOf(k as real, p.numSamples as real, g.maxRadius);
  }

  /** The current scanner never samples outside a non-empty image: every
      sample stays within 0.9 of the smaller half-size of the centre. */
  lemma ScanSamplesInside(img: Image, p: Params, c: real, s: real, k: int)
    requires img.width >= 1 && img.height >= 1
    requires -1.0 <= c <= 1.0 && -1.0 <= s <= 1.0
    requires 0 <= k < p.numSamples
    ensures var g := ScanGeometry(img);
            && 0 <= SampleX(g, p, c, k).Floor < img.width
            && 0 <= SampleY(g, p, s, k).Floor < img.height
  {
    var g := ScanGeometry(img);
    var r := SampleRadius(g, p, k);
    assert Min(g.cx, g.cy) <= g.cx && Min(g.cx, g.cy) <= g.cy;
    assert g.maxRadius <= g.cx * 0.9 && g.maxRadius <= g.cy * 0.9;
    RadiusWithinReach(g, p, k);
    AxisInside(img.width, g.cx, r, c, g.maxRadius, SampleX(g, p, c, k));
    AxisInside(img.height, g.cy, r, s, g.maxRadius, SampleY(g, p, s, k));
  }

  /** Hence the sampler as written agrees with the corrected one on every
      sample the current scanner takes. */
  lemma ScanSamplesMatchSource(img: Image, p: Params, c: real, s: real, k: int)
    requires WellFormed(img) && img.width >= 1 && img.height >= 1
    requires -1.0 <= c <= 1.0 && -1.0 <= s <= 1.0
    requires 0 <= k < p.numSamples
    ensures var g := ScanGeometry(img);
            BilinearAsWritten(img, SampleX(g, p, c, k), SampleY(g, p, s, k))
              == Some(SampleIntensity(img, g, p, c, s, k))
  {
    var g := ScanGeometry(img);
    ScanSamplesInside(img, p, c, s, k);
    BilinearAsWrittenAgreesInside(img, SampleX(g, p, c, k), SampleY(g, p, s, k));
  }

  /** Finding: the legacy geometry (centre 10 pixels low, reach 0.6 of the
      smaller half-size measured from that centre) leaves a short image. In a
      white 200x20 image, the last sample of the downward ray (ray 180 of
      720, sine 1) lies at y = 20 + 11.985, below the image, and the sampler
      as written reads past the buffer there whatever the cosine. */
  lemma LegacySampleLeavesImage(c: real)
    requires -1.0 <= c <= 1.0
    ensures var img := WhiteImage(200, 20);
            var g := LegacyGeometry(img);
            && BilinearAsWritten(img, SampleX(g, LegacyParams, c, 799), SampleY(g, LegacyParams, 1.0, 799)) == None
            && SampleIntensity(img, g, LegacyParams, c, 1.0, 799) == 0.0
  {
    var img := WhiteImage(200, 20);
    var g := LegacyGeometry(img);
    assert g.maxRadius == 12.0;
    var r := SampleRadius(g, LegacyParams, 799);
    assert r == 11.985;
    var x := SampleX(g, LegacyParams, c, 799);
    var y := SampleY(g, LegacyParams, 1.0, 799);
    assert y == 31.985;
    assert y.Floor == 31;
    MulBetween(r, c);
    assert 88 <= x.Floor <= 112;
    assert PixelIntensityAt(img, x.Floor, 31) == None;
  }

  /** Sample `k` of legacy ray `i` read through the sampler as written;
      `None` is the trap of a read past the pixel buffer. */
  function LegacyRead(img: Image, trig: Trig, i: int, k: int): Option<real>
    requires WellFormed(img)
  {
    var g := LegacyGeometry(img);
    var a := RayAngle(i, LegacyParams.numAngles);
    BilinearAsWritten(img, SampleX(g, LegacyParams, trig.cos(a), k), SampleY(g, LegacyParams, trig.sin(a), k))
  }

  /** Some read of the legacy sweep traps. */
  predicate LegacyTraps(img: Image, trig: Trig)
    requires WellFormed(img)
  {
    exists i, k :: 0 <= i < LegacyParams.numAngles && 0 <= k < LegacyParams.numSamples
                   && LegacyRead(img, trig, i, k).None?
  }

  /** The legacy scanner as written: it traps (`None`) as soon as one of its
      reads does, and otherwise every read is the corrected sampler's
      (`LegacyReadsAreSweepReads`), so it stores what `LegacyScan` stores. */
  function LegacyScanAsWritten(img: Image, trig: Trig): (r: Option<ScanResult>)
    requires WellFormed(img)
  {
    if LegacyTraps(img, trig) then None else Some(LegacyScan(img, trig))
  }

  /** Sample `k` of legacy ray `i` lies below the image. */
  predicate LegacyBelow(img: Image, trig: Trig, i: int, k: int)
  {
    SampleY(LegacyGeometry(img), LegacyParams, trig.sin(RayAngle(i, LegacyParams.numAngles)), k).Floor >= img.height
  }

  /** The legacy geometry keeps every sample inside the image horizontally
      and never above it: the reach, 0.6 of the smaller of `cx` and
      `cy = h/2 + 10`, is less than either. */
  lemma LegacySampleColumnInside(img: Image, c: real, s: real, k: int)
    requires img.width >= 1 && img.height >= 1
    requires -1.0 <= c <= 1.0 && -1.0 <= s <= 1.0
    requires 0 <= k < LegacyParams.numSamples
    ensures var g := LegacyGeometry(img);
            && 0 <= SampleX(g, LegacyParams, c, k).Floor < img.width
            && 0 <= SampleY(g, LegacyParams, s, k).Floor
  {
    var g := LegacyGeometry(img);
    LegacyReach(img);
    var r := SampleRadius(g, LegacyParams, k);
    RadiusWithinReach(g, LegacyParams, k);
    AxisInside(img.width, g.cx, r, c, g.maxRadius, SampleX(g, LegacyParams, c, k));
    NotAbove(g.cy, r, s, g.maxRadius, SampleY(g, LegacyParams, s, k));
  }

  /** The legacy reach is at most 0.6 of either centre coordinate. */
  lemma LegacyReach(img: Image)
    requires img.width >= 1 && img.height >= 1
    ensures var g := LegacyGeometry(img);
            0.0 <= g.maxRadius <= g.cx * 0.9 && g.maxRadius <= g.cy * 0.6 && 0.0 < g.cy
  {
  }

  /** A point within `0.6 cy` of a centre at height `cy > 0` is not above the
      image. */
  lemma NotAbove(cy: real, r: real, s: real, reach: real, y: real)
    requires 0.0 < cy && 0.0 <= r <= reach <= cy * 0.6
    requires -1.0 <= s <= 1.0 && y == cy + r * s
    ensures 0 <= y.Floor
  {
    MulBetween(r, s);
  }

  /** Below the image the sampler as written passes its guard and reads the
      origin pixel, whose index lies past the buffer. */
  lemma ReadBelowTraps(img: Image, x: real, y: real)
    requires WellFormed(img) && img.width >= 1 && img.height >= 1
    requires 0 <= x.Floor < img.width && y.Floor >= img.height
    ensures BilinearAsWritten(img, x, y) == None
  {
    MulMonotone(img.height, y.Floor, img.width);
    assert PixelIntensityAt(img, x.Floor, y.Floor) == None;
  }

  /** A legacy read from the sampler as written traps exactly when its sample
      lies below the image, and otherwise yields the corrected sampler's
      value. */
  lemma LegacyReadAgrees(img: Image, trig: Trig, i: int, k: int)
    requires WellFormed(img) && img.width >= 1 && img.height >= 1 && BoundedTrig(trig)
    requires 0 <= k < LegacyParams.numSamples
    ensures var a := RayAngle(i, LegacyParams.numAngles);
            LegacyRead(img, trig, i, k)
              == if LegacyBelow(img, trig, i, k) then None
                 else Some(SampleIntensity(img, LegacyGeometry(img), LegacyParams, trig.cos(a), trig.sin(a), k))
  {
    var g := LegacyGeometry(img);
    var a := RayAngle(i, LegacyParams.numAngles);
    var c, s := trig.cos(a), trig.sin(a);
    var x, y := SampleX(g, LegacyParams, c, k), SampleY(g, LegacyParams, s, k);
    LegacySampleColumnInside(img, c, s, k);
    if y.Floor >= img.height {
      ReadBelowTraps(img, x, y);
    } else {
      BilinearAsWrittenAgreesInside(img, x, y);
    }
  }

  /** The legacy scanner as written traps exactly when one of its 720 x 800
      samples lies below the image. */
  lemma LegacyTrapsExactlyBelow(img: Image, trig: Trig)
    requires WellFormed(img) && img.width >= 1 && img.height >= 1 && BoundedTrig(trig)
    ensures LegacyScanAsWritten(img, trig).None? <==>
      exists i, k :: 0 <= i < LegacyParams.numAngles && 0 <= k < LegacyParams.numSamples
                     && LegacyBelow(img, trig, i, k)
  {
    forall i, k | 0 <= i < LegacyParams.numAngles && 0 <= k < LegacyParams.numSamples
      ensures LegacyRead(img, trig, i, k).None? <==> LegacyBelow(img, trig, i, k)
    {
      LegacyReadAgrees(img, trig, i, k);
    }
  }

  /** When the legacy scanner as written does not trap, each of its reads is
      the sample the corrected sweep `LegacyScan` uses, so it stores what
      `LegacyScan` stores. */
  lemma LegacyReadsAreSweepReads(img: Image, trig: Trig, i: int, k: int)
    requires WellFormed(img) && img.width >= 1 && img.height >= 1 && BoundedTrig(trig)
    requires !LegacyTraps(img, trig)
    requires 0 <= i < LegacyParams.numAngles && 0 <= k < LegacyParams.numSamples
    ensures var a := RayAngle(i, LegacyParams.numAngles);
            LegacyRead(img, trig, i, k)
              == Some(RayIntensities(img, LegacyGeometry(img), LegacyParams, trig.cos(a), trig.sin(a))[k])
    ensures LegacyScanAsWritten(img, trig) == Some(LegacyScan(img, trig))
  {
    LegacyReadAgrees(img, trig, i, k);
  }

  /** The finding on the whole scanner: on a white 200x20 image the legacy
      sweep as written traps, whatever the trigonometry, as long as the
      downward ray 180 has sine 1. */
  lemma LegacyScanTrapsOnShortImage(trig: Trig)
    requires BoundedTrig(trig) && trig.sin(RayAngle(180, LegacyParams.numAngles)) == 1.0
    ensures LegacyScanAsWritten(WhiteImage(200, 20), trig) == None
  {
    var c := trig.cos(RayAngle(180, LegacyParams.numAngles));
    LegacySampleLeavesImage(c);
    assert LegacyRead(WhiteImage(200, 20), trig, 180, 799).None?;
  }
}
