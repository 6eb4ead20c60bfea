# Limbus corneal topography: a Dafny model of the analysis pipeline

Limbus photographs the reflection of a Placido disc on the cornea. From that
photograph it computes a height map of the corneal surface. This project
models that pipeline as pure Dafny functions and methods, and proves what the
Swift code promises about each stage.

1. **Ring scanning** (`RingScanner`, `PixelSampler`, `RingMaps`):
   - rays go out from a centre; each sample is read by bilinear interpolation
     of a near-white predicate over the RGBA buffer;
   - runs of consecutive above-threshold samples are grouped into one ring at
     the run's mean radius;
   - each ray's rings are stored under the ray's whole-degree key, and a
     later ray with the same key overwrites an earlier one;
   - the legacy scanner in `PatientDetailView.swift` has its own centre,
     reach and 720 × 800 constants. It reads through its own copy of the
     sampler as written, which can read past the buffer below a short image
     (`RingScanner.LegacyScanAsWritten`, Findings, row 5).
2. **Height mapping** (`PolarHeight`):
   - angles are visited in ascending key order;
   - each ring's height is `0.01 (index + j)^2`, where `j = -| |Δr| - 5.5 |`
     (and `j = 0` for the first ring, whose height is therefore 0).
3. **Zernike fit** (`ZernikeBasis`, `ZernikeFit`, `LinearAlgebra`):
   - modes are enumerated by order and then frequency, with the normalised
     basis;
   - the design matrix, `transpose`, `matrixMultiply` and
     `matrixVectorMultiply` build the normal equations;
   - they are solved by Gauss-Jordan elimination without row exchanges.
4. **Quality score** (`DataQuality`): the closed-form 0–100 score and its
   traffic-light colour.
5. **Heatmap** (`HeatmapBasis`, `Heatmap`, `HeatmapGrid`, `HeatmapRender`):
   - a second, unnormalised basis evaluator;
   - per-pixel sums inside the analysis circle;
   - min/max rescaling and the four-segment colour ramp;
   - aspect-fit placement and the empty-coefficient placeholder circle.
6. **Ring-map editing** (`PointEditor`):
   - `"angle_index"` keys and point deletion;
   - the 20-entry undo stack, Cancel and undo;
   - greedy 10-pixel auto-clean;
   - conversions between display and image coordinates.
7. **Small views**:
   - `HeightGraph`: the mirrored height profile through the centre;
   - `BarChart`: the ten largest coefficients with subscript labels.

`Double` is modelled as `real`. `cos`, `sin`, `sqrt` and `atan2` are fields of
a `Trig` value passed in as a parameter. Facts about them, such as
`|cos| <= 1` or an exact square root, are assumed only where a lemma states
them as preconditions (`BoundedTrig`, `ExactSqrt`). NaN is the `NaN`
constructor of `Value`. Swift's truncating `Int(Double)` and `%` are written
out (`Trunc`, `SwiftRem`). A Swift trap becomes an explicit outcome wherever
input data can reach it: `None` from the as-written bilinear read and from
the legacy sweep that uses it, and `Crash` from `deletePoint`.

Three behaviours are modelled exactly as the code has them:
- After a failed solve, `analyzePolarData` stores empty coefficients next to
  the full mode list (`Zernike.swift:133-136`), unlike its early return for
  an empty ring map, which clears both (`Zernike.swift:103-107`).
  `ZernikeFit.AnalyzePolarData` states this, and that the coefficients are
  empty exactly when the elimination meets a zero pivot.
- The rescaling pass skips in-circle values that are exactly `0.0`
  (`ZernikeMap.swift:143`; Findings, row 4).
- The heatmap's `calculateZernikePolynomial` (`ZernikeMap.swift:155-165`) has
  no normalisation factor, while the fit's basis multiplies by one
  (`Zernike.swift:79`; Findings, row 3).

## Model

| member | source | states |
|---|---|---|
| PixelSampler.PixelIntensityAt | MetalRenderCamera/Proccesing/Processing.swift:215-227 | a corner read succeeds exactly when its byte index lies in the buffer; its intensity is 0 or `r/255` with `r >= 150`, so it lies in `[150/255, 1]` |
| PixelSampler.CornerIntensity | MetalRenderCamera/Proccesing/Processing.swift:215-227 | for a pixel inside the image the read always succeeds, with intensity 0 or in `[150/255, 1]` |
| PixelSampler.InsideIndexInRange | MetalRenderCamera/Proccesing/Processing.swift:216-220 | `(py*width+px)*4` is a valid index of a `width*height*4` buffer for every in-image pixel |
| PixelSampler.RedDominanceIsImpliedByThresholds | MetalRenderCamera/Proccesing/Processing.swift:297-309 | `isRedPixel` holds iff `r >= 100`, `g <= 80`, `b <= 80`, `a >= 128`: the `r > g && r > b` clauses add nothing |
| PixelSampler.BlendInUnitInterval | MetalRenderCamera/Proccesing/Processing.swift:229-237 | the bilinear blend of four values in [0,1] with weights `dx, dy` in [0,1] lies in [0,1] |
| PixelSampler.BilinearAsWritten | MetalRenderCamera/Proccesing/Processing.swift:202-237 | `bilinearInterpolate` as written: 0 when `floor(x)` or `floor(y)` is negative, and every value it returns lies in [0,1]; a read past the buffer is `None` |
| PixelSampler.AsWrittenGuardOnlyChecksOrigin | MetalRenderCamera/Proccesing/Processing.swift:203-209 | with `x1`, `y1` clamped to `width-1`, `height-1` the guard is equivalent to `x0 >= 0 && y0 >= 0` |
| PixelSampler.Bilinear | MetalRenderCamera/Proccesing/Processing.swift:202-237 | the corrected sampler: always in [0,1], and 0 whenever `(floor x, floor y)` is outside the image |
| PixelSampler.BilinearAsWrittenAgreesInside | MetalRenderCamera/Proccesing/Processing.swift:202-237 | inside the image the as-written and the corrected sampler give the same value |
| PixelSampler.BilinearAtPixel | MetalRenderCamera/Proccesing/Processing.swift:211-237 | sampling exactly at a pixel corner returns that pixel's intensity |
| PixelSampler.AsWrittenReadsWrappedPixel | MetalRenderCamera/Proccesing/Processing.swift:203-209 | a sample right of a 2×3 white image passes the guard and reads the next row's pixel, returning 1 where the corrected sampler returns 0 |
| PixelSampler.AsWrittenTrapsBelowImage | MetalRenderCamera/Proccesing/Processing.swift:203-220 | a sample below a 2×2 image passes the guard and indexes past the buffer (a trap), where the corrected sampler returns 0 |
| RingScanner.DegreeKeyInRange | MetalRenderCamera/Proccesing/Processing.swift:152 | `Int(i*360/numAngles)` lies in [0,360) for every ray |
| RingScanner.LegacyDegreeKeyHalves | MetalRenderCamera/PatientDetailView.swift:313-319 | with 720 rays the key is `i/2`, so two rays share each degree |
| RingScanner.RayIntensities | MetalRenderCamera/Proccesing/Processing.swift:159-168 | one intensity per sample, sample `k` read at `centre + k*maxRadius/numSamples*(cos, sin)` |
| RingScanner.RayHits | MetalRenderCamera/Proccesing/Processing.swift:159-175 | the hits are samples above the threshold, in increasing sample order, each recording its index, radius and rounded pixel |
| RingScanner.RayHitsComplete | MetalRenderCamera/Proccesing/Processing.swift:170-174 | no sample above the threshold is missed |
| RingScanner.HitRadiiIncrease | MetalRenderCamera/Proccesing/Processing.swift:159-173 | with a positive reach, the radii of successive hits strictly increase |
| RingScanner.RunStartsMembers | MetalRenderCamera/Proccesing/Processing.swift:256-267 | a position starts a new ring iff it is 0 or its index is not its predecessor's plus one |
| RingScanner.GroupRuns | MetalRenderCamera/Proccesing/Processing.swift:250-277 | reference grouping: one ring per maximal run, no rings exactly when there are no hits |
| RingScanner.GroupConsecutiveHits | MetalRenderCamera/Proccesing/Processing.swift:250-277 | the loop equals the reference grouping; `[]` for no hits, otherwise `1 +` (number of index breaks) rings |
| RingScanner.RunsAreMaximal | MetalRenderCamera/Proccesing/Processing.swift:256-267 | every ring's run starts at a break and has no break inside it |
| RingScanner.RunSizesSum | MetalRenderCamera/Proccesing/Processing.swift:253-276 | the group sizes add up to the hit count |
| RingScanner.GroupRunsAt | MetalRenderCamera/Proccesing/Processing.swift:262-265 | ring `j` is the ring of the `j`-th run's slice of radii |
| RingScanner.RingWithinRun | MetalRenderCamera/Proccesing/Processing.swift:262-272 | a ring's radius, the mean of its run, lies between the run's least and greatest radius |
| RingScanner.GroupRunsOnRay | MetalRenderCamera/Proccesing/Processing.swift:263-274 | each ring's `(x, y)` is `centre + radius*(cos, sin)` of the ray |
| RingScanner.GroupRunsIncreasing | MetalRenderCamera/Proccesing/Processing.swift:256-275 | strictly increasing hit radii give strictly increasing ring radii |
| RingScanner.RayRingsIncrease | MetalRenderCamera/Proccesing/Processing.swift:159-178 | the rings of one ray have strictly increasing radii |
| RingScanner.CollectRays | MetalRenderCamera/Proccesing/Processing.swift:180-186 | only non-empty ring lists and hit lists are stored |
| RingScanner.CollectKeepsLastWriter | MetalRenderCamera/Proccesing/Processing.swift:150-186 | a key is present iff some ray with that key had rings (resp. hits); its value is the last such ray's list |
| RingScanner.CollectKeysAgree | MetalRenderCamera/Proccesing/Processing.swift:180-186 | when each ray has rings exactly when it has hits, the two maps have the same keys |
| RingScanner.Sweep | MetalRenderCamera/Proccesing/Processing.swift:150-187 | every stored key is a whole degree in [0,360) with a non-empty list, and the ring map and hit map share their keys |
| RingScanner.SweepKeepsLastWriter | MetalRenderCamera/Proccesing/Processing.swift:150-186 | the sweep stores under each key the rings of the last ray with that key and non-empty rings |
| RingScanner.PairedRaysOwner | MetalRenderCamera/PatientDetailView.swift:351-353 | when two rays share each key, the odd ray wins unless its list is empty |
| RingScanner.LegacyDegreeOwner | MetalRenderCamera/PatientDetailView.swift:313-353 | in the legacy 720-ray scan, degree `d` holds the rings of ray `2d+1` if it has any, else those of ray `2d` |
| RingScanner.ScanSamplesInside | MetalRenderCamera/Proccesing/Processing.swift:127-162 | with reach `0.9 min(w/2, h/2)` every sample's floor coordinates lie inside the image |
| RingScanner.ScanSamplesMatchSource | MetalRenderCamera/Proccesing/Processing.swift:202-237 | so in the current scan the as-written sampler never traps and agrees with the corrected one |
| RingScanner.LegacySampleLeavesImage | MetalRenderCamera/PatientDetailView.swift:369-376 | the legacy centre (line 290) sits 10 pixels low: on a 200×20 image the last sample straight down leaves the buffer |
| RingScanner.LegacyScan | MetalRenderCamera/PatientDetailView.swift:287-353 | the legacy sweep (centre `(w/2, h/2+10)`, reach `0.6 min(cx, cy)`, 720 rays of 800 samples, threshold 0.5) read through the corrected sampler: keys are whole degrees in [0,360) with non-empty lists, shared by both maps |
| RingScanner.LegacySampleColumnInside | MetalRenderCamera/PatientDetailView.swift:287-330 | with the legacy centre and reach every sample's column lies inside the image and no sample lies above it |
| RingScanner.ReadBelowTraps | MetalRenderCamera/PatientDetailView.swift:369-385 | the legacy sampler's guard passes for a point below the image, and its first corner read lies past the buffer |
| RingScanner.LegacyReadAgrees | MetalRenderCamera/PatientDetailView.swift:326-376 | each read of the legacy sweep as written traps exactly when the sample lies below the image, and otherwise yields the corrected sampler's value |
| RingScanner.LegacyTrapsExactlyBelow | MetalRenderCamera/PatientDetailView.swift:317-376 | the legacy scan as written traps exactly when one of its 720×800 samples lies below the image |
| RingScanner.LegacyReadsAreSweepReads | MetalRenderCamera/PatientDetailView.swift:317-376 | when it does not trap, every read is the sample the corrected sweep uses, and the result is `LegacyScan`'s |
| RingScanner.LegacyScanTrapsOnShortImage | MetalRenderCamera/PatientDetailView.swift:287-376 | on a white 200×20 image the legacy scan as written traps, for any trigonometry in which ray 180 points straight down |
| RingMaps.SortedKeys | MetalRenderCamera/Proccesing/Zernike.swift:28 | `keys.sorted()` holds exactly the keys, strictly ascending |
| RingMaps.Flatten | MetalRenderCamera/Proccesing/Processing.swift:69-77 | one entry per ring, each tagged with its angle, in non-decreasing angle order |
| RingMaps.CountUnderPrefix | MetalRenderCamera/Proccesing/Processing.swift:69-77 | the entries under the first `a` keys are the first key's entries followed by those under the next `a - 1` |
| RingMaps.FlattenKeysAt | MetalRenderCamera/Proccesing/Processing.swift:69-77 | entry `j` of key `ks[a]` sits at position (entries under `ks[0..a)`) + `j`, tagged `ks[a]`: the lists are laid end to end in key order, so with the length every entry appears once |
| RingMaps.FlattenAt | MetalRenderCamera/Proccesing/Processing.swift:69-77 | the same exact position of every entry for the flattening over the sorted keys |
| PolarHeight.AdjustmentIsNegatedDistance | MetalRenderCamera/Proccesing/Zernike.swift:46-50 | `j == -| |Δr| - 5.5 |`, so `j <= 0` |
| PolarHeight.HeightFacts | MetalRenderCamera/Proccesing/Zernike.swift:46-51 | every height is `>= 0` and the first ring of every angle has height 0 |
| PolarHeight.ProcessPolarData | MetalRenderCamera/Proccesing/Zernike.swift:22-61 | the r, θ and z lists have the total ring count as length; an empty ring map gives four empties |
| PolarHeight.HeightKeys | MetalRenderCamera/Proccesing/Zernike.swift:35-57 | the height map has exactly the ring map's angles |
| PolarHeight.HeightsOfAngle | MetalRenderCamera/Proccesing/Zernike.swift:37-57 | each angle's pair list has one `(radius, height)` per ring, in ring order |
| PolarHeight.PolarFollowsFlatten | MetalRenderCamera/Proccesing/Zernike.swift:35-44 | the r and θ lists are the rings in ascending angle order, with `θ = angle·π/180` |
| PolarHeight.PolarOverHeights | MetalRenderCamera/Proccesing/Zernike.swift:35-57 | the loop's height map holds exactly the visited angles, each with its ray's `(radius, height)` pairs |
| PolarHeight.PolarOverAt | MetalRenderCamera/Proccesing/Zernike.swift:35-57 | ring `j` of the `a`-th visited angle becomes the sample at its flattened position, with its radius, its angle and the height of index `j` on its ray |
| PolarHeight.PolarAt | MetalRenderCamera/Proccesing/Zernike.swift:22-61 | in `processPolarData` ring `j` of the `a`-th angle is sample (rings under earlier angles) + `j`: radius, `θ = angle·π/180`, and `z = 0.01 (j + adj)^2` of that ray, which is 0 for its first ring |
| PolarHeight.PolarOverHeightsNonNegative | MetalRenderCamera/Proccesing/Zernike.swift:35-57 | every z the loop appends is at least 0 |
| PolarHeight.PolarHeightsNonNegative | MetalRenderCamera/Proccesing/Zernike.swift:22-61 | no z of `processPolarData` is negative |
| PolarHeight.ThetaNonDecreasing | MetalRenderCamera/Proccesing/Zernike.swift:28-43 | θ never decreases along the list |
| ZernikeBasis.Factorial | MetalRenderCamera/Proccesing/Zernike.swift:92-95 | `factorial` is at least 1, and exactly 1 for `n <= 0` |
| ZernikeBasis.ZernikePolynomial | MetalRenderCamera/Proccesing/Zernike.swift:65-89 | one value per `rho`; all zeros for an invalid mode; otherwise `norm·R·angular` at each sample, NaN exactly where `rho > 1` |
| ZernikeBasis.RadialValues | MetalRenderCamera/Proccesing/Zernike.swift:70-77 | the accumulation loop gives the radial polynomial at every sample |
| ZernikeBasis.AccumulatePowers | MetalRenderCamera/Proccesing/Zernike.swift:71-77 | adding `coeff_k·rho^(n-2k)` for each `k` in turn gives the full power sum at every sample |
| ZernikeBasis.RadialAtCentre | MetalRenderCamera/Proccesing/Zernike.swift:71-76 | for `m != 0` every power is positive, so `R(0) == 0` |
| ZernikeBasis.ZernikeInDiscIsNumber | MetalRenderCamera/Proccesing/Zernike.swift:79-86 | inside the unit disc the value is a number, never NaN |
| ZernikeBasis.OrderModesExact | MetalRenderCamera/Proccesing/Zernike.swift:115 | order `n` enumerates exactly the valid `(n, m)`, `m` ascending |
| ZernikeBasis.ModeListValid | MetalRenderCamera/Proccesing/Zernike.swift:113-118 | every enumerated mode has `|m| <= n <= maxOrder` and `n - |m|` even |
| ZernikeBasis.ModeListSorted | MetalRenderCamera/Proccesing/Zernike.swift:113-118 | modes are ordered by ascending `n`, then ascending `m`, without repeats |
| ZernikeBasis.ModeListComplete | MetalRenderCamera/Proccesing/Zernike.swift:113-118 | every valid mode of order at most `maxOrder` is enumerated |
| ZernikeBasis.ModeListCount | MetalRenderCamera/Proccesing/Zernike.swift:113-118 | there are `(N+1)(N+2)/2` modes |
| ZernikeBasis.DefaultModeCount | MetalRenderCamera/Proccesing/Zernike.swift:97-118 | the default order 6 gives 28 modes |
| ZernikeFit.NormalisedWithinUnit | MetalRenderCamera/Proccesing/Zernike.swift:110-111 | `r / max(r)` is at most 1, and non-negative for non-negative radii, so no NaN enters the design matrix |
| ZernikeFit.BuildDesign | MetalRenderCamera/Proccesing/Zernike.swift:120-127 | the column loop builds `A[j][i]` = mode `i` at sample `j` |
| ZernikeFit.DesignColumn | MetalRenderCamera/Proccesing/Zernike.swift:123-126 | column `i` holds `zernikePolynomial` of mode `i` at every sample |
| ZernikeFit.SetColumn | MetalRenderCamera/Proccesing/Zernike.swift:124-126 | writing column `i` changes that column and nothing else |
| ZernikeFit.ProductsAreNormalEquations | MetalRenderCamera/Proccesing/Zernike.swift:130-132 | the computed products are `AᵀA` and `Aᵀz` |
| ZernikeFit.FitCoefficients | MetalRenderCamera/Proccesing/Zernike.swift:120-133 | the solve gives up exactly when Gauss-Jordan on `AᵀA c = Aᵀz` meets a zero pivot (`PivotFails`); a returned coefficient vector solves the normal equations and is their only solution |
| ZernikeFit.AnalyzePolarData | MetalRenderCamera/Proccesing/Zernike.swift:97-138 | no rings clears everything; otherwise the modes are the full enumeration and the heights are stored, the coefficients are empty exactly when the solve meets a zero pivot on the samples' design matrix, and otherwise they are the unique least-squares fit |
| LinearAlgebra.Transpose | MetalRenderCamera/Proccesing/Zernike.swift:140-150 | the result has the swapped dimensions and `t[j][i] == m[i][j]` |
| LinearAlgebra.TransposeInvolution | MetalRenderCamera/Proccesing/Zernike.swift:140-150 | transposing twice gives the matrix back |
| LinearAlgebra.MatrixMultiply | MetalRenderCamera/Proccesing/Zernike.swift:152-165 | `rowsA × colsB`, with entries `Σ_k A[i][k]·B[k][j]` |
| LinearAlgebra.GramSymmetric | MetalRenderCamera/Proccesing/Zernike.swift:130-131 | `AᵀA` is symmetric |
| LinearAlgebra.MatrixVectorMultiply | MetalRenderCamera/Proccesing/Zernike.swift:167-177 | one entry per row, each the row's dot product with `v` |
| LinearAlgebra.ScalePreservesSolutions | MetalRenderCamera/Proccesing/Zernike.swift:191-195 | dividing the pivot row by the pivot keeps the solution set and makes the pivot 1 |
| LinearAlgebra.EliminatePreservesSolutions | MetalRenderCamera/Proccesing/Zernike.swift:196-201 | subtracting a multiple of the pivot row keeps the solution set |
| LinearAlgebra.AugmentKeepsSolutions | MetalRenderCamera/Proccesing/Zernike.swift:183-188 | `[A | b]` has exactly the solutions of `A x = b` |
| LinearAlgebra.ReducedSolution | MetalRenderCamera/Proccesing/Zernike.swift:204-206 | once the left block is the identity, the last column is the only solution |
| LinearAlgebra.StaysNone | MetalRenderCamera/Proccesing/Zernike.swift:190-194 | once a step has met a zero pivot, the elimination never resumes |
| LinearAlgebra.EliminateColumn | MetalRenderCamera/Proccesing/Zernike.swift:196-201 | the in-place pass over `k` computes the row-by-row clearing `ClearRows`; clearing column `i` in every other row keeps the solution set and extends the identity block |
| LinearAlgebra.Reduce | MetalRenderCamera/Proccesing/Zernike.swift:190-202 | the loop computes the step-by-step reduction `ReducedThrough`; it gives `None` exactly when some step `i` meets a zero pivot `[i][i]`, in particular on a zero first pivot; a result is fully reduced with the same solutions |
| LinearAlgebra.ReduceStep | MetalRenderCamera/Proccesing/Zernike.swift:190-202 | a non-zero pivot at step `i` extends the reduction: step `i + 1` scales row `i` by its pivot and clears column `i` in every other row, and no pivot so far was zero |
| LinearAlgebra.SolveLeastSquares | MetalRenderCamera/Proccesing/Zernike.swift:179-208 | `None` exactly for non-square `A`, mismatched `b`, or a zero pivot at some step of the elimination of `[A | b]`; a result has length `n`, solves `A x = b`, and is the only solution |
| LinearAlgebra.SwapSystemSolvable | MetalRenderCamera/Proccesing/Zernike.swift:190-192 | `[[0,1],[1,0]]` has the unique solution `(b1, b0)`, yet the solver rejects it for its zero first pivot |
| DataQuality.AvgRings | MetalRenderCamera/PatientDetailViewUI/DataQualityStats.swift:25-27 | integer division of points by angles, and 0 without angles |
| DataQuality.RingNorm | MetalRenderCamera/PatientDetailViewUI/DataQualityStats.swift:36-42 | `avg/32` up to 32, falling linearly to 0 at 112 and staying 0 beyond; it is 1 only at 32 |
| DataQuality.Score | MetalRenderCamera/PatientDetailViewUI/DataQualityStats.swift:29-46 | the score lies in [0,100], and is 0 when fewer than 20 rings per angle |
| DataQuality.QualityScore | MetalRenderCamera/PatientDetailViewUI/DataQualityStats.swift:17-46 | a ring map's score lies in [0,100] |
| DataQuality.ScoreWeights | MetalRenderCamera/PatientDetailViewUI/DataQualityStats.swift:33-45 | above the threshold the score is `40·min(total/1000,1) + 30·min(angles/360,1) + 30·ringNorm` |
| DataQuality.PerfectScore | MetalRenderCamera/PatientDetailViewUI/DataQualityStats.swift:31-45 | the score is 100 exactly when there are at least 1000 points, at least 360 angles and 32 rings per angle |
| DataQuality.ScoreMonotoneInPoints | MetalRenderCamera/PatientDetailViewUI/DataQualityStats.swift:25-45 | for fixed angles and at most 32 rings per angle, more points never lower the score |
| DataQuality.AvgRingsMonotone | MetalRenderCamera/PatientDetailViewUI/DataQualityStats.swift:25-27 | more points over the same angles never lower the average |
| DataQuality.ColorOf | MetalRenderCamera/PatientDetailViewUI/DataQualityStats.swift:48-54 | green iff `>= 80`, orange iff in `[50, 80)`, red iff `< 50` |
| DataQuality.SparseScanIsRed | MetalRenderCamera/PatientDetailViewUI/DataQualityStats.swift:29-54 | too few rings per angle always shows red |
| HeatmapBasis.Clamp01 | MetalRenderCamera/Graphs/ZernikeMap.swift:244 | the clamp lands in [0,1], keeps values already there, and sends values below 0 to 0 and above 1 to 1 |
| HeatmapBasis.HeatmapColor | MetalRenderCamera/Graphs/ZernikeMap.swift:242-264 | every channel is in [0,1]; 0 and below give blue, 1 and above give red |
| HeatmapBasis.RampBoundaries | MetalRenderCamera/Graphs/ZernikeMap.swift:247-263 | the segments meet at cyan (0.25), green (0.5) and yellow (0.75) |
| HeatmapBasis.RampLipschitz | MetalRenderCamera/Graphs/ZernikeMap.swift:242-264 | each channel changes by at most `4·|v - w|`, so the ramp is continuous |
| HeatmapBasis.RampMonotone | MetalRenderCamera/Graphs/ZernikeMap.swift:242-264 | red never decreases and blue never increases along the ramp |
| HeatmapBasis.HeatFactorialAgrees | MetalRenderCamera/Graphs/ZernikeMap.swift:184-193 | `calculateFactorial` equals `factorial` for `n >= 0`; for `n < 0` it is 0 where the other is 1 |
| HeatmapBasis.HeatCoeffsAgree | MetalRenderCamera/Graphs/ZernikeMap.swift:174-178 | the heatmap's radial coefficients are the fit's radial coefficients |
| HeatmapBasis.HeatRadialAgrees | MetalRenderCamera/Graphs/ZernikeMap.swift:168-181 | `calculateZernikeRadial` equals the fit's radial polynomial on valid modes and is 0 otherwise |
| HeatmapBasis.HeatRadialAtCentre | MetalRenderCamera/Graphs/ZernikeMap.swift:168-181 | for `m > 0`, `R(0) == 0` |
| HeatmapBasis.HeatRadialTopMode | MetalRenderCamera/Graphs/ZernikeMap.swift:168-181 | for `m == n` the radial polynomial is `rho^n` |
| HeatmapBasis.PolynomialTopMode | MetalRenderCamera/Graphs/ZernikeMap.swift:155-165 | for `|m| == n` the polynomial is `rho^n` times the angular factor |
| HeatmapBasis.TopModeAlongAxis | MetalRenderCamera/Graphs/ZernikeMap.swift:155-165 | along `theta = 0`, mode `(n, n)` is `rho^n` |
| HeatmapBasis.HeatPolynomialLacksNorm | MetalRenderCamera/Graphs/ZernikeMap.swift:155-165 | the fit's basis is `norm ×` the heatmap's inside the disc; outside, the fit gives NaN and the heatmap 0 |
| Heatmap.TermCount | MetalRenderCamera/Graphs/ZernikeMap.swift:120-121 | the loop runs over as many terms as the shorter of the coefficient and mode lists, since `i < modes.count` guards each coefficient |
| Heatmap.HeatSumPair | MetalRenderCamera/Graphs/ZernikeMap.swift:117-126 | illustration only, for two coefficients: the pixel loop as written adds both `coefficient·polynomial` terms; it is the step `Heatmap.AsWrittenHeatDistortsShape` uses |
| Heatmap.FittedSumPair | MetalRenderCamera/Graphs/ZernikeMap.swift:117-126 | illustration only, for two coefficients: the corrected sum adds both terms, each with the fit's normalisation (all inputs: `Heatmap.HeatValueIsFitSurface`) |
| Heatmap.FittedSumIsFitBasis | MetalRenderCamera/Graphs/ZernikeMap.swift:117-126 | the corrected sum equals the fitted surface term by term |
| Heatmap.HeatValueIsFitSurface | MetalRenderCamera/Graphs/ZernikeMap.swift:113-127 | the corrected pixel value is the fitted surface at `(rho, theta)` |
| Heatmap.TiltTrefoil | MetalRenderCamera/Graphs/ZernikeMap.swift:155-165 | for tilt plus trefoil, as written gives `rho + rho³` and the fit's surface is `2 rho + √8 rho³` |
| Heatmap.AsWrittenHeatDistortsShape | MetalRenderCamera/Graphs/ZernikeMap.swift:155-165 | no affine map relates the as-written picture to the fitted surface, so min/max rescaling cannot hide the missing factor |
| HeatmapGrid.RawGridPixel | MetalRenderCamera/Graphs/ZernikeMap.swift:101-131 | outside the circle a pixel stays 0; inside, it holds the pixel sum at `rho = r/radius <= 1` and `theta = atan2(dy, dx)` |
| HeatmapGrid.RawGridIsFitSurface | MetalRenderCamera/Graphs/ZernikeMap.swift:106-131 | each in-circle pixel holds the fitted surface at its polar coordinates |
| HeatmapGrid.InsideListed | MetalRenderCamera/Graphs/ZernikeMap.swift:113-129 | every in-circle pixel takes part in the min/max |
| HeatmapGrid.ListedInside | MetalRenderCamera/Graphs/ZernikeMap.swift:113-129 | only in-circle pixels take part in the min/max |
| HeatmapGrid.RescaleAsWritten | MetalRenderCamera/Graphs/ZernikeMap.swift:134-151 | the second pass as written keeps the grid's shape |
| HeatmapGrid.RescaleAt | MetalRenderCamera/Graphs/ZernikeMap.swift:135-147 | corrected pass: in-circle `(v - min)/range`, outside 0 |
| HeatmapGrid.NoRangeUnchanged | MetalRenderCamera/Graphs/ZernikeMap.swift:135-136 | without a positive range both passes leave the grid as it is |
| HeatmapGrid.RescaleBounds | MetalRenderCamera/Graphs/ZernikeMap.swift:134-151 | after rescaling, in-circle values lie in [0,1] and outside values are 0 |
| HeatmapGrid.RescaleInverse | MetalRenderCamera/Graphs/ZernikeMap.swift:144 | `min + rescaled·range` gives each in-circle value back |
| HeatmapGrid.RescaleOrder | MetalRenderCamera/Graphs/ZernikeMap.swift:144 | rescaling keeps the order of in-circle values, in both directions |
| HeatmapGrid.AttainsBounds | MetalRenderCamera/Graphs/ZernikeMap.swift:128-129 | the minimum and the maximum are values of in-circle pixels |
| HeatmapGrid.RescaleExtremes | MetalRenderCamera/Graphs/ZernikeMap.swift:134-151 | some in-circle pixel becomes 0 and some becomes 1 |
| HeatmapGrid.AsWrittenSkipsInsideZeros | MetalRenderCamera/Graphs/ZernikeMap.swift:143-147 | the two passes differ only at in-circle values of exactly 0.0, which the code leaves at 0 instead of `-min/range` |
| HeatmapGrid.InsideZeroExample | MetalRenderCamera/Graphs/ZernikeMap.swift:143-147 | on `[-1, 0, 1]` the code gives `[0, 0, 1]` where rescaling gives `[0, 0.5, 1]` |
| HeatmapRender.AsWrittenGeometryMismatch | MetalRenderCamera/Graphs/ZernikeMap.swift:16-29 | the heatmap circle has the scanner's centre column but sits 10 pixels lower, with a radius never smaller; it is the legacy centre with 1.5 times the legacy reach |
| HeatmapRender.AsWrittenCircleLeavesImage | MetalRenderCamera/Graphs/ZernikeMap.swift:16-29 | on a landscape image under 380 pixels high, the circle as written crosses the bottom edge |
| HeatmapRender.HeatmapGeometryWithin | MetalRenderCamera/Proccesing/Processing.swift:127-129 | the corrected circle, the scanner's, always lies in the image |
| HeatmapRender.ScaleIdentity | MetalRenderCamera/Graphs/ZernikeMap.swift:43-52 | scaling to the image's own size changes nothing |
| HeatmapRender.ScaleKeepsWithin | MetalRenderCamera/Graphs/ZernikeMap.swift:43-52 | scaling the centre by `(sx, sy)` and the radius by `min(sx, sy)` keeps a circle inside the scaled image |
| HeatmapRender.AspectFitProperties | MetalRenderCamera/Graphs/ZernikeMap.swift:280-302 | the fitted rectangle keeps the image's aspect ratio, fits in the bounds touching one axis, and is centred on them |
| HeatmapRender.ChannelByte | MetalRenderCamera/Graphs/ZernikeMap.swift:216-219 | `UInt8(c·255)` truncates: a byte `v` with `v <= 255c < v+1` |
| HeatmapRender.OverlayPixel | MetalRenderCamera/Graphs/ZernikeMap.swift:209-220 | a pixel is coloured exactly when its value is positive, with byte channels and alpha `UInt8(alpha·255)` |
| HeatmapRender.OverlayColours | MetalRenderCamera/Graphs/ZernikeMap.swift:209-220 | 1 is drawn opaque red, 0.5 opaque green, and 0 or below not at all |
| HeatmapRender.Overlay | MetalRenderCamera/Graphs/ZernikeMap.swift:196-222 | one overlay entry per grid pixel |
| HeatmapRender.ExtremesInOverlay | MetalRenderCamera/Graphs/ZernikeMap.swift:196-222 | after rescaling, the minimum pixel is left uncoloured and the maximum is drawn red |
| HeatmapRender.InsideZeroUncoloured | MetalRenderCamera/Graphs/ZernikeMap.swift:143-147 | the skipped in-circle zero is left uncoloured where rescaling would draw it green |
| HeatmapRender.HeatmapLayout | MetalRenderCamera/Graphs/ZernikeMap.swift:36-96 | output of the requested size, image or white background by the flag; no coefficients give no heat and a light-grey 1-pt circle; otherwise a `height × width` heat grid and a black 2-pt circle, always inside the output |
| HeatmapRender.AsWrittenLayout | MetalRenderCamera/Graphs/ZernikeMap.swift:36-96 | the as-written rendering has the corrected one's size, background, boundary style and heat-grid rows; only its circle differs, being the as-written geometry scaled to the output |
| HeatmapRender.AsWrittenDrawnCircleLeaves | MetalRenderCamera/Graphs/ZernikeMap.swift:47-52 | on such a landscape image, the drawn boundary circle as written leaves the output |
| PointEditor.KeyRoundTrip | MetalRenderCamera/PostProcessing/PointEditorView.swift:337-340 | parsing the key `"ring_point"` built at line 63 gives back `(ring, point)` |
| PointEditor.KeysDistinct | MetalRenderCamera/PostProcessing/PointEditorView.swift:63 | distinct points get distinct keys |
| PointEditor.MalformedKeys | MetalRenderCamera/PostProcessing/PointEditorView.swift:337-340 | keys with one piece or a non-number piece are rejected |
| PointEditor.Push | MetalRenderCamera/PostProcessing/PointEditorView.swift:354-359 | the snapshot becomes the top, and the stack never exceeds 20 |
| PointEditor.PushKeepsNewest | MetalRenderCamera/PostProcessing/PointEditorView.swift:354-359 | a push keeps the newest 20 of the stack plus the snapshot |
| PointEditor.PushAllWindow | MetalRenderCamera/PostProcessing/PointEditorView.swift:354-359 | any number of pushes leaves the last 20 entries of everything pushed |
| PointEditor.Undo | MetalRenderCamera/PostProcessing/PointEditorView.swift:361-364 | an empty stack changes nothing; otherwise the top is restored and popped |
| PointEditor.Open | MetalRenderCamera/PostProcessing/PointEditorView.swift:326-329 | opening the editor saves the initial map as the only snapshot |
| PointEditor.DeletePoint | MetalRenderCamera/PostProcessing/PointEditorView.swift:336-352 | a malformed key changes nothing; the call traps exactly when the key's angle exists but its index is out of range |
| PointEditor.DeleteByKey | MetalRenderCamera/PostProcessing/PointEditorView.swift:336-352 | deleting a listed point pushes a snapshot, removes exactly that ring, drops the angle when its list empties, and leaves every other angle as it was |
| PointEditor.DeleteThenUndo | MetalRenderCamera/PostProcessing/PointEditorView.swift:336-364 | undo after a deletion restores the map, and the stack too when it was not full |
| PointEditor.CancelRestores | MetalRenderCamera/PostProcessing/PointEditorView.swift:142-147 | Cancel restores the initial map after fewer than 20 saves, and otherwise the snapshot saved 20 pushes back |
| PointEditor.CleanCenters | MetalRenderCamera/PostProcessing/PointEditorView.swift:387-402 | the per-angle loop equals the greedy reference `CleanList` |
| PointEditor.CleanIsSubsequence | MetalRenderCamera/PostProcessing/PointEditorView.swift:390-401 | the kept points are a subsequence of the original list |
| PointEditor.CleanKeepsFirst | MetalRenderCamera/PostProcessing/PointEditorView.swift:390-401 | the first point always survives |
| PointEditor.CleanSpaced | MetalRenderCamera/PostProcessing/PointEditorView.swift:390-401 | the kept points are pairwise at least 10 apart |
| PointEditor.CleanCovers | MetalRenderCamera/PostProcessing/PointEditorView.swift:390-401 | every dropped point lies within 10 of a kept point |
| PointEditor.CleanOfSpaced | MetalRenderCamera/PostProcessing/PointEditorView.swift:390-401 | a list already spaced by 10 is left as it is |
| PointEditor.CleanIdempotent | MetalRenderCamera/PostProcessing/PointEditorView.swift:386-403 | a second clean of a list removes nothing |
| PointEditor.TooCloseSquared | MetalRenderCamera/PostProcessing/PointEditorView.swift:393-394 | with an exact square root, "closer than 10" is "squared distance below 100" |
| PointEditor.CleanMapKeys | MetalRenderCamera/PostProcessing/PointEditorView.swift:404-406 | the surviving angles are exactly those with a non-empty list |
| PointEditor.CleanMapIdempotent | MetalRenderCamera/PostProcessing/PointEditorView.swift:386-409 | cleaning the ring map twice is cleaning it once |
| PointEditor.AutoClean | MetalRenderCamera/PostProcessing/PointEditorView.swift:380-381 | `autoClean` pushes the current map before cleaning |
| PointEditor.AutoCleanThenUndo | MetalRenderCamera/PostProcessing/PointEditorView.swift:380-409 | undo after auto-clean brings the map back |
| PointEditor.DisplaySizeShape | MetalRenderCamera/PostProcessing/PointEditorView.swift:43-55 | the display keeps the aspect ratio, and its larger side is 500 |
| PointEditor.DisplayRoundTrip | MetalRenderCamera/PostProcessing/PointEditorView.swift:65-66 | image→display (lines 65-66) and display→image (lines 373-374) conversions undo each other |
| PointEditor.ScaleBack | MetalRenderCamera/PostProcessing/PointEditorView.swift:373-374 | scaling a point from one size to another and back gives the point |
| HeightGraph.OppositeAngle | MetalRenderCamera/Graphs/HeightGraph.swift:37 | `(target + 180) % 360` lies in [0,360) from `target >= -180` on |
| HeightGraph.OppositeInvolution | MetalRenderCamera/Graphs/HeightGraph.swift:37 | on degree keys the opposite of the opposite is the angle, and differs from it by half a turn |
| HeightGraph.MirrorInvolution | MetalRenderCamera/Graphs/HeightGraph.swift:44-46 | mirroring twice gives the list back |
| HeightGraph.HeightDataShape | MetalRenderCamera/Graphs/HeightGraph.swift:36-53 | empty exactly when an angle is missing or both lists are empty; otherwise the length is the sum of both lists; ids run `0..len-1` |
| HeightGraph.HeightDataSplits | MetalRenderCamera/Graphs/HeightGraph.swift:44-52 | the first half mirrored back is the opposite list, the rest is the selected list, with heights unchanged |
| HeightGraph.HeightDataSorted | MetalRenderCamera/Graphs/HeightGraph.swift:44-52 | outward, non-negative radii on both sides give non-decreasing plotted radii |
| BarChart.InsertDesc | MetalRenderCamera/Graphs/ZernikeBarChart.swift:30 | insertion adds exactly the one entry |
| BarChart.SortDesc | MetalRenderCamera/Graphs/ZernikeBarChart.swift:30 | the sort is a permutation of its input |
| BarChart.SortDescSorted | MetalRenderCamera/Graphs/ZernikeBarChart.swift:30 | the sort orders by magnitude, largest first |
| BarChart.TopEntries | MetalRenderCamera/Graphs/ZernikeBarChart.swift:28-31 | `min(10, coefficients.count)` bars |
| BarChart.TopEntriesFaithful | MetalRenderCamera/Graphs/ZernikeBarChart.swift:28-31 | every bar is some coefficient's magnitude with that coefficient's mode, largest first |
| BarChart.TopEntriesDominate | MetalRenderCamera/Graphs/ZernikeBarChart.swift:28-31 | a coefficient without a bar is no larger in magnitude than any bar |
| BarChart.TopEntriesDistinct | MetalRenderCamera/Graphs/ZernikeBarChart.swift:28-35 | no coefficient index appears twice among the bars |
| BarChart.SubscriptRoundTrip | MetalRenderCamera/Graphs/ZernikeBarChart.swift:18-24 | raising the subscript digits gives the number's text, which parses back to the number |
| BarChart.SubscriptChars | MetalRenderCamera/Graphs/ZernikeBarChart.swift:18-24 | every character is a subscript digit `U+2080+d` except a leading minus sign |
| BarChart.LabelsDistinct | MetalRenderCamera/Graphs/ZernikeBarChart.swift:37 | for orders below 10, distinct modes get distinct `Z` labels |
| Decimal.ParseIntString | MetalRenderCamera/PostProcessing/PointEditorView.swift:337-340 | `Int(String)` of an interpolated `Int` gives it back |

## Left out

- Camera capture, Metal rendering, SwiftUI views, SwiftData persistence,
  JSON export and the app's bootstrap are I/O and foreign frameworks.
- UIKit and CoreGraphics drawing are left out: rendering contexts, the
  stroke of the boundary circle, the drawing of the background image and
  `getPixelData`'s re-encoding of the photograph. The model keeps what is
  drawn, where it is drawn and in which colour (`HeatmapRender.Rendering`).
  It treats the RGBA buffer as given.
- Image geometry: the model has one `width` and `height` per image, used
  both for the sampling geometry and as the buffer's row stride. The code
  takes the geometry and the stride from `image.size`, in points and after
  orientation (`Processing.swift:42-43`, `127-128`, `144-145`;
  `PatientDetailView.swift:288-290`, `306-307`). It lays the buffer out with the
  `cgImage` pixel size (`Processing.swift:311-318`). The model assumes the
  two agree, which holds for scale-1, orientation-up images. For other
  images the code's `(y * width + x) * 4` uses a stride that differs from
  the buffer's, and its reads can wrap or trap where the model's
  well-formed image does not.
- Threading: the scan runs on a background queue in the app. The model is
  sequential, because no stage shares state.
- Floating point is modelled as exact reals. Rounding, infinities other than
  the initial min/max sentinels, and NaN propagation other than
  `zernikePolynomial`'s explicit NaN are not modelled.
- `cos`, `sin`, `sqrt`, `atan2` and `pow` with a non-integer exponent are
  parameters (`Trig`), not definitions. Their bounds are assumed only where
  a lemma names them.
- The current scanner's `numAngles`, `numSamples` and `threshold` are not
  defined in `Processing.swift`, so `Scan` takes them as `Params`.
- Swift's dictionary iteration order is unspecified. The model visits keys in
  ascending order wherever the result does not depend on the order (sweep,
  auto-clean, flatten before the sort).
- Swift's `sorted` is not stable. `BarChart.SortDesc` is one stable
  insertion sort. Its contracts (permutation, order, domination) hold for
  any correct sort, so nothing is claimed about how ties are ordered.
- RingMaps.FlattenAt: places each angle's rings in their stored order
  after `allCenters.sorted { $0.angle < $1.angle }` (`Processing.swift:76`),
  which assumes the sort keeps equal angles in their input order. Swift does
  not document `sorted` as stable, so the order within one angle is an
  assumption. The ascending angle order and the entry count do not depend
  on it.
- The height mapping needs no assumption about the sort:
  `processPolarData` walks the distinct sorted keys and each angle's rings
  in stored order, and `PolarHeight.PolarAt` states that directly. Only
  reading `PolarHeight.PolarFollowsFlatten` as agreement with
  `getAllRingCenterCoordinates` (`Processing.swift:69-77`) inherits
  `RingMaps.FlattenAt`'s assumption about rings of equal angle.
- Two-dimensional arrays are `seq<seq<real>>`, not `array2`. The
  elimination is stated on values, so no heap reasoning is needed.
- `RingScanner.ScanSamplesInside`, `HeatmapRender.HeatmapLayout` and
  `PointEditor.DisplaySizeShape` require positive image sizes. The code
  divides by the size and never receives an empty photograph.
- `Decimal.ParseIntString` and `PointEditor.KeyRoundTrip` require values in
  64-bit range, which is where Swift's `Int` conversions succeed.
- `ZernikeFit.AnalyzePolarData` states the unique fit as a ghost predicate
  (`UniqueFit`) over the design matrix. Floating-point accuracy of the
  solve is out of scope.
- Heatmap.AsWrittenHeatDistortsShape: assumes `sqrt(4) = 2` and
  `sqrt(8)² = 8` about the `Trig` parameter rather than deriving them.
- BarChart.LabelsDistinct: covers orders 0 to 9 only. From order 10 on,
  `Z` + `"1""0"` + `"1"` and `Z` + `"1"` + `"0""1"` coincide: the code
  concatenates the two subscripts without a separator.
- PointEditor.CancelRestores: states that Cancel restores the snapshot
  saved 20 pushes back once more than 19 saves were made, not the initial
  map. This is what the code does, and the model does not change it.
- HeightGraph.OppositeAngle: Swift's `%` is written out, so negative
  targets below `-180` give negative keys, as in the code.

Also noted and not treated as findings:
- The two factorials differ only for `n < 0`. Neither program calls them
  there: the mode guards keep every argument non-negative
  (`HeatmapBasis.HeatFactorialAgrees`).
- The solver never exchanges rows, so it rejects some invertible systems
  (`LinearAlgebra.SwapSystemSolvable`). Normal-equation matrices `AᵀA` are
  positive semi-definite, so a zero pivot there means a degenerate design
  matrix rather than an unlucky row order.
- `"1__2"` splits into `["1", "2"]`, because `split` drops empty pieces, so
  `deletePoint` accepts it as the key of `(1, 2)` (`PointEditor.Fields`).

## Findings

| source | as written | input that shows it | evidently intended | confidence | as-written member | corrected member |
|---|---|---|---|---|---|---|
| MetalRenderCamera/Proccesing/Processing.swift:203-209 | the guard tests `x1 < width && y1 < height` after clamping them, so it only rejects negative `x0`, `y0` | a 2×3 white image sampled at `(2.5, 0.5)` reads the next row's pixel and returns 1; sampled at `(0.5, 5.5)` on a 2×2 image it indexes past the buffer | return 0 unless `0 <= x0 < width` and `0 <= y0 < height` | not executed | PixelSampler.AsWrittenReadsWrappedPixel | PixelSampler.Bilinear |
| MetalRenderCamera/Graphs/ZernikeMap.swift:16-29 | the heatmap circle is centred at `(w/2, h/2 + 10)`, while the rings it displays were scanned around `(w/2, h/2)` (Processing.swift:127-128) | any image of height under 380 that is at least 20 pixels wider than high: the circle crosses the bottom edge | use the scanner's centre and reach | not executed | HeatmapRender.AsWrittenGeometryMismatch | HeatmapRender.HeatmapGeometryWithin |
| MetalRenderCamera/Graphs/ZernikeMap.swift:155-165 | `calculateZernikePolynomial` omits the `sqrt(n+1)` / `sqrt(2(n+1))` factor that the fit's basis carries (Zernike.swift:79) | coefficients `[1, 1]` on tilt `(1,1)` and trefoil `(3,3)` draw `rho + rho³` where the fitted surface is `2 rho + √8 rho³`; no affine map relates the two | evaluate the surface the coefficients were fitted for | not executed | Heatmap.AsWrittenHeatDistortsShape | Heatmap.HeatValueIsFitSurface |
| MetalRenderCamera/Graphs/ZernikeMap.swift:143 | the rescale pass skips in-circle pixels whose value is exactly `0.0` | in-circle values `[-1, 0, 1]` become `[0, 0, 1]`, so the middle pixel is left uncoloured instead of green | rescale every in-circle value to `(v - min)/range` | not executed | HeatmapGrid.InsideZeroExample | HeatmapGrid.RescaleBounds |
| MetalRenderCamera/PatientDetailView.swift:369-376 | the legacy scanner's copy of `bilinearInterpolate` has the same clamped guard as row 1, and its centre sits 10 pixels below the image centre (line 290), so a sample can lie below the image and the read goes past the buffer | a white 200×20 image: the last sample of the downward ray 180 lies at `y = 31.985`, and the read traps | return 0 for a sample outside the image, as the corrected sampler does | not executed | RingScanner.LegacyScanTrapsOnShortImage | RingScanner.LegacyScan |
