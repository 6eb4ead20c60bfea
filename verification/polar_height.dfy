/** The polar-to-height step before the Zernike fit: every ring becomes a
    sample (r, theta, z), where the height z comes from an adaptive parabola
    over the ring's position on its ray. */
module PolarHeight {
  import opened Numeric
  import opened RingMaps

  /** `(rList, thetaList, zList, radiusHeightData)`. */
  datatype PolarData = PolarData(r: seq<real>, theta: seq<real>, z: seq<real>, heights: map<int, seq<(real, real)>>)

  const NoPolarData := PolarData([], [], [], map[])

  /** The radii of one ray's rings, in stored order. */
  function Radii(rings: seq<Ring>): (radii: seq<real>)
    ensures |radii| == |rings|
  {
    seq(|rings|, i requires 0 <= i < |rings| => rings[i].radius)
  }

  /** The adjustment `j`: 0 for the first ring; otherwise, with `d` the gap
      to the previous radius, `d - 5.5` when `d < 5.5` and `5.5 - d` else. */
  function Adjustment(radii: seq<real>, index: nat): real
    requires index < |radii|
  {
    if index == 0 then 0.0
    else
      var d := Abs(radii[index] - radii[index - 1]);
      if d < 5.5 then d - 5.5 else 5.5 - d
  }

  /** `z = 0.01 * pow(index + j, 2)`. */
  function Height(radii: seq<real>, index: nat): real
    requires index < |radii|
  {
    0.01 * Pow(index as real + Adjustment(radii, index), 2)
  }

  /** The heights of one ray, ring by ring. */
  function RayHeights(radii: seq<real>): (zs: seq<real>)
    ensures |zs| == |radii|
  {
    seq(|radii|, i requires 0 <= i < |radii| => Height(radii, i))
  }

  /** `radiusHeightPairs` of one ray. */
  function Pairs(rings: seq<Ring>): (ps: seq<(real, real)>)
    ensures |ps| == |rings|
  {
    var radii := Radii(rings);
    seq(|rings|, i requires 0 <= i < |rings| => (radii[i], Height(radii, i)))
  }

  /** `Double(angle) * .pi / 180`. */
  function ToRadians(angle: int): real
  {
    angle as real * Pi / 180.0
  }

  /** The adjustment is minus the distance of the radius gap from 5.5, so it
      is never positive. */
  lemma AdjustmentIsNegatedDistance(radii: seq<real>, index: nat)
    requires 0 < index < |radii|
    ensures Adjustment(radii, index) == -Abs(Abs(radii[index] - radii[index - 1]) - 5.5)
    ensures Adjustment(radii, index) <= 0.0
  {
  }

  /** Heights are never negative, and the first ring of every ray sits at
      height 0. */
  lemma HeightFacts(radii: seq<real>, index: nat)
    requires index < |radii|
    ensures Height(radii, index) >= 0.0
    ensures index == 0 ==> Height(radii, index) == 0.0
  {
    var t := index as real + Adjustment(radii, index);
    assert Pow(t, 1) == t;
    assert Pow(t, 2) == t * t;
  }

  /** The loop over the listed angles, front to back. */
  function PolarOver(m: RingMap, ks: seq<int>): (pd: PolarData)
    requires forall i :: 0 <= i < |ks| ==> ks[i] in m
    requires forall i, j :: 0 <= i < j < |ks| ==> ks[i] < ks[j]
    ensures |pd.r| == CountUnder(m, ks) && |pd.theta| == |pd.r| && |pd.z| == |pd.r|
  {
    if |ks| == 0 then
      NoPolarData
    else
      var rest := PolarOver(m, ks[1..]);
      var rings := m[ks[0]];
      var radii := Radii(rings);
      var theta := seq(|rings|, _ => ToRadians(ks[0]));
      PolarData(radii + rest.r, theta + rest.theta, RayHeights(radii) + rest.z, rest.heights[ks[0] := Pairs(rings)])
  }

  /** The height map the loop builds has exactly the listed angles, each
      holding its ray's radius-height pairs. */
  lemma {:induction false} PolarOverHeights(m: RingMap, ks: seq<int>)
    requires forall i :: 0 <= i < |ks| ==> ks[i] in m
    requires forall i, j :: 0 <= i < j < |ks| ==> ks[i] < ks[j]
    ensures forall k :: k in PolarOver(m, ks).heights <==> k in ks
    ensures forall k :: k in PolarOver(m, ks).heights ==> PolarOver(m, ks).heights[k] == Pairs(m[k])
  {
    if |ks| > 0 {
      PolarOverHeights(m, ks[1..]);
      assert ks[0] !in ks[1..];
      assert forall k :: k in ks <==> k == ks[0] || k in ks[1..];
    }
  }

  /** `processPolarData`: nothing for a map without angles, otherwise one
      sample per ring over the angles in ascending order. */
  function ProcessPolarData(m: RingMap): (pd: PolarData)
    ensures |pd.r| == TotalCount(m) && |pd.theta| == |pd.r| && |pd.z| == |pd.r|
    ensures m == map[] ==> pd == NoPolarData
  {
    var angles := SortedKeys(m.Keys);
    if |angles| == 0 then
      NoPolarData
    else
      PolarOver(m, angles)
  }

  /** With or without angles, the result is the loop over the sorted ones. */
  lemma {:induction false} ProcessIsPolarOver(m: RingMap)
    ensures ProcessPolarData(m) == PolarOver(m, SortedKeys(m.Keys))
  {
  }

  /** The height map has exactly the ring map's angles. */
  lemma HeightKeys(m: RingMap)
    ensures ProcessPolarData(m).heights.Keys == m.Keys
  {
    var angles := SortedKeys(m.Keys);
    PolarOverHeights(m, angles);
    var hs := ProcessPolarData(m).heights;
    forall k
      ensures k in hs <==> k in m
    {
      assert k in m <==> k in angles;
    }
  }

  /** Each angle's height list pairs every ring's radius with its height,
      one entry per ring. */
  lemma HeightsOfAngle(m: RingMap, k: int)
    requires k in m
    ensures k in ProcessPolarData(m).heights
    ensures |ProcessPolarData(m).heights[k]| == |m[k]|
    ensures forall i :: 0 <= i < |m[k]| ==>
      ProcessPolarData(m).heights[k][i] == (m[k][i].radius, Height(Radii(m[k]), i))
  {
    HeightEntry(m, k);
    PairsEntries(m[k]);
  }

  lemma HeightEntry(m: RingMap, k: int)
    requires k in m
    ensures k in ProcessPolarData(m).heights && ProcessPolarData(m).heights[k] == Pairs(m[k])
  {
    var angles := SortedKeys(m.Keys);
    PolarOverHeights(m, angles);
    assert k in angles;
  }

  lemma PairsEntries(rings: seq<Ring>)
    ensures forall i :: 0 <= i < |rings| ==> Pairs(rings)[i] == (rings[i].radius, Height(Radii(rings), i))
  {
  }

  /** Sample `i` is the `i`-th ring of the key-sorted flattening, and its
      angle is that ring's key in radians. */
  lemma {:induction false} PolarOverFollowsFlatten(m: RingMap, ks: seq<int>)
    requires forall i :: 0 <= i < |ks| ==> ks[i] in m
    requires forall i, j :: 0 <= i < j < |ks| ==> ks[i] < ks[j]
    ensures forall i :: 0 <= i < |PolarOver(m, ks).r| ==>
      PolarOver(m, ks).r[i] == FlattenKeys(m, ks)[i].1.radius
      && PolarOver(m, ks).theta[i] == ToRadians(FlattenKeys(m, ks)[i].0)
  {
    if |ks| > 0 {
      PolarOverFollowsFlatten(m, ks[1..]);
      var pd, fk := PolarOver(m, ks), FlattenKeys(m, ks);
      var rest, ft := PolarOver(m, ks[1..]), FlattenKeys(m, ks[1..]);
      var len := |m[ks[0]]|;
      forall i | 0 <= i < |pd.r|
        ensures pd.r[i] == fk[i].1.radius && pd.theta[i] == ToRadians(fk[i].0)
      {
        if i >= len {
          assert pd.r[i] == rest.r[i - len] && pd.theta[i] == rest.theta[i - len];
          assert fk[i] == ft[i - len];
        }
      }
    }
  }

  lemma PolarFollowsFlatten(m: RingMap)
    ensures forall i :: 0 <= i < |ProcessPolarData(m).r| ==>
      ProcessPolarData(m).r[i] == Flatten(m)[i].1.radius
      && ProcessPolarData(m).theta[i] == ToRadians(Flatten(m)[i].0)
  {
    PolarOverFollowsFlatten(m, SortedKeys(m.Keys));
  }

  /** Sample `i` of the loop when it belongs to the first angle. */
  lemma {:induction false} PolarOverHead(m: RingMap, ks: seq<int>, i: int)
    requires forall i :: 0 <= i < |ks| ==> ks[i] in m
    requires forall i, j :: 0 <= i < j < |ks| ==> ks[i] < ks[j]
    requires |ks| > 0 && 0 <= i < |m[ks[0]]|
    ensures PolarOver(m, ks).r[i] == m[ks[0]][i].radius
    ensures PolarOver(m, ks).theta[i] == ToRadians(ks[0])
    ensures PolarOver(m, ks).z[i] == Height(Radii(m[ks[0]]), i)
  {
  }

  /** Sample `i` of the loop past the first angle's rings is sample
      `i - |m[ks[0]]|` of the loop over the remaining angles. */
  lemma {:induction false} PolarOverTail(m: RingMap, ks: seq<int>, i: int)
    requires forall i :: 0 <= i < |ks| ==> ks[i] in m
    requires forall i, j :: 0 <= i < j < |ks| ==> ks[i] < ks[j]
    requires |ks| > 0 && |m[ks[0]]| <= i < |PolarOver(m, ks).r|
    ensures PolarOver(m, ks).r[i] == PolarOver(m, ks[1..]).r[i - |m[ks[0]]|]
    ensures PolarOver(m, ks).theta[i] == PolarOver(m, ks[1..]).theta[i - |m[ks[0]]|]
    ensures PolarOver(m, ks).z[i] == PolarOver(m, ks[1..]).z[i - |m[ks[0]]|]
  {
  }

  /** Sample `p` of `pd` is a ring of radius `radius` on the ray at `angle`
      degrees, at height `z`. */
  predicate SampleAt(pd: PolarData, p: int, radius: real, angle: int, z: real)
  {
    0 <= p < |pd.r| && p < |pd.theta| && p < |pd.z|
    && pd.r[p] == radius && pd.theta[p] == ToRadians(angle) && pd.z[p] == z
  }

  /** The sample `PolarOverAt` places for ring `j` of angle `ks[a]`. */
  predicate RingSampled(m: RingMap, ks: seq<int>, a: int, j: int)
    requires forall i :: 0 <= i < |ks| ==> ks[i] in m
    requires forall i, j :: 0 <= i < j < |ks| ==> ks[i] < ks[j]
    requires 0 <= a < |ks| && 0 <= j < |m[ks[a]]|
  {
    SampleAt(PolarOver(m, ks), CountUnder(m, ks[..a]) + j, m[ks[a]][j].radius, ks[a], Height(Radii(m[ks[a]]), j))
  }

  /** The first angle's rings open the loop's lists. */
  lemma PolarOverAtFirst(m: RingMap, ks: seq<int>, j: int)
    requires forall i :: 0 <= i < |ks| ==> ks[i] in m
    requires forall i, j :: 0 <= i < j < |ks| ==> ks[i] < ks[j]
    requires |ks| > 0 && 0 <= j < |m[ks[0]]|
    ensures RingSampled(m, ks, 0, j)
  {
    assert ks[..0] == [];
    PolarOverHead(m, ks, j);
  }

  /** A sample of the remaining angles' loop, shifted past the first
      angle's rings, is the same sample of the whole loop. */
  lemma PolarOverAtLater(m: RingMap, ks: seq<int>, a: int, j: int)
    requires forall i :: 0 <= i < |ks| ==> ks[i] in m
    requires forall i, j :: 0 <= i < j < |ks| ==> ks[i] < ks[j]
    requires 0 < a < |ks| && 0 <= j < |m[ks[a]]|
    requires RingSampled(m, ks[1..], a - 1, j)
    ensures RingSampled(m, ks, a, j)
  {
    CountUnderPrefix(m, ks, a);
    PolarOverTail(m, ks, CountUnder(m, ks[..a]) + j);
  }

  /** The sample for ring `j` of angle `ks[a]` sits where the flattening puts
      that ring: its radius, its angle in radians, and the height of its
      index among its own ray's radii. */
  lemma {:induction false} PolarOverAt(m: RingMap, ks: seq<int>, a: int, j: int)
    requires forall i :: 0 <= i < |ks| ==> ks[i] in m
    requires forall i, j :: 0 <= i < j < |ks| ==> ks[i] < ks[j]
    requires 0 <= a < |ks| && 0 <= j < |m[ks[a]]|
    ensures RingSampled(m, ks, a, j)
  {
    if a == 0 {
      PolarOverAtFirst(m, ks, j);
    } else {
      PolarOverAt(m, ks[1..], a - 1, j);
      PolarOverAtLater(m, ks, a, j);
    }
  }

  /** Sample `j` of the ring at key `ks[a]` appears in the processed
      output right after the samples of the keys before it. */
  predicate Processed(m: RingMap, ks: seq<int>, a: int, j: int)
    requires forall i :: 0 <= i < |ks| ==> ks[i] in m
    requires 0 <= a < |ks| && 0 <= j < |m[ks[a]]|
  {
    SampleAt(ProcessPolarData(m), CountUnder(m, ks[..a]) + j, m[ks[a]][j].radius, ks[a], Height(Radii(m[ks[a]]), j))
  }

  /** `PolarOverAt` over the sorted angles: every ring of the map becomes the
      sample at its flattened position, with the height `Height` gives its
      index on its own ray. */
  lemma PolarAt(m: RingMap, ks: seq<int>, a: int, j: int)
    requires ks == SortedKeys(m.Keys)
    requires forall i :: 0 <= i < |ks| ==> ks[i] in m
    requires 0 <= a < |ks| && 0 <= j < |m[ks[a]]|
    ensures Processed(m, ks, a, j)
    ensures j == 0 ==> Height(Radii(m[ks[a]]), j) == 0.0
  {
    PolarOverAt(m, ks, a, j);
    ProcessIsPolarOver(m);
    HeightFacts(Radii(m[ks[a]]), j);
  }

  /** Every height the loop produces is a `Height`, so none is negative. */
  lemma {:induction false} PolarOverHeightsNonNegative(m: RingMap, ks: seq<int>)
    requires forall i :: 0 <= i < |ks| ==> ks[i] in m
    requires forall i, j :: 0 <= i < j < |ks| ==> ks[i] < ks[j]
    ensures forall i :: 0 <= i < |PolarOver(m, ks).z| ==> PolarOver(m, ks).z[i] >= 0.0
  {
    if |ks| > 0 {
      PolarOverHeightsNonNegative(m, ks[1..]);
      var radii := Radii(m[ks[0]]);
      var z := PolarOver(m, ks).z;
      forall i | 0 <= i < |z|
        ensures z[i] >= 0.0
      {
        if i < |radii| {
          PolarOverHead(m, ks, i);
          HeightFacts(radii, i);
        } else {
          PolarOverTail(m, ks, i);
        }
      }
    }
  }

  /** No sample of `processPolarData` lies below height 0. */
  lemma PolarHeightsNonNegative(m: RingMap)
    ensures forall i :: 0 <= i < |ProcessPolarData(m).z| ==> ProcessPolarData(m).z[i] >= 0.0
  {
    PolarOverHeightsNonNegative(m, SortedKeys(m.Keys));
  }

  /** Angles are visited in ascending key order, so theta never decreases. */
  lemma ThetaNonDecreasing(m: RingMap)
    ensures forall i, j :: 0 <= i < j < |ProcessPolarData(m).theta| ==>
      ProcessPolarData(m).theta[i] <= ProcessPolarData(m).theta[j]
  {
    PolarFollowsFlatten(m);
    var pd, f := ProcessPolarData(m), Flatten(m);
    forall i, j | 0 <= i < j < |pd.theta|
      ensures pd.theta[i] <= pd.theta[j]
    {
      assert f[i].0 <= f[j].0;
    }
  }
}
