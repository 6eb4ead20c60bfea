/** The height profile through the corneal centre: the rings at the opposite
    angle, mirrored to negative radii and reversed, followed by the rings at
    the selected angle. */
module HeightGraph {
  import opened Numeric

  /** Per-angle `(radius, height)` lists, as the polar stage produces them. */
  type HeightMap = map<int, seq<(real, real)>>

  /** One plotted point, numbered in plotting order. */
  datatype DataPoint = DataPoint(id: int, radius: real, height: real)

  /** `(targetAngle + 180) % 360` with Swift's truncating remainder. */
  function OppositeAngle(target: int): (o: int)
    ensures target >= -180 ==> 0 <= o < 360
    ensures target >= 0 ==> o == (target + 180) % 360
  {
    SwiftRem(target + 180, 360)
  }

  /** On the degree keys the opposite of the opposite is the angle itself,
      and the two always differ by half a turn. */
  lemma OppositeInvolution(target: int)
    requires 0 <= target < 360
    ensures OppositeAngle(OppositeAngle(target)) == target
    ensures OppositeAngle(target) != target
    ensures OppositeAngle(target) == if target < 180 then target + 180 else target - 180
  {
  }

  /** `opposite.reversed().map { (-radius, height) }`. */
  function Mirror(ps: seq<(real, real)>): (ms: seq<(real, real)>)
    ensures |ms| == |ps|
  {
    seq(|ps|, i requires 0 <= i < |ps| => (-ps[|ps| - 1 - i].0, ps[|ps| - 1 - i].1))
  }

  /** Mirroring twice gives the list back. */
  lemma MirrorInvolution(ps: seq<(real, real)>)
    ensures Mirror(Mirror(ps)) == ps
  {
    var mm := Mirror(Mirror(ps));
    forall i | 0 <= i < |ps|
      ensures mm[i] == ps[i]
    {
      assert Mirror(ps)[|ps| - 1 - i] == (-ps[i].0, ps[i].1);
    }
  }

  /** `enumerated().map`: each pair numbered by its position. */
  function Enumerate(ps: seq<(real, real)>): (ds: seq<DataPoint>)
    ensures |ds| == |ps|
  {
    seq(|ps|, i requires 0 <= i < |ps| => DataPoint(i, ps[i].0, ps[i].1))
  }

  /** The `(radius, height)` pairs of plotted points. */
  function Pairs(ds: seq<DataPoint>): (ps: seq<(real, real)>)
    ensures |ps| == |ds|
  {
    seq(|ds|, i requires 0 <= i < |ds| => (ds[i].radius, ds[i].height))
  }

  /** `heightData`: empty when either angle has no list. */
  function HeightData(m: HeightMap, target: int): seq<DataPoint>
  {
    var o := OppositeAngle(target);
    if target !in m || o !in m then [] else Enumerate(Mirror(m[o]) + m[target])
  }

  /** The profile has one point per ring at either angle, numbered
      `0 .. len - 1` in order, and nothing is plotted unless both angles
      have data. */
  lemma HeightDataShape(m: HeightMap, target: int)
    ensures var r, o := HeightData(m, target), OppositeAngle(target);
      && (r == [] <==> target !in m || o !in m || (m[o] == [] && m[target] == []))
      && (target in m && o in m ==> |r| == |m[o]| + |m[target]|)
      && (forall i :: 0 <= i < |r| ==> r[i].id == i)
  {
  }

  /** The profile splits back into its two halves: the first `|opposite|`
      points mirrored give the opposite list, the rest are the selected
      list, heights unchanged. */
  lemma HeightDataSplits(m: HeightMap, target: int)
    requires target in m && OppositeAngle(target) in m
    ensures var r, o := HeightData(m, target), OppositeAngle(target);
      && Mirror(Pairs(r[..|m[o]|])) == m[o]
      && Pairs(r[|m[o]|..]) == m[target]
  {
    var o := OppositeAngle(target);
    var r := HeightData(m, target);
    var combined := Mirror(m[o]) + m[target];
    assert Pairs(r) == combined;
    assert Pairs(r[..|m[o]|]) == Pairs(r)[..|m[o]|] == Mirror(m[o]);
    assert Pairs(r[|m[o]|..]) == Pairs(r)[|m[o]|..] == m[target];
    MirrorInvolution(m[o]);
  }

  /** Radii that are non-negative and strictly increasing along the list. */
  predicate OutwardRadii(ps: seq<(real, real)>)
  {
    && (forall i :: 0 <= i < |ps| ==> 0.0 <= ps[i].0)
    && (forall i, j :: 0 <= i < j < |ps| ==> ps[i].0 < ps[j].0)
  }

  /** When both lists run outward from the centre, the plotted radii never
      decrease: the opposite side comes in from the left to the centre and
      the selected side goes out to the right. */
  lemma HeightDataSorted(m: HeightMap, target: int)
    requires target in m && OppositeAngle(target) in m
    requires OutwardRadii(m[OppositeAngle(target)]) && OutwardRadii(m[target])
    ensures var r := HeightData(m, target);
      forall i, j :: 0 <= i < j < |r| ==> r[i].radius <= r[j].radius
  {
    ProfileSorted(m[OppositeAngle(target)], m[target]);
  }

  lemma ProfileSorted(a: seq<(real, real)>, b: seq<(real, real)>)
    requires OutwardRadii(a) && OutwardRadii(b)
    ensures var r := Enumerate(Mirror(a) + b);
      forall i, j :: 0 <= i < j < |r| ==> r[i].radius <= r[j].radius
  {
    var r := Enumerate(Mirror(a) + b);
    var n := |a|;
    forall i, j | 0 <= i < j < |r|
      ensures r[i].radius <= r[j].radius
    {
      ProfileRadius(a, b, i);
      ProfileRadius(a, b, j);
      if j < n {
        assert a[n - 1 - j].0 < a[n - 1 - i].0;
      } else if i < n {
        assert 0.0 <= a[n - 1 - i].0 && 0.0 <= b[j - n].0;
      } else {
        assert b[i - n].0 < b[j - n].0;
      }
    }
  }

  /** The `i`-th plotted radius. */
  lemma ProfileRadius(a: seq<(real, real)>, b: seq<(real, real)>, i: int)
    requires 0 <= i < |a| + |b|
    ensures Enumerate(Mirror(a) + b)[i].radius == if i < |a| then -a[|a| - 1 - i].0 else b[i - |a|].0
  {
  }
}
