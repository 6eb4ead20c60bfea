/** The data-quality summary shown next to a scan: point and angle counts,
    the average number of rings per angle and a score in [0, 100]. */
module DataQuality {
  import opened Numeric
  import opened RingMaps

  /** `totalPoints`: every ring at every angle. */
  function TotalPoints(m: RingMap): nat
  {
    TotalCount(m)
  }

  /** `angleCount`: the number of angles with an entry. */
  function AngleCount(m: RingMap): nat
  {
    |m.Keys|
  }

  /** `avgRings`: integer division of points by angles, 0 without angles. */
  function AvgRings(total: nat, angles: nat): (avg: nat)
    ensures angles == 0 ==> avg == 0
    ensures angles > 0 ==> avg * angles <= total < (avg + 1) * angles
  {
    if angles > 0 then total / angles else 0
  }

  /** The ring-count factor: rises linearly to 1 at 32 rings per angle, then
      falls linearly to 0 at 112. */
  function RingNorm(avg: nat): (r: real)
    ensures 0.0 <= r <= 1.0
    ensures avg <= 32 ==> r * 32.0 == avg as real
    ensures 32 < avg < 112 ==> r * 80.0 == (112 - avg) as real && 0.0 < r < 1.0
    ensures avg >= 112 ==> r == 0.0
    ensures r == 1.0 <==> avg == 32
  {
    if avg <= 32 then avg as real / 32.0
    else Max(0.0, 1.0 - (avg - 32) as real / 80.0)
  }

  /** `qualityScore` for given counts. */
  function Score(total: nat, angles: nat): (score: real)
    ensures 0.0 <= score <= 100.0
    ensures AvgRings(total, angles) < 20 ==> score == 0.0
  {
    var avg := AvgRings(total, angles);
    if avg < 20 then
      0.0
    else
      var pointsScore := Min(total as real / 1000.0, 1.0);
      var angleScore := Min(angles as real / 360.0, 1.0);
      (pointsScore * 0.4 + angleScore * 0.3 + RingNorm(avg) * 0.3) * 100.0
  }

  /** The score of a ring map. */
  function QualityScore(m: RingMap): (score: real)
    ensures 0.0 <= score <= 100.0
  {
    Score(TotalPoints(m), AngleCount(m))
  }

  /** Reference form of the score above the threshold: the weighted sum of
      the three capped factors. */
  lemma ScoreWeights(total: nat, angles: nat)
    requires AvgRings(total, angles) >= 20
    ensures angles > 0
    ensures Score(total, angles)
            == 40.0 * Min(total as real / 1000.0, 1.0)
             + 30.0 * Min(angles as real / 360.0, 1.0)
             + 30.0 * RingNorm(AvgRings(total, angles))
  {
  }

  /** A perfect score needs at least 1000 points, at least 360 angles and
      exactly 32 rings per angle on average, and those suffice. */
  lemma PerfectScore(total: nat, angles: nat)
    ensures Score(total, angles) == 100.0
            <==> total >= 1000 && angles >= 360 && AvgRings(total, angles) == 32
  {
    var avg := AvgRings(total, angles);
    if avg >= 20 {
      var ps := Min(total as real / 1000.0, 1.0);
      var as_ := Min(angles as real / 360.0, 1.0);
      assert ps == 1.0 <==> total >= 1000;
      assert as_ == 1.0 <==> angles >= 360;
    }
  }

  /** With the angle count fixed and at most 32 rings per angle, more points
      never lower the score. */
  lemma ScoreMonotoneInPoints(t1: nat, t2: nat, angles: nat)
    requires t1 <= t2
    requires AvgRings(t2, angles) <= 32
    ensures Score(t1, angles) <= Score(t2, angles)
  {
    var a1, a2 := AvgRings(t1, angles), AvgRings(t2, angles);
    if a1 >= 20 {
      AvgRingsMonotone(t1, t2, angles);
      assert RingNorm(a1) <= RingNorm(a2);
      assert Min(t1 as real / 1000.0, 1.0) <= Min(t2 as real / 1000.0, 1.0);
    }
  }

  /** More points over the same angles never lower the average. */
  lemma AvgRingsMonotone(t1: nat, t2: nat, angles: nat)
    requires t1 <= t2
    ensures AvgRings(t1, angles) <= AvgRings(t2, angles)
  {
  }

  /** The colour of the score label. */
  datatype ScoreColor = Green | Orange | Red

  /** `scoreColor`: green from 80, orange from 50, red below. */
  function ColorOf(score: real): (col: ScoreColor)
    ensures col == Green <==> score >= 80.0
    ensures col == Orange <==> 50.0 <= score < 80.0
    ensures col == Red <==> score < 50.0
  {
    if score >= 80.0 then Green
    else if score >= 50.0 then Orange
    else Red
  }

  /** Too few rings per angle always shows red. */
  lemma SparseScanIsRed(total: nat, angles: nat)
    requires AvgRings(total, angles) < 20
    ensures ColorOf(Score(total, angles)) == Red
  {
  }
}
