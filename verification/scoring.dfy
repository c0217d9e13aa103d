/** Points for a lock and the level derived from the score. Scores are exact
    rationals here; the hook computes them in floating point. */
module Scoring {
  import opened Types

  function Pow(b: real, e: nat): real {
    if e == 0 then 1.0 else b * Pow(b, e - 1)
  }

  lemma {:induction false} PowAtLeastOne(b: real, e: nat)
    requires b >= 1.0
    ensures Pow(b, e) >= 1.0
  {
    if e > 0 {
      PowAtLeastOne(b, e - 1);
    }
  }

  /** Points for clearing k lines at once: 100 · k · 1.5^(k-1), and nothing
      when no line goes. */
  function LinePoints(k: nat): (p: real)
    ensures p >= 100.0 * k as real
    ensures k == 0 <==> p == 0.0
  {
    if k == 0 then 0.0
    else
      PowAtLeastOne(PointsMultiplier, k - 1);
      PointsPerLine * k as real * Pow(PointsMultiplier, k - 1)
  }

  /** The award table for the common cases: one line gives 100, two give
      300, three 675, four 1350. */
  lemma LinePointsTable()
    ensures LinePoints(1) == 100.0
    ensures LinePoints(2) == 300.0
    ensures LinePoints(3) == 675.0
    ensures LinePoints(4) == 1350.0
  {
    assert Pow(1.5, 3) == 1.5 * Pow(1.5, 2);
  }

  /** Clearing more lines at once always earns strictly more. */
  lemma LinePointsIncreasing(k: nat)
    ensures LinePoints(k) < LinePoints(k + 1)
  {
    if k > 0 {
      var q := Pow(PointsMultiplier, k - 1);
      PowAtLeastOne(PointsMultiplier, k - 1);
      assert LinePoints(k + 1) == PointsPerLine * (k + 1) as real * (PointsMultiplier * q);
      assert LinePoints(k) == PointsPerLine * k as real * q;
    }
  }

  /** The level reached with a given score: one more per 1000 points. */
  function Level(score: real): (level: int)
    ensures score >= 0.0 ==> level >= 1
    ensures (level - 1) as real * PointsPerLevel <= score < level as real * PointsPerLevel
  {
    (score / PointsPerLevel).Floor + 1
  }

  /** A larger score never gives a lower level. */
  lemma LevelMonotonic(a: real, b: real)
    requires a <= b
    ensures Level(a) <= Level(b)
  {
    assert a / PointsPerLevel <= b / PointsPerLevel;
  }

  /** Boundary of the first level-up: 999 points is level 1, 1000 is level 2. */
  lemma LevelBoundary()
    ensures Level(999.0) == 1
    ensures Level(1000.0) == 2
  {
  }
}
