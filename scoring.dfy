/** The arithmetic of `update_score`: a points table scaled by the level, the
    level derived from the score, and the fall interval derived from the level. */
module Scoring {

  /** Points for clearing `lines` rows at level 1; counts outside the table score nothing. */
  function Points(lines: int): (p: nat)
    ensures p <= 800
    ensures p > 0 <==> 1 <= lines <= 4
  {
    match lines
    case 1 => 100
    case 2 => 300
    case 3 => 500
    case 4 => 800
    case _ => 0
  }

  /** The level a score reaches: one more than the completed thousands. */
  function LevelFor(score: nat): (level: int)
    ensures level >= 1
    ensures (level - 1) * 1000 <= score < level * 1000
  {
    1 + score / 1000
  }

  /** The fall interval, in milliseconds, at a level: 100 less per level above
      the first, never below 50. */
  function SpeedFor(level: int): (ms: int)
    requires level >= 1
    ensures 50 <= ms <= 1000
    ensures ms == 1000 - (level - 1) * 100 || (ms == 50 && level >= 11)
  {
    if 1000 - (level - 1) * 100 > 50 then 1000 - (level - 1) * 100 else 50
  }

  /** The score after clearing `lines` rows at `level`. */
  function ScoreAfter(score: nat, level: int, lines: int): (s: nat)
    requires level >= 1
    ensures s >= score
    ensures s - score == Points(lines) * level
  {
    score + Points(lines) * level
  }

  /** More rows at once are worth strictly more. */
  lemma PointsIncrease(a: int, b: int)
    requires 0 <= a < b <= 4
    ensures Points(a) < Points(b)
  {
  }

  /** A higher level never falls more slowly. */
  lemma SpeedNonIncreasing(a: int, b: int)
    requires 1 <= a <= b
    ensures SpeedFor(b) <= SpeedFor(a)
  {
  }

  /** Worked examples: four rows at level 1 give 800 and stay at level 1;
      a score of 1000 reaches level 2 and a 900 ms interval; level 11 is
      clamped to 50 ms. */
  lemma ScoreExamples()
    ensures ScoreAfter(0, 1, 4) == 800 && LevelFor(800) == 1
    ensures LevelFor(1000) == 2 && SpeedFor(2) == 900
    ensures SpeedFor(11) == 50 && SpeedFor(1) == 1000
  {
  }
}
