/** Score, level and drop-speed arithmetic. */
module Scoring {

  /** Points for clearing `lines` rows in one lock, before the level factor. */
  function BasePoints(lines: nat): (p: nat)
    requires lines <= 4
    ensures lines == 0 <==> p == 0
    ensures lines >= 1 ==> p >= 40
  {
    [0, 40, 100, 300, 1200][lines]
  }

  /** Adds the line-clear points, scaled by the level plus one. */
  function CalculateScore(currentScore: int, lines: nat, level: int): (r: int)
    requires lines <= 4
    ensures lines == 0 ==> r == currentScore
    ensures level >= 0 ==> r >= currentScore
    ensures level >= 0 && lines >= 1 ==> r >= currentScore + 40
  {
    currentScore + BasePoints(lines) * (level + 1)
  }

  /** The level reached after `lines` cleared rows: one level per ten rows. */
  function CalculateLevel(lines: int): (level: int)
    ensures 10 * level <= lines < 10 * level + 10
  {
    lines / 10
  }

  /** The flat bonus for every locked piece. */
  function AddPlacingScore(currentScore: int): (r: int)
    ensures r - currentScore == 10
  {
    currentScore + 10
  }

  /** The hard-drop bonus: two points per row fallen. */
  function AddHardDropScore(currentScore: int, rowsDropped: int): (r: int)
    ensures rowsDropped >= 0 ==> r >= currentScore
    ensures r - currentScore == 2 * rowsDropped
  {
    currentScore + 2 * rowsDropped
  }

  /** Milliseconds between automatic drops at `level`: 50 less per level,
      never below 50. */
  function GetDropSpeed(level: int): (ms: int)
    ensures ms >= 50
    ensures level <= 19 ==> ms == 1000 - 50 * level
    ensures level >= 19 ==> ms == 50
  {
    if 1000 - level * 50 > 50 then 1000 - level * 50 else 50
  }

  lemma ScoreExamples(s: int, level: int)
    ensures CalculateScore(s, 0, level) == s
    ensures CalculateScore(0, 1, 0) == 40
    ensures CalculateScore(0, 4, 0) == 1200
  {
  }

  lemma LevelExamples()
    ensures CalculateLevel(9) == 0 && CalculateLevel(10) == 1
  {
  }

  lemma LevelMonotone(m: int, n: int)
    requires m <= n
    ensures CalculateLevel(m) <= CalculateLevel(n)
  {
    var a, b := CalculateLevel(m), CalculateLevel(n);
    assert 10 * a <= m <= n < 10 * b + 10;
  }

  lemma DropSpeedExamples()
    ensures GetDropSpeed(0) == 1000 && GetDropSpeed(19) == 50 && GetDropSpeed(25) == 50
  {
  }

  lemma DropSpeedNonIncreasing(l: int, m: int)
    requires l <= m
    ensures GetDropSpeed(m) <= GetDropSpeed(l)
  {
  }
}
